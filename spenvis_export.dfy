/**
 * The SPENVIS trajectory upload file (spacecraft_trajectory_propagator.py,
 * lines 142-217): every 6th propagated epoch (10 s steps become 60 s), one
 * line per retained epoch with its Julian date and the spacecraft's position
 * relative to Jupiter in km, between a fixed banner and the $$BEGIN / $$END
 * markers.  The ephemeris query and the fixed-decimal number formatting are
 * parameters; the file is modelled as its sequence of lines.
 */
module SpenvisExport {
  import opened Frames
  import opened Decimation
  import opened TextFields
  import opened Series

  const Stride: nat := 6

  const Rule: string := "******************************************************************"

  /** The nine lines written before $$BEGIN. */
  const Banner: seq<string> := [
    Rule,
    "* Optimized Ganymede Orbiter Trajectory (60s step)",
    Rule,
    "Title: Ganymede Orbiter Analysis",
    "Planet: Jupiter",
    "Coordinates: PEI",
    "Columns: JDCT, X, Y, Z",
    "Format: CSV",
    Rule
  ]

  /** `f"{jd:.9f}, {x_km:.6f}, {y_km:.6f}, {z_km:.6f}"` for one retained epoch, with
      `formatJd` and `formatKm` standing for the two fixed-decimal formats. */
  function RecordLine(epoch: real, scWrtGanymede: StateVector, ganymedeWrtJupiter: StateVector,
                      formatJd: real -> string, formatKm: real -> string): string
  {
    var km := Compose(scWrtGanymede, ganymedeWrtJupiter);
    formatJd(JulianDate(epoch)) + ", " + formatKm(km[0]) + ", " + formatKm(km[1]) + ", " + formatKm(km[2])
  }

  /** A data line has exactly four comma-separated fields, in the order of the
      Columns header: Julian date, X, Y, Z (the last three after a space),
      provided the number formats never produce a comma. */
  lemma RecordLineFields(epoch: real, scWrtGanymede: StateVector, ganymedeWrtJupiter: StateVector,
                         formatJd: real -> string, formatKm: real -> string)
    requires forall v :: ',' !in formatJd(v)
    requires forall v :: ',' !in formatKm(v)
    ensures var km := Compose(scWrtGanymede, ganymedeWrtJupiter);
      SplitOn(RecordLine(epoch, scWrtGanymede, ganymedeWrtJupiter, formatJd, formatKm), ',')
        == [formatJd(JulianDate(epoch)), " " + formatKm(km[0]), " " + formatKm(km[1]), " " + formatKm(km[2])]
  {
    var km := Compose(scWrtGanymede, ganymedeWrtJupiter);
    var fields := [formatJd(JulianDate(epoch)), " " + formatKm(km[0]), " " + formatKm(km[1]), " " + formatKm(km[2])];
    assert JoinWith(fields[3..], ',') == fields[3];
    assert JoinWith(fields[2..], ',') == fields[2] + [','] + fields[3];
    assert JoinWith(fields[1..], ',') == fields[1] + [','] + fields[2] + [','] + fields[3];
    assert JoinWith(fields, ',') == RecordLine(epoch, scWrtGanymede, ganymedeWrtJupiter, formatJd, formatKm);
    forall i | 0 <= i < 4
      ensures ',' !in fields[i]
    {
      if i > 0 {
        assert fields[i] == " " + formatKm(km[i - 1]);
      }
    }
    SplitJoin(fields, ',');
  }

  /** The data loop of the exporter: one record per retained epoch, with its
      state and the ephemeris queried at that epoch. */
  method RecordLines(times: seq<real>, states: seq<StateVector>, ephemeris: real -> StateVector,
                     formatJd: real -> string, formatKm: real -> string) returns (dataLines: seq<string>)
    requires |states| == |times|
    ensures |dataLines| == |times|
    ensures forall i :: 0 <= i < |times| ==>
      dataLines[i] == RecordLine(times[i], states[i], ephemeris(times[i]), formatJd, formatKm)
  {
    dataLines := [];
    for i := 0 to |times|
      invariant |dataLines| == i
      invariant forall j :: 0 <= j < i ==>
        dataLines[j] == RecordLine(times[j], states[j], ephemeris(times[j]), formatJd, formatKm)
    {
      var epochSeconds := times[i];
      var stateScWrtGan := states[i];
      var stateGanWrtJup := ephemeris(epochSeconds);
      var line := RecordLine(epochSeconds, stateScWrtGan, stateGanWrtJup, formatJd, formatKm);
      dataLines := dataLines + [line];
    }
  }

  /** One record per retained sample, in order. */
  function RecordSection(kept: seq<Sample>, ephemeris: real -> StateVector,
                         formatJd: real -> string, formatKm: real -> string): seq<string>
  {
    seq(|kept|, i requires 0 <= i < |kept| =>
      RecordLine(kept[i].epoch, kept[i].state, ephemeris(kept[i].epoch), formatJd, formatKm))
  }

  /** export_results_for_spenvis: the lines of the file it writes, the banner,
      then the records of every 6th sample between $$BEGIN and $$END. */
  method ExportForSpenvis(resultsDict: seq<Sample>, ephemeris: real -> StateVector,
                          formatJd: real -> string, formatKm: real -> string)
    returns (lines: seq<string>)
    ensures lines == Banner + ["$$BEGIN"]
      + RecordSection(Decimate(resultsDict, Stride), ephemeris, formatJd, formatKm) + ["$$END"]
  {
    ghost var kept := Decimate(resultsDict, Stride);
    var allTimes := Epochs(resultsDict);
    var allStates := States(resultsDict);
    var timesDownsampled := Decimate(allTimes, 6);
    var statesDownsampled := Decimate(allStates, 6);
    DecimatedColumnsPaired(resultsDict, Stride);

    var dataLines := RecordLines(timesDownsampled, statesDownsampled, ephemeris, formatJd, formatKm);
    assert dataLines == RecordSection(kept, ephemeris, formatJd, formatKm);

    lines := Banner + ["$$BEGIN"] + dataLines + ["$$END"];
  }

  lemma RecordSingleLine(epoch: real, scWrtGanymede: StateVector, ganymedeWrtJupiter: StateVector,
                         formatJd: real -> string, formatKm: real -> string)
    requires '\n' !in formatJd(JulianDate(epoch))
    requires forall v :: '\n' !in formatKm(v)
    ensures '\n' !in RecordLine(epoch, scWrtGanymede, ganymedeWrtJupiter, formatJd, formatKm)
  {
    assert '\n' !in ", ";
  }

  /** The records written between $$BEGIN and $$END, each followed by a newline,
      make a text that splits back at newlines into exactly those records,
      provided the number formats never produce a newline. */
  lemma RecordsText(resultsDict: seq<Sample>, ephemeris: real -> StateVector,
                    formatJd: real -> string, formatKm: real -> string)
    requires forall v :: '\n' !in formatJd(v)
    requires forall v :: '\n' !in formatKm(v)
    ensures var records := RecordSection(Decimate(resultsDict, Stride), ephemeris, formatJd, formatKm);
      SplitOn(FileText(records), '\n') == records + [""]
  {
    var kept := Decimate(resultsDict, Stride);
    var records := RecordSection(kept, ephemeris, formatJd, formatKm);
    forall j | 0 <= j < |records|
      ensures '\n' !in records[j]
    {
      RecordSingleLine(kept[j].epoch, kept[j].state, ephemeris(kept[j].epoch), formatJd, formatKm);
    }
    FileHoldsLines(records);
  }
}
