/**
 * The OEM file (spacecraft_trajectory_propagator.py, lines 219-301), shaped
 * like the Orbit Ephemeris Message of CCSDS 502.0-B (Orbit Data Messages):
 * a header, a META_START ... META_STOP block whose START_TIME and STOP_TIME
 * are the first and last retained epochs, then one line per retained epoch
 * (every 30th propagated one) with a timestamp and the spacecraft's position
 * and velocity relative to Jupiter.  The ephemeris query, the timestamp
 * rendering (base date 2000-01-01T12:00:00 plus the epoch), the number formats
 * and the creation date (the clock at run time) are parameters.
 */
module OemExport {
  import opened Frames
  import opened Decimation
  import opened TextFields
  import opened Series

  const Stride: nat := 30

  /** Renderings of values as text: `stamp` to whole seconds, `stampMillis` to
      milliseconds, `position` with five decimals, `velocity` with six. */
  datatype OemFormat = OemFormat(stamp: real -> string, stampMillis: real -> string,
                                 position: real -> string, velocity: real -> string)

  /** The lines in the file when the writer finishes, or when indexing the first
      retained epoch of an empty series raises IndexError (the file then holds
      the lines written so far). */
  datatype OemOutput = Written(lines: seq<string>) | IndexError(partial: seq<string>)

  /** The header and the metadata lines that do not depend on the series. */
  function Preamble(creationDate: string): seq<string> {
    [ "CCSDS_OEM_VERS = 2.0",
      "CREATION_DATE  = " + creationDate,
      "ORIGINATOR     = TUDAT_PYTHON",
      "",
      "META_START",
      "OBJECT_NAME          = GANYMEDE_ORBITER",
      "OBJECT_ID            = 999",
      "CENTER_NAME          = JUPITER",
      "REF_FRAME            = EME2000",
      "TIME_SYSTEM          = UTC" ]
  }

  const StartTimeKey: string := "START_TIME           = "
  const StopTimeKey: string := "STOP_TIME            = "

  /** The index of the last retained sample of a non-empty series: a multiple of
      the stride within the last stride of the series. */
  function LastRetainedIndex(n: nat): (i: nat)
    requires n > 0
    ensures i % Stride == 0 && i <= n - 1 < i + Stride
  {
    ((n - 1) / Stride) * Stride
  }

  /** The fields of one data line: timestamp, x, y, z (km), vx, vy, vz (km/s). */
  function DataFields(epoch: real, scWrtGanymede: StateVector, ganymedeWrtJupiter: StateVector,
                      format: OemFormat): seq<string>
  {
    var s := Compose(scWrtGanymede, ganymedeWrtJupiter);
    [format.stampMillis(epoch), format.position(s[0]), format.position(s[1]), format.position(s[2]),
     format.velocity(s[3]), format.velocity(s[4]), format.velocity(s[5])]
  }

  /** One data line: its fields, each separated from the next by one space. */
  function DataLine(epoch: real, scWrtGanymede: StateVector, ganymedeWrtJupiter: StateVector,
                    format: OemFormat): string
  {
    JoinWith(DataFields(epoch, scWrtGanymede, ganymedeWrtJupiter, format), ' ')
  }

  /** A data line has exactly seven space-separated fields: the timestamp, three
      positions and three velocities of the spacecraft relative to Jupiter,
      provided no rendering produces a space. */
  lemma DataLineFields(epoch: real, scWrtGanymede: StateVector, ganymedeWrtJupiter: StateVector,
                       format: OemFormat)
    requires forall v :: ' ' !in format.stampMillis(v)
    requires forall v :: ' ' !in format.position(v)
    requires forall v :: ' ' !in format.velocity(v)
    ensures var s := Compose(scWrtGanymede, ganymedeWrtJupiter);
      SplitOn(DataLine(epoch, scWrtGanymede, ganymedeWrtJupiter, format), ' ')
        == [format.stampMillis(epoch), format.position(s[0]), format.position(s[1]), format.position(s[2]),
            format.velocity(s[3]), format.velocity(s[4]), format.velocity(s[5])]
  {
    SplitJoin(DataFields(epoch, scWrtGanymede, ganymedeWrtJupiter, format), ' ');
  }

  /** The data loop of the writer: one line per retained epoch, with its state
      and the ephemeris queried at that epoch. */
  method DataLines(times: seq<real>, states: seq<StateVector>, ephemeris: real -> StateVector,
                   format: OemFormat) returns (lines: seq<string>)
    requires |states| == |times|
    ensures |lines| == |times|
    ensures forall i :: 0 <= i < |times| ==>
      lines[i] == DataLine(times[i], states[i], ephemeris(times[i]), format)
  {
    lines := [];
    for i := 0 to |times|
      invariant |lines| == i
      invariant forall j :: 0 <= j < i ==> lines[j] == DataLine(times[j], states[j], ephemeris(times[j]), format)
    {
      var epochSeconds := times[i];
      var stateScWrtGan := states[i];
      var stateGanWrtJup := ephemeris(epochSeconds);
      lines := lines + [DataLine(epochSeconds, stateScWrtGan, stateGanWrtJup, format)];
    }
  }

  /** The header and metadata block, closed by META_STOP and a blank line. */
  function Header(creationDate: string, start: string, stop: string): (h: seq<string>)
    ensures |h| == 14 && h[..10] == Preamble(creationDate)
  {
    Preamble(creationDate) + [StartTimeKey + start, StopTimeKey + stop, "META_STOP", ""]
  }

  /** One data line per retained sample, in order. */
  function DataSection(kept: seq<Sample>, ephemeris: real -> StateVector, format: OemFormat): seq<string> {
    seq(|kept|, i requires 0 <= i < |kept| => DataLine(kept[i].epoch, kept[i].state, ephemeris(kept[i].epoch), format))
  }

  /** The retained epochs run from the first sample's epoch to that of the
      sample at the last multiple of the stride. */
  lemma CoveredSpan(resultsDict: seq<Sample>)
    requires resultsDict != []
    ensures var times := Decimate(Epochs(resultsDict), Stride);
      && |times| > 0
      && times[0] == resultsDict[0].epoch
      && times[|times| - 1] == resultsDict[LastRetainedIndex(|resultsDict|)].epoch
  {
    DecimatedColumnsPaired(resultsDict, Stride);
    DecimateEnds(resultsDict, Stride);
    RetainedIndexIsProduct((|resultsDict| - 1) / Stride, Stride);
  }

  /** export_to_ccsds_oem: the lines of the file it writes.  START_TIME is the
      first sample's epoch, STOP_TIME that of the last retained sample. */
  method ExportToCcsdsOem(resultsDict: seq<Sample>, ephemeris: real -> StateVector,
                          format: OemFormat, creationDate: string)
    returns (out: OemOutput)
    ensures resultsDict == [] ==> out == IndexError(Preamble(creationDate))
    ensures resultsDict != [] ==>
      out == Written(Header(creationDate, format.stamp(resultsDict[0].epoch),
                            format.stamp(resultsDict[LastRetainedIndex(|resultsDict|)].epoch))
                     + DataSection(Decimate(resultsDict, Stride), ephemeris, format))
  {
    ghost var kept := Decimate(resultsDict, Stride);
    var allTimes := Epochs(resultsDict);
    var allStates := States(resultsDict);
    var stepSize := 30;
    var timesDownsampled := Decimate(allTimes, stepSize);
    var statesDownsampled := Decimate(allStates, stepSize);
    DecimatedColumnsPaired(resultsDict, Stride);

    // header and the fixed metadata lines
    var written := Preamble(creationDate);
    if |timesDownsampled| == 0 {
      return IndexError(written);
    }
    CoveredSpan(resultsDict);
    var tStart := timesDownsampled[0];
    var tStop := timesDownsampled[|timesDownsampled| - 1];
    written := written + [StartTimeKey + format.stamp(tStart), StopTimeKey + format.stamp(tStop), "META_STOP", ""];
    var dataLines := DataLines(timesDownsampled, statesDownsampled, ephemeris, format);
    assert dataLines == DataSection(kept, ephemeris, format);
    written := written + dataLines;
    out := Written(written);
  }

  lemma DataSingleLine(epoch: real, scWrtGanymede: StateVector, ganymedeWrtJupiter: StateVector,
                       format: OemFormat)
    requires '\n' !in format.stampMillis(epoch)
    requires forall v :: '\n' !in format.position(v) && '\n' !in format.velocity(v)
    ensures '\n' !in DataLine(epoch, scWrtGanymede, ganymedeWrtJupiter, format)
  {
    JoinWithout(DataFields(epoch, scWrtGanymede, ganymedeWrtJupiter, format), ' ', '\n');
  }

  /** The data lines, each written followed by a newline, make a text that splits
      back at newlines into exactly those lines, provided the renderings never
      produce a newline. */
  lemma DataText(resultsDict: seq<Sample>, ephemeris: real -> StateVector, format: OemFormat)
    requires forall v :: '\n' !in format.stampMillis(v)
    requires forall v :: '\n' !in format.position(v) && '\n' !in format.velocity(v)
    ensures var data := DataSection(Decimate(resultsDict, Stride), ephemeris, format);
      SplitOn(FileText(data), '\n') == data + [""]
  {
    var kept := Decimate(resultsDict, Stride);
    var data := DataSection(kept, ephemeris, format);
    forall j | 0 <= j < |data|
      ensures '\n' !in data[j]
    {
      DataSingleLine(kept[j].epoch, kept[j].state, ephemeris(kept[j].epoch), format);
    }
    FileHoldsLines(data);
  }
}
