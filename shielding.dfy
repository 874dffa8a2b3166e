/**
 * From parsed rows to a recommended aluminium wall thickness
 * (calculate_thickness.py, lines 39-97): fluence over the mission, an energy
 * filter, Weber's two-regime range rule, conversion to millimetres of aluminium,
 * the hazard rule with its fixed fallback, and the 20% safety margin.
 * The low-energy range formula (a power law with a logarithmic exponent) is a
 * parameter; arithmetic is over exact reals.
 */
module Shielding {
  import opened Wrappers
  import opened FluxParser

  const MinRelevantEnergy: real := 0.04      // MeV, kept when energy >= this
  const RegimeBoundary: real := 2.5          // MeV, linear rule from here on
  const AluminiumDensity: real := 2.70       // g/cm3
  const HazardFluence: real := 1000000000.0  // hits/cm2, hazardous when fluence > this
  const FallbackEnergy: real := 0.5          // MeV, reported when nothing is hazardous
  const FallbackThickness: real := 2.0       // mm, minimum structural wall
  const SafetyFactor: real := 1.2

  datatype FluenceRow = FluenceRow(energy: real, flux: real, fluence: real)

  /** A row of the final table (the source's target_data frame). */
  datatype ShieldingRecord =
    ShieldingRecord(energy: real, flux: real, fluence: real, density: real, thickness: real)

  /** The hazard energy and the raw (unmargined) design thickness. */
  datatype Design = Design(hazardEnergy: real, thickness: real)

  datatype AbortReason = DataNotFound | EmptyDataset

  datatype ShieldingOutcome =
    | Aborted(reason: AbortReason)
    | Completed(records: seq<ShieldingRecord>, design: Design, finalThickness: real)

  /** What calculate_shielding returns: 0.0 when it aborts; on success it returns
      nothing and only prints the design figures. */
  function ReturnValue(o: ShieldingOutcome): Option<real> {
    if o.Aborted? then Some(0.0) else None
  }

  function MissionSeconds(days: real): real {
    days * 24.0 * 3600.0
  }

  /** The ElectronFluence column. */
  function WithFluence(rows: seq<FluxRow>, days: real): seq<FluenceRow> {
    seq(|rows|, i requires 0 <= i < |rows| =>
      FluenceRow(rows[i].energy, rows[i].flux, rows[i].flux * MissionSeconds(days)))
  }

  /** Boolean-mask selection of a frame's rows, order kept. */
  function Filter<T(!new)>(s: seq<T>, keep: T -> bool): (r: seq<T>)
    ensures |r| <= |s|
    ensures forall x :: x in r <==> x in s && keep(x)
  {
    if s == [] then [] else (if keep(s[0]) then [s[0]] else []) + Filter(s[1..], keep)
  }

  /** Selection distributes over concatenation, so the kept rows stay in order. */
  lemma {:induction false} FilterAppend<T(!new)>(a: seq<T>, b: seq<T>, keep: T -> bool)
    ensures Filter(a + b, keep) == Filter(a, keep) + Filter(b, keep)
  {
    if a != [] {
      assert (a + b)[1..] == a[1..] + b;
      FilterAppend(a[1..], b, keep);
    } else {
      assert a + b == b;
    }
  }

  /** The first row a selection keeps is the first row of the original that passes. */
  lemma {:induction false} FilterHead<T(!new)>(s: seq<T>, keep: T -> bool)
    requires Filter(s, keep) != []
    ensures exists i :: (0 <= i < |s| && s[i] == Filter(s, keep)[0] && keep(s[i])
      && forall j :: 0 <= j < i ==> !keep(s[j]))
  {
    if !keep(s[0]) {
      assert Filter(s, keep) == Filter(s[1..], keep);
      FilterHead(s[1..], keep);
      var i :| 0 <= i < |s| - 1 && s[1..][i] == Filter(s[1..], keep)[0] && keep(s[1..][i])
        && forall j :: 0 <= j < i ==> !keep(s[1..][j]);
      assert s[i + 1] == s[1..][i];
      forall j | 0 <= j < i + 1
        ensures !keep(s[j])
      {
        if j > 0 {
          assert s[j] == s[1..][j - 1];
        }
      }
    }
  }

  /** Selecting with `p` and then with `q` is selecting once with both. */
  lemma {:induction false} FilterFilter<T(!new)>(s: seq<T>, p: T -> bool, q: T -> bool, both: T -> bool)
    requires forall x :: both(x) == (p(x) && q(x))
    ensures Filter(Filter(s, p), q) == Filter(s, both)
  {
    if s != [] {
      var head := if p(s[0]) then [s[0]] else [];
      assert Filter(s, p) == head + Filter(s[1..], p);
      FilterAppend(head, Filter(s[1..], p), q);
      if p(s[0]) {
        assert Filter(head, q) == (if q(s[0]) then [s[0]] else []) + Filter(head[1..], q);
        assert head[1..] == [];
      }
      FilterFilter(s[1..], p, q, both);
    }
  }

  predicate IsRelevant(r: FluenceRow) {
    r.energy >= MinRelevantEnergy
  }

  predicate IsHazardous(r: ShieldingRecord) {
    r.fluence > HazardFluence
  }

  /** Weber's range rule for electrons in aluminium, g/cm2. */
  function ArealDensity(e: real, lowEnergyRange: real -> real): real {
    if e < RegimeBoundary then
      if e > 0.0 then lowEnergyRange(e) else 0.0
    else 0.530 * e - 0.106
  }

  /** Areal density over the density of aluminium, centimetres to millimetres. */
  function ThicknessMm(density: real): real {
    density / AluminiumDensity * 10.0
  }

  /** The linear regime is 1.219 g/cm2 at the boundary and grows by 0.53 per MeV;
      energy zero (or below) in the low regime needs no shielding. */
  lemma ArealDensityRegimes(e: real, lowEnergyRange: real -> real)
    ensures e >= RegimeBoundary ==>
      ArealDensity(e, lowEnergyRange) == 1.219 + 0.530 * (e - RegimeBoundary) >= 1.219
    ensures e <= 0.0 ==> ArealDensity(e, lowEnergyRange) == 0.0
    ensures 0.0 < e < RegimeBoundary ==> ArealDensity(e, lowEnergyRange) == lowEnergyRange(e)
  {
  }

  /** The thickness conversion is invertible and order-preserving. */
  lemma ThicknessConversion(d1: real, d2: real)
    ensures ThicknessMm(d1) * AluminiumDensity / 10.0 == d1
    ensures d1 < d2 <==> ThicknessMm(d1) < ThicknessMm(d2)
  {
  }

  /** The shielding loop of the source: one areal density per energy, in order. */
  method RequiredDensities(energies: seq<real>, lowEnergyRange: real -> real)
    returns (shieldingRequired: seq<real>)
    ensures |shieldingRequired| == |energies|
    ensures forall i :: 0 <= i < |energies| ==>
      shieldingRequired[i] == ArealDensity(energies[i], lowEnergyRange)
  {
    shieldingRequired := [];
    for i := 0 to |energies|
      invariant |shieldingRequired| == i
      invariant forall k :: 0 <= k < i ==>
        shieldingRequired[k] == ArealDensity(energies[k], lowEnergyRange)
    {
      var e := energies[i];
      var r: real;
      if e < RegimeBoundary {
        if e > 0.0 {
          r := lowEnergyRange(e);
        } else {
          r := 0.0;
        }
      } else {
        r := 0.530 * e - 0.106;
      }
      shieldingRequired := shieldingRequired + [r];
    }
  }

  function ToRecord(row: FluenceRow, density: real): ShieldingRecord {
    ShieldingRecord(row.energy, row.flux, row.fluence, density, ThicknessMm(density))
  }

  /** The shielding columns added to the relevant rows. */
  function ShieldingTable(target: seq<FluenceRow>, lowEnergyRange: real -> real): seq<ShieldingRecord> {
    seq(|target|, i requires 0 <= i < |target| =>
      ToRecord(target[i], ArealDensity(target[i].energy, lowEnergyRange)))
  }

  /** The largest energy of a non-empty frame. */
  function MaxEnergy(rs: seq<ShieldingRecord>): (m: real)
    requires |rs| > 0
    ensures exists i :: 0 <= i < |rs| && rs[i].energy == m
    ensures forall i :: 0 <= i < |rs| ==> rs[i].energy <= m
  {
    if |rs| == 1 then rs[0].energy
    else
      var rest := MaxEnergy(rs[1..]);
      if rs[0].energy >= rest then rs[0].energy else rest
  }

  /** The hazard rule: the thickness of the first hazardous row of maximal energy,
      or the fixed fallback when no row is hazardous. */
  function SelectDesign(records: seq<ShieldingRecord>): Design {
    var hazardous := Filter(records, IsHazardous);
    if hazardous == [] then Design(FallbackEnergy, FallbackThickness)
    else
      var maxHazardEnergy := MaxEnergy(hazardous);
      var atMax := Filter(hazardous, (r: ShieldingRecord) => r.energy == maxHazardEnergy);
      MaxEnergyAttained(hazardous, (r: ShieldingRecord) => r.energy == maxHazardEnergy);
      Design(maxHazardEnergy, atMax[0].thickness)
  }

  lemma MaxEnergyAttained(rs: seq<ShieldingRecord>, atMax: ShieldingRecord -> bool)
    requires |rs| > 0
    requires forall r :: atMax(r) == (r.energy == MaxEnergy(rs))
    ensures Filter(rs, atMax) != []
  {
    var k :| 0 <= k < |rs| && rs[k].energy == MaxEnergy(rs);
    assert rs[k] in Filter(rs, atMax);
  }

  /** What the hazard rule picks, stated on the table itself. */
  lemma SelectDesignSpec(records: seq<ShieldingRecord>)
    ensures (forall i :: 0 <= i < |records| ==> !IsHazardous(records[i])) ==>
      SelectDesign(records) == Design(FallbackEnergy, FallbackThickness)
    ensures (exists i :: 0 <= i < |records| && IsHazardous(records[i])) ==>
      var d := SelectDesign(records);
      && (forall j :: 0 <= j < |records| && IsHazardous(records[j]) ==> records[j].energy <= d.hazardEnergy)
      && exists i :: 0 <= i < |records| && IsHazardous(records[i])
           && records[i].energy == d.hazardEnergy && records[i].thickness == d.thickness
           && forall j :: 0 <= j < i && IsHazardous(records[j]) ==> records[j].energy != d.hazardEnergy
  {
    var hazardous := Filter(records, IsHazardous);
    if hazardous != [] {
      var m := MaxEnergy(hazardous);
      var q := (r: ShieldingRecord) => r.energy == m;
      var both := (r: ShieldingRecord) => IsHazardous(r) && r.energy == m;
      forall j | 0 <= j < |records| && IsHazardous(records[j])
        ensures records[j].energy <= m
      {
        assert records[j] in hazardous;
      }
      MaxEnergyAttained(hazardous, q);
      FilterFilter(records, IsHazardous, q, both);
      FilterHead(records, both);
    } else {
      forall j | 0 <= j < |records|
        ensures !IsHazardous(records[j])
      {
        assert records[j] !in hazardous;
      }
    }
  }

  /** The whole computation after the file has been read, as one specification. */
  function ShieldingResult(file: Option<seq<string>>, days: real, parse: string -> Option<real>,
                           lowEnergyRange: real -> real): ShieldingOutcome
  {
    match file
    case None => Aborted(DataNotFound)
    case Some(lines) =>
      var rows := ParsedRows(lines, parse);
      if rows == [] then Aborted(EmptyDataset)
      else
        var records := TableOf(rows, days, lowEnergyRange);
        var design := SelectDesign(records);
        Completed(records, design, design.thickness * SafetyFactor)
  }

  /** calculate_shielding with the file's lines (None for a missing file), the
      mission duration in days, the number parser and the low-energy range formula. */
  method CalculateShielding(file: Option<seq<string>>, missionDurationDays: real,
                            parse: string -> Option<real>, lowEnergyRange: real -> real)
    returns (outcome: ShieldingOutcome)
    ensures outcome == ShieldingResult(file, missionDurationDays, parse, lowEnergyRange)
  {
    if file.None? {
      return Aborted(DataNotFound);
    }
    var validRows := ScanLines(file.value, parse);
    if validRows == [] {
      return Aborted(EmptyDataset);
    }
    var secondsInMission := missionDurationDays * 24.0 * 3600.0;
    var data := seq(|validRows|, i requires 0 <= i < |validRows| =>
      FluenceRow(validRows[i].energy, validRows[i].flux, validRows[i].flux * secondsInMission));
    assert data == WithFluence(validRows, missionDurationDays) by {
      assert secondsInMission == MissionSeconds(missionDurationDays);
    }
    var targetData := Filter(data, IsRelevant);
    var energies := seq(|targetData|, i requires 0 <= i < |targetData| => targetData[i].energy);
    var shieldingRequired := RequiredDensities(energies, lowEnergyRange);
    var records := seq(|targetData|, i requires 0 <= i < |targetData| =>
      ToRecord(targetData[i], shieldingRequired[i]));
    assert records == TableOf(validRows, missionDurationDays, lowEnergyRange) by {
      assert records == ShieldingTable(targetData, lowEnergyRange);
    }
    var design := SelectDesign(records);
    var finalThickness := design.thickness * SafetyFactor;
    outcome := Completed(records, design, finalThickness);
  }

  /** A missing file and a file without numeric rows both make the function return 0.0. */
  lemma AbortsReturnZero(file: Option<seq<string>>, days: real, parse: string -> Option<real>,
                         lowEnergyRange: real -> real)
    ensures var o := ShieldingResult(file, days, parse, lowEnergyRange);
      (o.Aborted? <==> file.None? || ParsedRows(file.value, parse) == [])
      && (o.Aborted? ==> ReturnValue(o) == Some(0.0))
      && (file.None? ==> o == Aborted(DataNotFound))
  {
  }

  /** The relevant rows with their shielding columns (the source's target_data). */
  function TableOf(rows: seq<FluxRow>, days: real, lowEnergyRange: real -> real): seq<ShieldingRecord> {
    ShieldingTable(Filter(WithFluence(rows, days), IsRelevant), lowEnergyRange)
  }

  /** Every record of the table comes from a row with energy at least 0.04 MeV,
      carries fluence flux x mission seconds and the range rule's thickness. */
  lemma RecordTracesToRow(rows: seq<FluxRow>, days: real, lowEnergyRange: real -> real, k: int)
    requires 0 <= k < |TableOf(rows, days, lowEnergyRange)|
    ensures var rec := TableOf(rows, days, lowEnergyRange)[k];
      && rec.energy >= MinRelevantEnergy
      && rec.density == ArealDensity(rec.energy, lowEnergyRange)
      && rec.thickness == ThicknessMm(rec.density)
      && exists i :: (0 <= i < |rows| && rows[i].energy == rec.energy && rows[i].flux == rec.flux
           && rec.fluence == rows[i].flux * days * 86400.0)
  {
    var data := WithFluence(rows, days);
    var target := Filter(data, IsRelevant);
    var records := ShieldingTable(target, lowEnergyRange);
    assert records[k] == ToRecord(target[k], ArealDensity(target[k].energy, lowEnergyRange));
    assert target[k] in data;
    var i :| 0 <= i < |data| && data[i] == target[k];
    assert data[i] == FluenceRow(rows[i].energy, rows[i].flux, rows[i].flux * MissionSeconds(days));
    FluenceOverMission(rows[i].flux, days);
  }

  /** Every row with energy at least 0.04 MeV has its record in the table. */
  lemma RelevantRowHasRecord(rows: seq<FluxRow>, days: real, lowEnergyRange: real -> real, i: int)
    requires 0 <= i < |rows| && rows[i].energy >= MinRelevantEnergy
    ensures var records := TableOf(rows, days, lowEnergyRange);
      exists k :: (0 <= k < |records| && records[k].energy == rows[i].energy
        && records[k].flux == rows[i].flux
        && records[k].fluence == rows[i].flux * days * 86400.0)
  {
    var data := WithFluence(rows, days);
    var target := Filter(data, IsRelevant);
    var records := ShieldingTable(target, lowEnergyRange);
    assert data[i] == FluenceRow(rows[i].energy, rows[i].flux, rows[i].flux * MissionSeconds(days));
    assert data[i] in target;
    var k :| 0 <= k < |target| && target[k] == data[i];
    assert records[k] == ToRecord(target[k], ArealDensity(target[k].energy, lowEnergyRange));
    assert records == TableOf(rows, days, lowEnergyRange);
    assert 0 <= k < |records| && records[k].energy == rows[i].energy && records[k].flux == rows[i].flux
      && records[k].fluence == rows[i].flux * days * 86400.0 by {
      FluenceOverMission(rows[i].flux, days);
    }
  }

  /** A fluence over the mission is flux x days x 86400. */
  lemma FluenceOverMission(flux: real, days: real)
    ensures flux * MissionSeconds(days) == flux * days * 86400.0
  {
  }

  /** When no record is hazardous the design falls back to 2.0 mm at 0.5 MeV, and
      the recommendation is 2.4 mm; otherwise it is 1.2 times the thickness of the
      first hazardous record of maximal energy. */
  lemma FinalThicknessRule(file: Option<seq<string>>, days: real, parse: string -> Option<real>,
                           lowEnergyRange: real -> real)
    requires ShieldingResult(file, days, parse, lowEnergyRange).Completed?
    ensures var o := ShieldingResult(file, days, parse, lowEnergyRange);
      && o.finalThickness == o.design.thickness * SafetyFactor
      && ((forall k :: 0 <= k < |o.records| ==> !IsHazardous(o.records[k])) ==>
            o.design == Design(0.5, 2.0) && o.finalThickness == 2.4)
      && ((exists k :: 0 <= k < |o.records| && IsHazardous(o.records[k])) ==>
            exists k :: 0 <= k < |o.records| && IsHazardous(o.records[k])
              && o.finalThickness == o.records[k].thickness * SafetyFactor
              && o.design.hazardEnergy == o.records[k].energy)
  {
    SelectDesignSpec(ShieldingResult(file, days, parse, lowEnergyRange).records);
  }

  /** The duration is not validated: with zero or negative days and non-negative
      fluxes every fluence is at most zero, so no record is hazardous and the
      fallback design (2.0 mm, reported at 0.5 MeV) is always taken. */
  lemma NonPositiveDurationFallsBack(lines: seq<string>, days: real, parse: string -> Option<real>,
                                     lowEnergyRange: real -> real)
    requires days <= 0.0
    requires forall row :: row in ParsedRows(lines, parse) ==> row.flux >= 0.0
    requires ParsedRows(lines, parse) != []
    ensures var o := ShieldingResult(Some(lines), days, parse, lowEnergyRange);
      && o.Completed?
      && (forall k :: 0 <= k < |o.records| ==> !IsHazardous(o.records[k]))
      && o.design == Design(FallbackEnergy, FallbackThickness)
      && o.finalThickness == 2.4
  {
    var rows := ParsedRows(lines, parse);
    var records := TableOf(rows, days, lowEnergyRange);
    forall k | 0 <= k < |records|
      ensures !IsHazardous(records[k])
    {
      NonPositiveFluence(rows, days, lowEnergyRange, k);
    }
    assert SelectDesign(records) == Design(FallbackEnergy, FallbackThickness) by {
      SelectDesignSpec(records);
    }
  }

  lemma NonPositiveFluence(rows: seq<FluxRow>, days: real, lowEnergyRange: real -> real, k: int)
    requires days <= 0.0
    requires forall row :: row in rows ==> row.flux >= 0.0
    requires 0 <= k < |TableOf(rows, days, lowEnergyRange)|
    ensures TableOf(rows, days, lowEnergyRange)[k].fluence <= 0.0
  {
    var rec := TableOf(rows, days, lowEnergyRange)[k];
    RecordTracesToRow(rows, days, lowEnergyRange, k);
    var i :| 0 <= i < |rows| && rows[i].flux == rec.flux && rec.fluence == rows[i].flux * days * 86400.0;
    assert rows[i] in rows;
    NonPositiveProduct(rows[i].flux, days);
  }

  lemma NonPositiveProduct(x: real, y: real)
    requires x >= 0.0 && y <= 0.0
    ensures x * y <= 0.0
  {
  }
}
