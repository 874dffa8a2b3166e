# Jovian shielding estimate and Ganymede-orbiter trajectory export, in Dafny

This project models two small pipelines from a Ganymede-orbiter study.

**Shielding estimate** (`calculate_thickness.py`, `calculate_shielding`):

- An environment data file from SPENVIS is scanned leniently. Each line is cut into tokens at runs of commas and whitespace. A line whose first two tokens are numbers gives one (energy, flux) row, and any other line is skipped.
- Fluence is flux times the mission duration in seconds.
- Rows below 0.04 MeV are dropped.
- Weber's two-regime range rule gives an areal density for each remaining row. That density is converted to millimetres of aluminium.
- The design thickness is the thickness of the first hazardous row (fluence above 10^9) of maximal energy. When no row is hazardous, it is a fixed 2.0 mm at 0.5 MeV.
- The recommendation is the design thickness with a 20% margin.
- A missing file, or a file with no numeric rows, makes the function return 0.0.

**Trajectory export** (`spacecraft_trajectory_propagator.py`, `export_results_for_spenvis` and `export_to_ccsds_oem`):

- The propagated epoch→state history is decimated: every 6th sample for SPENVIS, every 30th for the OEM file.
- Each retained state (relative to Ganymede) is composed with Ganymede's state relative to Jupiter and converted to km and km/s.
- SPENVIS file: a fixed banner, `$$BEGIN`, one `JD, X, Y, Z` line per retained epoch, then `$$END`. The Julian date is 2451545.0 + t/86400.
- OEM file: shaped like the Orbit Ephemeris Message of CCSDS 502.0-B (Orbit Data Messages). It has a header, a metadata block whose START_TIME and STOP_TIME are the first and last retained epochs, and one seven-field line per retained epoch.

Modules:

- `Wrappers`: Option.
- `FluxParser`: tokenizer and parse-or-skip scan.
- `Shielding`: the numeric pipeline and the design decision.
- `Decimation`: `s[::k]`.
- `Frames`: frame composition and Julian date.
- `TextFields`: splitting and joining text fields, for stating line structure.
- `Series`: the epochs and states columns of the history.
- `SpenvisExport` and `OemExport`: the two writers.

External behaviour enters as parameters:

- number parsing (`parse`, Python's `float()`);
- the low-energy range formula;
- the SPICE ephemeris query;
- the fixed-decimal and timestamp renderings;
- the creation date (the run-time clock).

A file is modelled as its sequence of lines: `None` stands for a missing input file, and the writers return the lines they write. The scan loop, the density loop and both exporters' data loops are methods with loops, each proved equal to a specification function. The vectorised column steps are functions.

## Model

| member | source | states |
|---|---|---|
| FluxParser.Tokens | calculate_thickness.py:21-24 | every token kept from a line is non-empty and free of commas and whitespace |
| FluxParser.TokensConcatenate | calculate_thickness.py:21-24 | the tokens, concatenated in order, are exactly the line's characters with every delimiter removed: nothing reordered, nothing but delimiters lost |
| FluxParser.TokensOfInterleave | calculate_thickness.py:21-24 | a line laid out as tokens separated by any non-empty runs of commas and whitespace, with any such padding at either end, tokenises back to exactly those tokens (round trip) |
| FluxParser.LayoutOf | calculate_thickness.py:21-24 | every line is its tokens interleaved with a layout of delimiter runs (inner runs non-empty), so TokensOfInterleave and LineOfColumns apply to every line as read |
| FluxParser.ParseLine | calculate_thickness.py:26-37 | defines the row a line yields: its first two tokens when both parse, else none; its behaviour is stated by LineOfColumns |
| FluxParser.LineOfColumns | calculate_thickness.py:21-37 | for a line of any layout (commas, spaces, tabs, runs of them, padding): a line of fewer than two tokens yields no row; otherwise it yields (parse(tok0), parse(tok1)) exactly when both parse, and nothing when either fails; later columns are ignored |
| FluxParser.ParsedRows | calculate_thickness.py:19-37 | defines the rows kept from the lines, in line order; its properties are the three lemmas below and ScanLines |
| FluxParser.ParsedRowsAtMostLines | calculate_thickness.py:19-37 | each line yields at most one row, so there are never more rows than lines |
| FluxParser.ParsedRowsAppend | calculate_thickness.py:19-37 | the rows of two consecutive blocks of lines are the first block's rows followed by the second's (line order kept) |
| FluxParser.ParsedRowsMembers | calculate_thickness.py:19-37 | a row is kept if and only if some line parses to it |
| FluxParser.ScanLines | calculate_thickness.py:19-37 | the scan loop appends exactly the rows of the specification, in line order |
| Shielding.Filter | calculate_thickness.py:59 | a boolean-mask selection keeps exactly the elements satisfying the mask, and no more than there were |
| Shielding.FilterAppend | calculate_thickness.py:59 | selection distributes over concatenation, so the kept rows stay in their original order |
| Shielding.FilterHead | calculate_thickness.py:90 | the first selected element is the first element of the input that satisfies the mask |
| Shielding.FilterFilter | calculate_thickness.py:85-90 | selecting with p, then with q, is selecting with p and q together |
| Shielding.WithFluence | calculate_thickness.py:55 | defines the ElectronFluence column, flux x mission seconds per row; stated by RecordTracesToRow and RelevantRowHasRecord |
| Shielding.TableOf | calculate_thickness.py:55-80 | defines target_data: the rows with fluence, filtered to energy >= 0.04, with density and thickness columns; stated by RecordTracesToRow and RelevantRowHasRecord |
| Shielding.ArealDensity | calculate_thickness.py:64-75 | defines Weber's two-regime range rule; stated by ArealDensityRegimes |
| Shielding.ThicknessMm | calculate_thickness.py:80 | defines the conversion of areal density to millimetres of aluminium; stated by ThicknessConversion |
| Shielding.ArealDensityRegimes | calculate_thickness.py:64-75 | for E >= 2.5 MeV the density is 0.530 E - 0.106 (at least 1.219, continuing from 1.219 at the boundary); for 0 < E < 2.5 it is the low-energy formula; for E <= 0 it is 0 |
| Shielding.ThicknessConversion | calculate_thickness.py:80 | density / 2.70 x 10 is undone by x 2.70 / 10 and preserves order in both directions |
| Shielding.RequiredDensities | calculate_thickness.py:63-77 | the loop produces one density per filtered row, in order, each given by the range rule |
| Shielding.MaxEnergy | calculate_thickness.py:88 | the maximum energy is attained by some record and bounds every record |
| Shielding.MaxEnergyAttained | calculate_thickness.py:88-90 | selecting the hazardous records at the maximum energy never leaves an empty frame, so `.values[0]` exists |
| Shielding.SelectDesign | calculate_thickness.py:85-94 | defines the hazard rule; stated by SelectDesignSpec |
| Shielding.SelectDesignSpec | calculate_thickness.py:85-94 | with no hazardous record the design is 2.0 mm at 0.5 MeV; otherwise its energy bounds every hazardous energy, and it is the energy and thickness of a hazardous record with no earlier hazardous record of that energy |
| Shielding.ShieldingResult | calculate_thickness.py:39-97 | defines the whole outcome after the file is read: the two aborts, else the table, the design and the recommendation; stated by CalculateShielding, AbortsReturnZero, FinalThicknessRule and NonPositiveDurationFallsBack |
| Shielding.ReturnValue | calculate_thickness.py:39-48 | defines what the caller receives: 0.0 on either abort, nothing on success (the function falls off its end after printing); stated by AbortsReturnZero |
| Shielding.CalculateShielding | calculate_thickness.py:6-97 | the method's outcome is the specification's: aborted for a missing file or no rows, else the table, the design and design x 1.2 |
| Shielding.AbortsReturnZero | calculate_thickness.py:39-48 | the function aborts if and only if the file is missing or yields no rows, and then returns 0.0 |
| Shielding.RecordTracesToRow | calculate_thickness.py:55-80 | every table record has energy >= 0.04 MeV, the range rule's density and its thickness, and comes from a parsed row with the same energy and flux and fluence = flux x days x 86400 |
| Shielding.RelevantRowHasRecord | calculate_thickness.py:55-59 | every parsed row with energy >= 0.04 MeV (0.04 included) has a record carrying its energy, its flux and fluence flux x days x 86400 |
| Shielding.FinalThicknessRule | calculate_thickness.py:85-97 | the recommendation is design x 1.2; with nothing hazardous it is 2.4 mm at 0.5 MeV, otherwise 1.2 x the thickness of a hazardous record whose energy is reported |
| Shielding.NonPositiveDurationFallsBack | calculate_thickness.py:55-97 | with the file present, at least one parsed row, zero or negative days and non-negative fluxes, the function completes: no record is hazardous, the design is the fallback 2.0 mm at 0.5 MeV and the recommendation is 2.4 mm |
| Decimation.Decimate | spacecraft_trajectory_propagator.py:169-170 | an empty series gives nothing; otherwise the first element is kept and the count m satisfies (m-1)k < N <= mk |
| Decimation.DecimateAt | spacecraft_trajectory_propagator.py:169-170 | the i-th retained element is the element at index i x k |
| Decimation.DecimateLength | spacecraft_trajectory_propagator.py:169-170 | N elements decimated with stride k leave ceil(N / k) |
| Decimation.DecimateMembers | spacecraft_trajectory_propagator.py:246-247 | an element is retained if and only if it sits at an index that is a multiple of the stride |
| Decimation.DecimateAscending | spacecraft_trajectory_propagator.py:169-170 | a strictly increasing series of epochs stays strictly increasing: no reordering, no duplicates |
| Decimation.DecimateColumn | spacecraft_trajectory_propagator.py:169-170 | decimating a column of a series is taking that column of the decimated series |
| Decimation.DecimateEnds | spacecraft_trajectory_propagator.py:266-267 | the first retained element is the first sample; the last is the sample at the largest multiple of the stride below the length |
| Series.DecimatedColumnsPaired | spacecraft_trajectory_propagator.py:164-177 | times and states decimated separately stay paired: the i-th retained state belongs to the i-th retained epoch |
| Frames.Compose | spacecraft_trajectory_propagator.py:192-194 | defines the composition of a state relative to Ganymede with Ganymede's state relative to Jupiter, in km and km/s; stated by ComposeRecoversSpacecraft and ComposeIsTranslation |
| Frames.ComposeRecoversSpacecraft | spacecraft_trajectory_propagator.py:192-194 | every component of the composed state, scaled back to metres minus the primary's component, is the spacecraft's own component |
| Frames.ComposeIsTranslation | spacecraft_trajectory_propagator.py:287-294 | composition translates by the primary's state: differences between spacecraft states are kept, scaled to km |
| Frames.JulianDateOrderAndInverse | spacecraft_trajectory_propagator.py:161-180 | the Julian date is strictly increasing in the epoch, is inverted by (jd - 2451545) x 86400, and is 2451545.0 at epoch 0 |
| Frames.JulianDate | spacecraft_trajectory_propagator.py:180 | defines the Julian date of an epoch in seconds from J2000; stated by JulianDateOrderAndInverse |
| TextFields.SplitJoin | spacecraft_trajectory_propagator.py:197 | fields free of the separator, joined with it, split back into the same fields |
| TextFields.FileHoldsLines | spacecraft_trajectory_propagator.py:213-215 | writing lines each followed by a newline gives a text whose newline-separated pieces are the lines and a final empty piece, when no line holds a newline |
| SpenvisExport.RecordLine | spacecraft_trajectory_propagator.py:180-197 | defines one record line: the Julian date and the composed X, Y, Z, comma-separated; stated by RecordLineFields |
| SpenvisExport.RecordLineFields | spacecraft_trajectory_propagator.py:180-197 | a record line has exactly four comma-separated fields: Julian date, X, Y and Z of the composed position |
| SpenvisExport.RecordLines | spacecraft_trajectory_propagator.py:174-198 | the data loop makes one record per retained epoch, in order, with the ephemeris queried at that very epoch |
| SpenvisExport.RecordSingleLine | spacecraft_trajectory_propagator.py:197 | a record line holds no newline when the number formats produce none |
| SpenvisExport.RecordsText | spacecraft_trajectory_propagator.py:212-215 | the text written for the records, one line plus newline each, splits back at newlines into exactly the records |
| SpenvisExport.ExportForSpenvis | spacecraft_trajectory_propagator.py:164-215 | the file is the nine-line banner (the constant Banner, lines 203-211), $$BEGIN, one record per sample at a multiple of 6 in order, then $$END |
| OemExport.LastRetainedIndex | spacecraft_trajectory_propagator.py:246-267 | the last retained index is a multiple of 30 that lies within the last 30 samples |
| OemExport.Preamble | spacecraft_trajectory_propagator.py:253-264 | defines the ten header and metadata lines written before the series is indexed; stated by Header and ExportToCcsdsOem |
| OemExport.DataLine | spacecraft_trajectory_propagator.py:286-299 | defines one data line: timestamp, position and velocity fields, space-separated; stated by DataLineFields |
| OemExport.DataLineFields | spacecraft_trajectory_propagator.py:286-299 | a data line has exactly seven space-separated fields: the timestamp, three positions and three velocities |
| OemExport.DataLines | spacecraft_trajectory_propagator.py:274-299 | the data loop makes one line per retained epoch, in order, with the ephemeris queried at that very epoch |
| OemExport.DataSingleLine | spacecraft_trajectory_propagator.py:299 | a data line holds no newline when the renderings produce none |
| OemExport.DataText | spacecraft_trajectory_propagator.py:274-299 | the text written for the data lines, one line plus newline each, splits back at newlines into exactly the data lines |
| OemExport.Header | spacecraft_trajectory_propagator.py:253-271 | the header has fourteen lines and begins with the ten preamble lines |
| OemExport.CoveredSpan | spacecraft_trajectory_propagator.py:266-267 | the retained epochs run from the first sample's epoch to the last retained sample's |
| OemExport.ExportToCcsdsOem | spacecraft_trajectory_propagator.py:238-299 | for an empty history the writer stops with IndexError after the ten header lines; otherwise the file is the header, START_TIME of the first epoch, STOP_TIME of the last retained one, META_STOP, a blank line, then one data line per sample at a multiple of 30 |

## Left out

- `run_ganymede_simulation` (the numerical propagation through tudatpy) is not part of this model. Its result is taken as a given sequence of (epoch, six-component state) samples, in the order of the history's keys.
- The SPICE ephemeris query is a parameter (`ephemeris`). The model assumes that it returns a six-component state and does not fail.
- Python's `float()` is a parameter (`parse`). Which strings parse (exponents, `nan`, `inf`, underscores) is not modelled. NaN and infinities have no counterpart in Dafny's reals.
- The low-energy range formula `0.412 E^(1.265 - 0.0954 ln E)` is a parameter (`lowEnergyRange`). Its near-continuity with the linear rule at 2.5 MeV is a floating-point tolerance claim and is not stated.
- Floating-point rounding: all arithmetic is over exact reals. The 10^9 threshold, the 0.04 cut-off and the 2.5 boundary are exact comparisons.
- Fixed-decimal number formatting (`:.9f`, `:.6f`, `:.5f`), the `datetime`/`timedelta`/`strftime` timestamp rendering and `datetime.now()` are parameters. The field-count lemmas assume that these renderings produce no separator character.
- File I/O: reading a file is modelled as its sequence of lines (`None` for a missing file), and writing as the returned sequence of lines. I/O errors other than a missing input file are not modelled.
- The default arguments (`data_file="spenvis_sao.txt"`, `mission_duration_days=30`, and the two `output_filename` defaults) are not modelled: the model's operations take the file's lines and the duration as explicit parameters, and return the written lines instead of naming a file.
- The newline-freedom of the fixed banner and header lines is not stated; the file-text lemmas cover the data lines the loops write.
- `print` diagnostics, the pandas DataFrame container and the matplotlib plot are presentation only. The plot file is not modelled.
- The mission duration is not validated by the code, and the model follows the code: zero or negative durations are accepted (see `Shielding.NonPositiveDurationFallsBack`).
- Shielding.CalculateShielding: on success the Python function returns `None` and only prints the figures. The model returns the computed table, design and recommendation so that they can be stated; `Shielding.ReturnValue` gives what the caller actually receives.
- OemExport.ExportToCcsdsOem: on an empty history the Python code raises IndexError with the partially written file left behind. The model returns that partial content as `IndexError(lines)` instead of raising.

## Notes on the source

- The comment above the energy filter says "> 0.04 MeV", but the code keeps `>= 0.04`. The model follows the code, so 0.04 MeV itself is kept.
- The OEM metadata declares `TIME_SYSTEM = UTC`, but the epochs are seconds from J2000 in ephemeris time, rendered from a naive 2000-01-01T12:00:00 base. The model reproduces the text as written.
