/**
 * The lenient scan of an environment data file (calculate_thickness.py, lines 19-41).
 * Every line is cut into tokens at runs of commas and whitespace; a line whose
 * first two tokens are numbers yields one (energy, flux) row, any other line is
 * skipped without error.  Number parsing (Python's float()) is a parameter.
 */
module FluxParser {
  import opened Wrappers

  /** One row of the table: electron energy (MeV) and flux (#/cm2/s). */
  datatype FluxRow = FluxRow(energy: real, flux: real)

  /** The characters matched by the character class `[,\s]`: a comma, or one of the
      characters Python treats as whitespace in a `str` pattern. */
  predicate IsDelimiter(c: char) {
    c == ',' || c == ' ' || '\t' <= c <= '\r' || '\U{1C}' <= c <= '\U{1F}'
    || c == '\U{85}' || c == '\U{A0}' || c == '\U{1680}' || '\U{2000}' <= c <= '\U{200A}'
    || c == '\U{2028}' || c == '\U{2029}' || c == '\U{202F}' || c == '\U{205F}' || c == '\U{3000}'
  }

  /** A token is a non-empty string free of delimiters. */
  predicate IsToken(t: string) {
    |t| > 0 && forall i :: 0 <= i < |t| ==> !IsDelimiter(t[i])
  }

  /** The longest prefix of `s` that holds no delimiter. */
  function Word(s: string): (w: string)
    ensures w <= s
    ensures forall i :: 0 <= i < |w| ==> !IsDelimiter(w[i])
    ensures |w| < |s| ==> IsDelimiter(s[|w|])
  {
    if s == [] || IsDelimiter(s[0]) then [] else [s[0]] + Word(s[1..])
  }

  /** `[p for p in re.split(r'[,\s]+', line.strip()) if p]`: the maximal runs of
      non-delimiters, in order.  Stripping the line first changes nothing, since the
      empty pieces that leading or trailing delimiters would leave are dropped. */
  function Tokens(line: string): (toks: seq<string>)
    ensures forall k :: 0 <= k < |toks| ==> IsToken(toks[k])
    decreases |line|
  {
    if line == [] then []
    else if IsDelimiter(line[0]) then Tokens(line[1..])
    else
      var w := Word(line);
      [w] + Tokens(line[|w|..])
  }

  /** The characters of `s` that are not delimiters, in order. */
  function Squeeze(s: string): string {
    if s == [] then [] else (if IsDelimiter(s[0]) then [] else [s[0]]) + Squeeze(s[1..])
  }

  function Concat(ts: seq<string>): string {
    if ts == [] then [] else ts[0] + Concat(ts[1..])
  }

  lemma {:induction false} SqueezeSplitsAtWord(s: string)
    ensures Squeeze(s) == Word(s) + Squeeze(s[|Word(s)|..])
    decreases |s|
  {
    if s != [] && !IsDelimiter(s[0]) {
      var w1 := Word(s[1..]);
      SqueezeSplitsAtWord(s[1..]);
      assert Word(s) == [s[0]] + w1;
      assert Squeeze(s) == [s[0]] + Squeeze(s[1..]);
      assert s[|Word(s)|..] == s[1..][|w1|..];
    } else {
      assert s[|Word(s)|..] == s;
    }
  }

  /** Tokens keep their order and lose nothing but delimiters. */
  lemma {:induction false} TokensConcatenate(line: string)
    ensures Concat(Tokens(line)) == Squeeze(line)
    decreases |line|
  {
    if line == [] {
    } else if IsDelimiter(line[0]) {
      TokensConcatenate(line[1..]);
    } else {
      var w := Word(line);
      TokensConcatenate(line[|w|..]);
      SqueezeSplitsAtWord(line);
    }
  }

  /** Every character of `d` is a delimiter (`d` may be empty). */
  predicate AllDelimiters(d: string) {
    forall i :: 0 <= i < |d| ==> IsDelimiter(d[i])
  }

  /** A layout of a line with n tokens: n + 1 runs of delimiters around and between
      them.  The outer two may be empty (no leading padding, no trailing newline),
      the inner ones may not, so neighbouring tokens stay apart. */
  predicate IsLayout(seps: seq<string>, n: nat) {
    && |seps| == n + 1
    && (forall i :: 0 <= i < |seps| ==> AllDelimiters(seps[i]))
    && (forall i :: 0 < i < n ==> |seps[i]| > 0)
  }

  /** The line seps[0] + ts[0] + seps[1] + ... + ts[n-1] + seps[n]. */
  function Interleave(seps: seq<string>, ts: seq<string>): string
    requires |seps| == |ts| + 1
    decreases |ts|
  {
    if ts == [] then seps[0] else seps[0] + ts[0] + Interleave(seps[1..], ts[1..])
  }

  /** Leading delimiters contribute no token. */
  lemma {:induction false} TokensAfterDelimiters(d: string, rest: string)
    requires AllDelimiters(d)
    ensures Tokens(d + rest) == Tokens(rest)
    decreases |d|
  {
    if d == [] {
      assert d + rest == rest;
    } else {
      assert (d + rest)[1..] == d[1..] + rest;
      TokensAfterDelimiters(d[1..], rest);
    }
  }

  /** A word runs up to the first delimiter, or to the end of the line. */
  lemma {:induction false} WordOfToken(t: string, rest: string)
    requires forall i :: 0 <= i < |t| ==> !IsDelimiter(t[i])
    requires rest == [] || IsDelimiter(rest[0])
    ensures Word(t + rest) == t
    decreases |t|
  {
    if t == [] {
      assert t + rest == rest;
    } else {
      assert (t + rest)[1..] == t[1..] + rest;
      WordOfToken(t[1..], rest);
    }
  }

  /** A token followed by the end of the line or by a delimiter is the first token. */
  lemma LeadingToken(t: string, rest: string)
    requires IsToken(t)
    requires rest == [] || IsDelimiter(rest[0])
    ensures Tokens(t + rest) == [t] + Tokens(rest)
  {
    WordOfToken(t, rest);
    var line := t + rest;
    assert line[0] == t[0];
    assert line[|t|..] == rest;
  }

  /** A layout without its first run is a layout of the remaining tokens, and the
      line it gives starts with a delimiter unless it is empty. */
  lemma LayoutTail(seps: seq<string>, ts: seq<string>)
    requires IsLayout(seps, |ts|) && |ts| > 0
    ensures IsLayout(seps[1..], |ts| - 1)
    ensures var rest := Interleave(seps[1..], ts[1..]);
      rest == [] || IsDelimiter(rest[0])
  {
    forall i | 0 < i < |ts| - 1
      ensures |seps[1..][i]| > 0
    {
      assert seps[1..][i] == seps[i + 1];
    }
    if |ts| > 1 {
      assert seps[1..][1..] == seps[2..];
      assert ts[1..][1..] == ts[2..];
      assert Interleave(seps[1..], ts[1..]) == seps[1] + ts[1] + Interleave(seps[2..], ts[2..]);
    }
  }

  /** Tokenising a line laid out as tokens separated, and optionally preceded and
      followed, by any runs of commas and whitespace gives the tokens back. */
  lemma {:induction false} TokensOfInterleave(seps: seq<string>, ts: seq<string>)
    requires IsLayout(seps, |ts|)
    requires forall k :: 0 <= k < |ts| ==> IsToken(ts[k])
    ensures Tokens(Interleave(seps, ts)) == ts
    decreases |ts|
  {
    if ts == [] {
      assert seps[0] + [] == seps[0];
      TokensAfterDelimiters(seps[0], []);
    } else {
      var rest := Interleave(seps[1..], ts[1..]);
      LayoutTail(seps, ts);
      TokensOfInterleave(seps[1..], ts[1..]);
      LeadingToken(ts[0], rest);
      assert Interleave(seps, ts) == seps[0] + (ts[0] + rest);
      TokensAfterDelimiters(seps[0], ts[0] + rest);
    }
  }

  /** The layout of any line: the runs of delimiters around and between its tokens.
      Every line is its tokens interleaved with a layout, so what is proved about
      laid-out lines holds of every line. */
  function LayoutOf(line: string): (seps: seq<string>)
    ensures IsLayout(seps, |Tokens(line)|)
    ensures Interleave(seps, Tokens(line)) == line
    ensures line != [] && IsDelimiter(line[0]) ==> |seps[0]| > 0
    decreases |line|
  {
    if line == [] then [[]]
    else if IsDelimiter(line[0]) then
      var s := LayoutOf(line[1..]);
      LeadingRun(line[0], line[1..], s);
      assert line == [line[0]] + line[1..];
      [[line[0]] + s[0]] + s[1..]
    else
      var w := Word(line);
      var s := LayoutOf(line[|w|..]);
      WordThenLayout(w, line[|w|..], s);
      assert line == w + line[|w|..];
      [[]] + s
  }

  /** A leading delimiter joins the first run of the rest's layout. */
  lemma LeadingRun(c: char, rest: string, s: seq<string>)
    requires IsDelimiter(c)
    requires IsLayout(s, |Tokens(rest)|)
    requires Interleave(s, Tokens(rest)) == rest
    ensures IsLayout([[c] + s[0]] + s[1..], |Tokens(rest)|)
    ensures Interleave([[c] + s[0]] + s[1..], Tokens(rest)) == [c] + rest
  {
    var toks := Tokens(rest);
    var seps := [[c] + s[0]] + s[1..];
    assert seps[1..] == s[1..];
    forall i | 0 <= i < |seps|
      ensures AllDelimiters(seps[i])
    {
      if i > 0 { assert seps[i] == s[i]; }
    }
    if toks != [] {
      assert rest == s[0] + toks[0] + Interleave(s[1..], toks[1..]);
    }
  }

  /** A token placed before a laid-out rest, with an empty run before it. */
  lemma WordThenLayout(w: string, rest: string, s: seq<string>)
    requires rest == [] || IsDelimiter(rest[0])
    requires IsLayout(s, |Tokens(rest)|)
    requires Interleave(s, Tokens(rest)) == rest
    requires rest != [] && IsDelimiter(rest[0]) ==> |s[0]| > 0
    ensures IsLayout([[]] + s, |Tokens(rest)| + 1)
    ensures Interleave([[]] + s, [w] + Tokens(rest)) == w + rest
  {
    var toks := [w] + Tokens(rest);
    var seps := [[]] + s;
    assert seps[1..] == s;
    assert toks[1..] == Tokens(rest);
    forall i | 0 < i < |toks|
      ensures |seps[i]| > 0
    {
      assert seps[i] == s[i - 1];
      if i == 1 { assert rest != []; }
    }
    forall i | 0 <= i < |seps|
      ensures AllDelimiters(seps[i])
    {
      if i > 0 { assert seps[i] == s[i - 1]; }
    }
  }

  /** The record a line yields, if any: the first two tokens both parse. */
  function ParseLine(line: string, parse: string -> Option<real>): Option<FluxRow> {
    var parts := Tokens(line);
    if |parts| >= 2 && parse(parts[0]).Some? && parse(parts[1]).Some?
    then Some(FluxRow(parse(parts[0]).value, parse(parts[1]).value))
    else None
  }

  /** Whatever its layout (commas, spaces, tabs, runs of them, padding, the trailing
      newline), a line of two or more columns yields its first two numbers when both
      parse and nothing when either fails, later columns being ignored; a line of
      fewer than two columns yields nothing. */
  lemma LineOfColumns(seps: seq<string>, ts: seq<string>, parse: string -> Option<real>)
    requires IsLayout(seps, |ts|)
    requires forall k :: 0 <= k < |ts| ==> IsToken(ts[k])
    ensures |ts| < 2 ==> ParseLine(Interleave(seps, ts), parse) == None
    ensures |ts| >= 2 ==>
      ParseLine(Interleave(seps, ts), parse) ==
        if parse(ts[0]).Some? && parse(ts[1]).Some?
        then Some(FluxRow(parse(ts[0]).value, parse(ts[1]).value))
        else None
  {
    TokensOfInterleave(seps, ts);
  }

  /** The rows kept from the lines, in line order. */
  function ParsedRows(lines: seq<string>, parse: string -> Option<real>): seq<FluxRow> {
    if lines == [] then []
    else
      var kept := ParsedRows(lines[..|lines| - 1], parse);
      match ParseLine(lines[|lines| - 1], parse)
      case Some(row) => kept + [row]
      case None => kept
  }

  /** A line yields at most one row. */
  lemma {:induction false} ParsedRowsAtMostLines(lines: seq<string>, parse: string -> Option<real>)
    ensures |ParsedRows(lines, parse)| <= |lines|
  {
    if lines != [] {
      ParsedRowsAtMostLines(lines[..|lines| - 1], parse);
    }
  }

  /** Scanning two blocks of lines is scanning each in turn: rows keep line order. */
  lemma {:induction false} ParsedRowsAppend(a: seq<string>, b: seq<string>, parse: string -> Option<real>)
    ensures ParsedRows(a + b, parse) == ParsedRows(a, parse) + ParsedRows(b, parse)
    decreases |b|
  {
    if b == [] {
      assert a + b == a;
    } else {
      assert (a + b)[..|a + b| - 1] == a + b[..|b| - 1];
      ParsedRowsAppend(a, b[..|b| - 1], parse);
    }
  }

  /** A row is kept exactly when some line parses to it. */
  lemma {:induction false} ParsedRowsMembers(lines: seq<string>, parse: string -> Option<real>, row: FluxRow)
    ensures row in ParsedRows(lines, parse) <==>
      exists i :: 0 <= i < |lines| && ParseLine(lines[i], parse) == Some(row)
  {
    if lines != [] {
      var init := lines[..|lines| - 1];
      ParsedRowsMembers(init, parse, row);
      if exists i :: 0 <= i < |lines| && ParseLine(lines[i], parse) == Some(row) {
        var i :| 0 <= i < |lines| && ParseLine(lines[i], parse) == Some(row);
        if i < |lines| - 1 {
          assert init[i] == lines[i];
        }
      }
      if row in ParsedRows(init, parse) {
        var i :| 0 <= i < |init| && ParseLine(init[i], parse) == Some(row);
        assert lines[i] == init[i];
      }
    }
  }

  /** The scan loop of the source: one pass over the lines, appending each row that parses. */
  method ScanLines(lines: seq<string>, parse: string -> Option<real>) returns (validRows: seq<FluxRow>)
    ensures validRows == ParsedRows(lines, parse)
  {
    validRows := [];
    var i := 0;
    while i < |lines|
      invariant 0 <= i <= |lines|
      invariant validRows == ParsedRows(lines[..i], parse)
    {
      var parts := Tokens(lines[i]);
      if |parts| >= 2 {
        var energy := parse(parts[0]);
        var fluxElectron := parse(parts[1]);
        if energy.Some? && fluxElectron.Some? {
          validRows := validRows + [FluxRow(energy.value, fluxElectron.value)];
        }
      }
      assert lines[..i + 1][..i] == lines[..i];
      i := i + 1;
    }
    assert lines[..|lines|] == lines;
  }
}
