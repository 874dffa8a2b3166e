/**
 * Lines and fields of the exported text files: joining fields with a separator,
 * splitting them apart again (Python's str.split with an explicit separator),
 * and a file written as one `line + "\n"` per line.
 */
module TextFields {

  /** sep.join(fields) */
  function JoinWith(fields: seq<string>, sep: char): string {
    if |fields| == 0 then []
    else if |fields| == 1 then fields[0]
    else fields[0] + [sep] + JoinWith(fields[1..], sep)
  }

  /** s.split(sep): never empty, and splitting "" gives [""]. */
  function SplitOn(s: string, sep: char): (parts: seq<string>)
    ensures |parts| >= 1
    ensures forall i :: 0 <= i < |parts| ==> sep !in parts[i]
  {
    if s == [] then [[]]
    else
      var rest := SplitOn(s[1..], sep);
      if s[0] == sep then [[]] + rest
      else [[s[0]] + rest[0]] + rest[1..]
  }

  lemma {:induction false} SplitNoSeparator(f: string, sep: char)
    requires sep !in f
    ensures SplitOn(f, sep) == [f]
  {
    if f != [] {
      SplitNoSeparator(f[1..], sep);
      assert f[0] != sep;
      assert [f[0]] + f[1..] == f;
    }
  }

  lemma {:induction false} SplitAfterField(f: string, rest: string, sep: char)
    requires sep !in f
    ensures SplitOn(f + [sep] + rest, sep) == [f] + SplitOn(rest, sep)
  {
    if f == [] {
      assert (f + [sep] + rest)[1..] == rest;
    } else {
      assert (f + [sep] + rest)[1..] == f[1..] + [sep] + rest;
      SplitAfterField(f[1..], rest, sep);
      assert f[0] != sep;
      assert [f[0]] + f[1..] == f;
    }
  }

  /** Splitting a joined line gives back its fields, provided no field holds the
      separator. */
  lemma {:induction false} SplitJoin(fields: seq<string>, sep: char)
    requires |fields| >= 1
    requires forall i :: 0 <= i < |fields| ==> sep !in fields[i]
    ensures SplitOn(JoinWith(fields, sep), sep) == fields
  {
    if |fields| == 1 {
      SplitNoSeparator(fields[0], sep);
    } else {
      SplitAfterField(fields[0], JoinWith(fields[1..], sep), sep);
      SplitJoin(fields[1..], sep);
    }
  }

  /** Joining fields adds no character but the separator. */
  lemma {:induction false} JoinWithout(fields: seq<string>, sep: char, c: char)
    requires c != sep
    requires forall i :: 0 <= i < |fields| ==> c !in fields[i]
    ensures c !in JoinWith(fields, sep)
  {
    if |fields| > 1 {
      JoinWithout(fields[1..], sep, c);
    }
  }

  /** The text of a file written line by line, each followed by a newline. */
  function FileText(lines: seq<string>): string {
    if lines == [] then [] else lines[0] + "\n" + FileText(lines[1..])
  }

  /** A file written line by line holds exactly those lines: splitting its text at
      newlines gives them back, followed by the empty piece after the last newline. */
  lemma {:induction false} FileHoldsLines(lines: seq<string>)
    requires forall i :: 0 <= i < |lines| ==> '\n' !in lines[i]
    ensures SplitOn(FileText(lines), '\n') == lines + [""]
  {
    if lines != [] {
      SplitAfterField(lines[0], FileText(lines[1..]), '\n');
      FileHoldsLines(lines[1..]);
      assert lines == [lines[0]] + lines[1..];
    }
  }
}
