/**
 * The config loader (ReadArchiveConfig): every line of archivedata.txt that is
 * not empty and does not start with '*' becomes one record, the line split on
 * '|' with empty fields kept.
 */
module Config {
  import opened Wrappers

  const COMMENT_MARKER: char := '*'
  const FIELD_SEPARATOR: char := '|'

  /** A line describes a rule unless it is empty or a comment. */
  predicate IsRuleLine(line: string) {
    line != [] && line[0] != COMMENT_MARKER
  }

  /** The rule lines of the file, in file order. */
  function KeptLines(lines: seq<string>): seq<string>
    decreases |lines|
  {
    if lines == [] then []
    else
      var last := lines[|lines| - 1];
      KeptLines(lines[..|lines| - 1]) + (if IsRuleLine(last) then [last] else [])
  }

  /** String.Split with one separator character and no options: empty fields are kept. */
  function Split(s: string, sep: char): (fields: seq<string>)
    ensures |fields| >= 1
    ensures forall i :: 0 <= i < |fields| ==> sep !in fields[i]
    decreases |s|
  {
    if s == [] then [[]]
    else
      var rest := Split(s[1..], sep);
      if s[0] == sep then [[]] + rest
      else [[s[0]] + rest[0]] + rest[1..]
  }

  /** The fields put back together with the separator between them. */
  function Join(fields: seq<string>, sep: char): string
    requires |fields| >= 1
    decreases |fields|
  {
    if |fields| == 1 then fields[0]
    else fields[0] + [sep] + Join(fields[1..], sep)
  }

  /** How often `c` occurs in `s`. */
  function Occurrences(s: string, c: char): nat
    decreases |s|
  {
    if s == [] then 0
    else (if s[0] == c then 1 else 0) + Occurrences(s[1..], c)
  }

  /**
   * The records the loader returns for what File.ReadAllLines gave, or for a
   * file that could not be read: one record per rule line, in file order,
   * each the fields that join back into that line.
   */
  function Records(contents: Option<seq<string>>): (records: seq<seq<string>>)
    ensures contents.None? ==> records == []
    ensures contents.Some? ==> |records| == |KeptLines(contents.value)|
    ensures contents.Some? ==> forall k :: 0 <= k < |records| ==>
      |records[k]| >= 1 && Join(records[k], FIELD_SEPARATOR) == KeptLines(contents.value)[k]
  {
    match contents
    case None => []
    case Some(lines) =>
      var kept := KeptLines(lines);
      SplitJoinEach(kept, FIELD_SEPARATOR);
      seq(|kept|, k requires 0 <= k < |kept| => Split(kept[k], FIELD_SEPARATOR))
  }

  /**
   * ReadArchiveConfig. `contents` is what File.ReadAllLines returned, or None
   * when reading the file threw (the exception is logged and the list stays empty).
   */
  method ReadArchiveConfig(contents: Option<seq<string>>) returns (list: seq<seq<string>>)
    ensures list == Records(contents)
  {
    list := [];
    if contents.None? {
      return;
    }
    var lines := contents.value;
    for i := 0 to |lines|
      invariant |list| == |KeptLines(lines[..i])|
      invariant forall k :: 0 <= k < |list| ==> list[k] == Split(KeptLines(lines[..i])[k], FIELD_SEPARATOR)
    {
      assert lines[..i + 1][..i] == lines[..i];
      var line := lines[i];
      if IsRuleLine(line) {
        list := list + [Split(line, FIELD_SEPARATOR)];
      }
    }
    assert lines[..|lines|] == lines;
  }

  /** SplitJoin for every line of a list. */
  lemma SplitJoinEach(lines: seq<string>, sep: char)
    ensures forall k :: 0 <= k < |lines| ==> Join(Split(lines[k], sep), sep) == lines[k]
  {
    forall k | 0 <= k < |lines|
      ensures Join(Split(lines[k], sep), sep) == lines[k]
    {
      SplitJoin(lines[k], sep);
    }
  }

  /** A line is kept exactly when it occurs in the file and is a rule line. */
  lemma {:induction false} KeptLinesMembers(lines: seq<string>, line: string)
    ensures line in KeptLines(lines) <==> line in lines && IsRuleLine(line)
    decreases |lines|
  {
    if lines != [] {
      var init := lines[..|lines| - 1];
      KeptLinesMembers(init, line);
      assert lines == init + [lines[|lines| - 1]];
    }
  }

  /** Filtering keeps file order: the rule lines of a concatenation are the concatenation of the rule lines. */
  lemma {:induction false} KeptLinesAppend(a: seq<string>, b: seq<string>)
    ensures KeptLines(a + b) == KeptLines(a) + KeptLines(b)
    decreases |b|
  {
    if b == [] {
      assert a + b == a;
    } else {
      var init := b[..|b| - 1];
      var last := b[|b| - 1];
      assert (a + b)[..|a + b| - 1] == a + init;
      assert (a + b)[|a + b| - 1] == last;
      KeptLinesAppend(a, init);
    }
  }

  /** A single line is kept exactly when it is a rule line. */
  lemma KeptLinesSingle(line: string)
    ensures KeptLines([line]) == if IsRuleLine(line) then [line] else []
  {
    assert [line][..0] == [];
  }

  /** Putting the split fields back together with '|' gives the line back. */
  lemma {:induction false} SplitJoin(s: string, sep: char)
    ensures Join(Split(s, sep), sep) == s
    decreases |s|
  {
    if s != [] {
      var rest := Split(s[1..], sep);
      SplitJoin(s[1..], sep);
      if s[0] == sep {
        assert ([[]] + rest)[1..] == rest;
        assert s == [sep] + s[1..];
      } else {
        var fields := [[s[0]] + rest[0]] + rest[1..];
        if |rest| == 1 {
          assert fields == [[s[0]] + rest[0]];
          assert s == [s[0]] + s[1..];
        } else {
          assert fields[1..] == rest[1..];
          assert Join(rest, sep) == rest[0] + [sep] + Join(rest[1..], sep);
          assert s == [s[0]] + s[1..];
        }
      }
    }
  }

  /** A line with n separators splits into n + 1 fields. */
  lemma {:induction false} SplitCount(s: string, sep: char)
    ensures |Split(s, sep)| == Occurrences(s, sep) + 1
    decreases |s|
  {
    if s != [] {
      SplitCount(s[1..], sep);
    }
  }

  /** A field without separators followed by a separator splits off as one field. */
  lemma {:induction false} SplitField(f: string, sep: char, rest: string)
    requires sep !in f
    ensures Split(f + [sep] + rest, sep) == [f] + Split(rest, sep)
    ensures Split(f, sep) == [f]
    decreases |f|
  {
    if f != [] {
      SplitField(f[1..], sep, rest);
      assert (f + [sep] + rest)[1..] == f[1..] + [sep] + rest;
      assert [f[0]] + f[1..] == f;
    } else {
      assert f + [sep] + rest == [sep] + rest;
    }
  }

  /** Splitting what Join produced gives the fields back, provided no field holds the separator. */
  lemma {:induction false} JoinSplit(fields: seq<string>, sep: char)
    requires |fields| >= 1
    requires forall i :: 0 <= i < |fields| ==> sep !in fields[i]
    ensures Split(Join(fields, sep), sep) == fields
    decreases |fields|
  {
    if |fields| == 1 {
      SplitField(fields[0], sep, []);
    } else {
      JoinSplit(fields[1..], sep);
      SplitField(fields[0], sep, Join(fields[1..], sep));
      assert [fields[0]] + fields[1..] == fields;
    }
  }
}
