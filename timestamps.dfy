/**
 * Archive naming: DateTime.Now.ToString("yyyyMMddHHmmss") appended to the
 * rule's zip name, and String.Substring as used by the relocation step.
 */
module Timestamps {
  import opened Wrappers

  const ARCHIVE_EXTENSION: string := ".zip"
  const STAMP_LENGTH: nat := 14

  /** The calendar fields of one reading of the clock. */
  datatype Timestamp = Timestamp(year: nat, month: nat, day: nat, hour: nat, minute: nat, second: nat)

  /** The ranges a DateTime keeps its fields in. */
  predicate Valid(t: Timestamp) {
    1 <= t.year <= 9999 && 1 <= t.month <= 12 && 1 <= t.day <= 31 &&
    t.hour < 24 && t.minute < 60 && t.second < 60
  }

  function Pow10(n: nat): nat {
    if n == 0 then 1 else 10 * Pow10(n - 1)
  }

  predicate IsDigit(c: char) {
    '0' <= c <= '9'
  }

  predicate AllDigits(s: string) {
    forall i :: 0 <= i < |s| ==> IsDigit(s[i])
  }

  function DigitChar(d: nat): char
    requires d < 10
  {
    ('0' as int + d) as char
  }

  function DigitValue(c: char): nat
    requires IsDigit(c)
  {
    c as int - '0' as int
  }

  /** n zero-padded to `width` decimal digits (the custom format specifiers yyyy, MM, dd, HH, mm, ss). */
  function Digits(n: nat, width: nat): (s: string)
    ensures |s| == width
    ensures AllDigits(s)
    decreases width
  {
    if width == 0 then [] else Digits(n / 10, width - 1) + [DigitChar(n % 10)]
  }

  /** The number a string of decimal digits denotes. */
  function Value(s: string): nat
    requires AllDigits(s)
    decreases |s|
  {
    if s == [] then 0 else Value(s[..|s| - 1]) * 10 + DigitValue(s[|s| - 1])
  }

  /** A number below 10^width reads back from its padded digits. */
  lemma {:induction false} DigitsValue(n: nat, width: nat)
    requires n < Pow10(width)
    ensures Value(Digits(n, width)) == n
    decreases width
  {
    if width > 0 {
      DigitsValue(n / 10, width - 1);
      var s := Digits(n, width);
      assert s[..|s| - 1] == Digits(n / 10, width - 1);
    }
  }

  /** DateTime.ToString("yyyyMMddHHmmss"). */
  function Format(t: Timestamp): (s: string)
    ensures |s| == STAMP_LENGTH
    ensures AllDigits(s)
  {
    Digits(t.year, 4) + Digits(t.month, 2) + Digits(t.day, 2) +
    Digits(t.hour, 2) + Digits(t.minute, 2) + Digits(t.second, 2)
  }

  /** Reads the six fields back from a 14-digit stamp. */
  function Parse(s: string): Option<Timestamp> {
    if |s| != STAMP_LENGTH || !AllDigits(s) then None
    else Some(Timestamp(Value(s[0..4]), Value(s[4..6]), Value(s[6..8]),
                        Value(s[8..10]), Value(s[10..12]), Value(s[12..14])))
  }

  /** A slice that lies inside the left operand of a concatenation. */
  lemma SliceLeft(a: string, b: string, i: nat, j: nat)
    requires i <= j <= |a|
    ensures (a + b)[i..j] == a[i..j]
  {
    assert forall k | 0 <= k < j - i :: (a + b)[i..j][k] == a[i..j][k];
  }

  /** The right operand of a concatenation, sliced back out. */
  lemma SliceRight(a: string, b: string)
    ensures (a + b)[|a|..|a| + |b|] == b
  {
    assert forall k | 0 <= k < |b| :: (a + b)[|a|..|a| + |b|][k] == b[k];
  }

  /** The stamp of a valid reading of the clock identifies it. */
  lemma ParseFormat(t: Timestamp)
    requires Valid(t)
    ensures Parse(Format(t)) == Some(t)
  {
    var y, mo, d := Digits(t.year, 4), Digits(t.month, 2), Digits(t.day, 2);
    var h, mi, se := Digits(t.hour, 2), Digits(t.minute, 2), Digits(t.second, 2);
    var p2 := y + mo;
    var p3 := p2 + d;
    var p4 := p3 + h;
    var p5 := p4 + mi;
    var s := p5 + se;
    assert s == Format(t);
    SliceRight(p5, se);
    SliceLeft(p5, se, 10, 12);
    SliceRight(p4, mi);
    SliceLeft(p5, se, 8, 10);
    SliceLeft(p4, mi, 8, 10);
    SliceRight(p3, h);
    SliceLeft(p5, se, 6, 8);
    SliceLeft(p4, mi, 6, 8);
    SliceLeft(p3, h, 6, 8);
    SliceRight(p2, d);
    SliceLeft(p5, se, 4, 6);
    SliceLeft(p4, mi, 4, 6);
    SliceLeft(p3, h, 4, 6);
    SliceLeft(p2, d, 4, 6);
    SliceRight(y, mo);
    SliceLeft(p5, se, 0, 4);
    SliceLeft(p4, mi, 0, 4);
    SliceLeft(p3, h, 0, 4);
    SliceLeft(p2, d, 0, 4);
    SliceLeft(y, mo, 0, 4);
    assert y[0..4] == y;
    assert Pow10(2) == 100 && Pow10(4) == 10000 by {
      assert Pow10(1) == 10;
      assert Pow10(3) == 1000;
    }
    DigitsValue(t.year, 4);
    DigitsValue(t.month, 2);
    DigitsValue(t.day, 2);
    DigitsValue(t.hour, 2);
    DigitsValue(t.minute, 2);
    DigitsValue(t.second, 2);
  }

  /** zipname + timestamp: the temporary folder's name (ZipFolder). */
  function ArchiveBaseName(zipName: string, t: Timestamp): string {
    zipName + Format(t)
  }

  /** zipname + timestamp + ".zip": the archive's file name. */
  function ArchiveFileName(zipName: string, t: Timestamp): string {
    ArchiveBaseName(zipName, t) + ARCHIVE_EXTENSION
  }

  /** The temporary folder's name is the zip name followed by the 14-digit stamp of the clock reading. */
  lemma ArchiveBaseNameParts(zipName: string, t: Timestamp)
    requires Valid(t)
    ensures |ArchiveBaseName(zipName, t)| == |zipName| + STAMP_LENGTH
    ensures ArchiveBaseName(zipName, t)[..|zipName|] == zipName
    ensures Parse(ArchiveBaseName(zipName, t)[|zipName|..]) == Some(t)
  {
    assert ArchiveBaseName(zipName, t)[|zipName|..] == Format(t);
    ParseFormat(t);
  }

  /** The archive name is the zip name, the 14-digit stamp of the clock reading, and ".zip". */
  lemma ArchiveFileNameParts(zipName: string, t: Timestamp)
    requires Valid(t)
    ensures |ArchiveFileName(zipName, t)| == |zipName| + 18
    ensures ArchiveFileName(zipName, t)[..|zipName|] == zipName
    ensures Parse(ArchiveFileName(zipName, t)[|zipName|..|zipName| + 14]) == Some(t)
    ensures ArchiveFileName(zipName, t)[|zipName| + 14..] == ARCHIVE_EXTENSION
  {
    var name := ArchiveFileName(zipName, t);
    assert name[|zipName|..|zipName| + 14] == Format(t);
    ParseFormat(t);
  }

  /**
   * ZipFolder reads the clock once for the temporary folder and again for the
   * archive: the folder's name is the archive's name without ".zip" exactly
   * when the two readings agree.
   */
  lemma TempFolderMatchesArchive(zipName: string, t1: Timestamp, t2: Timestamp)
    requires Valid(t1) && Valid(t2)
    ensures ArchiveBaseName(zipName, t1) + ARCHIVE_EXTENSION == ArchiveFileName(zipName, t2) <==> t1 == t2
  {
    if ArchiveBaseName(zipName, t1) + ARCHIVE_EXTENSION == ArchiveFileName(zipName, t2) {
      var a := ArchiveBaseName(zipName, t1) + ARCHIVE_EXTENSION;
      assert a[|zipName|..|zipName| + 14] == Format(t1);
      assert ArchiveFileName(zipName, t2)[|zipName|..|zipName| + 14] == Format(t2);
      ParseFormat(t1);
      ParseFormat(t2);
    }
  }

  /** String.Substring(start): ArgumentOutOfRangeException unless 0 <= start <= length. */
  function Substring(s: string, start: int): (r: Option<string>)
    ensures r.Some? <==> 0 <= start <= |s|
    ensures r.Some? ==> s == s[..start] + r.value
  {
    if 0 <= start <= |s| then Some(s[start..]) else None
  }
}
