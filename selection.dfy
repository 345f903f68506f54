/**
 * Candidate selection: the LINQ Where over the folder listing. A file is a
 * candidate when its last-write date is at most today + Daterange and it was
 * last written more than five minutes ago.
 */
module Selection {
  import opened FileSystems
  import Cadence

  const DEBOUNCE_MINUTES: int := 5

  /** One FileInfo of the listing: where it is and its LastWriteTime, in minutes. */
  datatype Listed = Listed(path: Path, lastWrite: int)

  /** DateTime.Date, as a day number: the instant with its time of day dropped. */
  function Date(minute: int): (day: int)
    ensures Cadence.MINUTES_PER_DAY * day <= minute < Cadence.MINUTES_PER_DAY * (day + 1)
  {
    minute / Cadence.MINUTES_PER_DAY
  }

  predicate IsCandidate(f: Listed, now: int, dateRange: int) {
    Date(f.lastWrite) <= Date(now) + dateRange && f.lastWrite < now - DEBOUNCE_MINUTES
  }

  /** The Where clause, keeping the listing's order. */
  function SelectCandidates(listing: seq<Listed>, now: int, dateRange: int): (r: seq<Listed>)
    ensures |r| <= |listing|
    ensures forall i :: 0 <= i < |r| ==> IsCandidate(r[i], now, dateRange)
    decreases |listing|
  {
    if listing == [] then []
    else
      var last := listing[|listing| - 1];
      SelectCandidates(listing[..|listing| - 1], now, dateRange) +
        (if IsCandidate(last, now, dateRange) then [last] else [])
  }

  /** The FileInfo.FullName of each file. */
  function Paths(files: seq<Listed>): (r: seq<Path>)
    ensures |r| == |files|
    ensures forall i :: 0 <= i < |files| ==> r[i] == files[i].path
  {
    seq(|files|, i requires 0 <= i < |files| => files[i].path)
  }

  /** A listed file is selected exactly when it is a candidate. */
  lemma {:induction false} SelectMembers(listing: seq<Listed>, now: int, dateRange: int, f: Listed)
    ensures f in SelectCandidates(listing, now, dateRange) <==> f in listing && IsCandidate(f, now, dateRange)
    decreases |listing|
  {
    if listing != [] {
      var init := listing[..|listing| - 1];
      SelectMembers(init, now, dateRange, f);
      assert listing == init + [listing[|listing| - 1]];
    }
  }

  /** A path is handed to the archiver exactly when some listed candidate file has it. */
  lemma SelectedPaths(listing: seq<Listed>, now: int, dateRange: int, p: Path)
    ensures p in Paths(SelectCandidates(listing, now, dateRange)) <==>
      exists f :: f in listing && f.path == p && IsCandidate(f, now, dateRange)
  {
    var r := SelectCandidates(listing, now, dateRange);
    if p in Paths(r) {
      var i :| 0 <= i < |r| && Paths(r)[i] == p;
      SelectMembers(listing, now, dateRange, r[i]);
    }
    if exists f :: f in listing && f.path == p && IsCandidate(f, now, dateRange) {
      var f :| f in listing && f.path == p && IsCandidate(f, now, dateRange);
      SelectMembers(listing, now, dateRange, f);
      var i :| 0 <= i < |r| && r[i] == f;
      assert Paths(r)[i] == p;
    }
  }

  /** Selection keeps the listing's order: it distributes over concatenation. */
  lemma {:induction false} SelectAppend(a: seq<Listed>, b: seq<Listed>, now: int, dateRange: int)
    ensures SelectCandidates(a + b, now, dateRange) == SelectCandidates(a, now, dateRange) + SelectCandidates(b, now, dateRange)
    decreases |b|
  {
    if b == [] {
      assert a + b == a;
    } else {
      var init := b[..|b| - 1];
      assert (a + b)[..|a + b| - 1] == a + init;
      assert (a + b)[|a + b| - 1] == b[|b| - 1];
      SelectAppend(a, init, now, dateRange);
    }
  }

  /** With a Daterange of zero or more, the date condition adds nothing to the five-minute condition. */
  lemma DebounceImpliesDate(f: Listed, now: int, dateRange: int)
    requires dateRange >= 0
    ensures IsCandidate(f, now, dateRange) <==> f.lastWrite < now - DEBOUNCE_MINUTES
  {
    if f.lastWrite < now - DEBOUNCE_MINUTES {
      DateMonotonic(f.lastWrite, now);
    }
  }

  lemma DateMonotonic(a: int, b: int)
    requires a <= b
    ensures Date(a) <= Date(b)
  {
    var n := Cadence.MINUTES_PER_DAY;
    var qa, qb := a / n, b / n;
    assert a == n * qa + a % n;
    assert b == n * qb + b % n;
    Cadence.MulBounds(n, qa - qb);
  }
}
