/**
 * Main: read the configuration, then for each record build the rule, check
 * its cadence, select the candidate files and archive them with ZipFolder
 * when there are more than twenty of them, with ZipFiles otherwise.
 *
 * The rules are processed one after another in file order. An exception in
 * a rule (a malformed record, a missing source folder) leaves the loop, and
 * Main catches and logs it, so no later rule runs.
 */
module Program {
  import opened Wrappers
  import opened FileSystems
  import opened Config
  import opened Rules
  import opened Cadence
  import opened Selection
  import opened Timestamps
  import opened Archiver
  import opened ArchiverProperties

  /** More candidates than this are archived through a temporary folder. */
  const FOLDER_THRESHOLD: int := 20

  datatype Strategy = ByFiles | ByFolder

  /** What processing one record amounts to. */
  datatype RuleOutcome =
    | BadRule(error: RuleError)
    | OffCadence(reported: Int32, actual: nat)
    // new DirectoryInfo(Folder).GetFiles threw: the folder is missing, or its path is empty.
    | ListingFailed
    | Archived(strategy: Strategy, selected: nat, ok: bool)

  /**
   * What the environment supplies to one rule: the clock reading in minutes,
   * the listing GetFiles(Filetype) returns for the rule's folder, and the
   * clock readings the archiving method formats into names.
   */
  datatype RuleInputs = RuleInputs(now: int, listing: seq<Listed>, t1: Timestamp, t2: Timestamp, t3: Timestamp)

  datatype RuleStep = RuleStep(state: FsState, outcome: RuleOutcome)

  datatype Batch = Batch(state: FsState, outcomes: seq<RuleOutcome>)

  /** The outcomes that are exceptions escaping the loop body. */
  predicate Throws(o: RuleOutcome) {
    o.BadRule? || o.ListingFailed?
  }

  predicate Stopped(outcomes: seq<RuleOutcome>) {
    |outcomes| > 0 && Throws(outcomes[|outcomes| - 1])
  }

  /** The files a rule selects: the candidates of the listing, in listing order. */
  function Selected(rule: Rule, inputs: RuleInputs): seq<Path> {
    Paths(SelectCandidates(inputs.listing, inputs.now, rule.dateRange))
  }

  /** The loop body of Main for one record. */
  function RuleRun(s: FsState, rec: seq<string>, parseInt: string -> Option<Int32>, parseDate: string -> Option<int>,
                   inputs: RuleInputs): RuleStep
  {
    match BuildRule(rec, parseInt, parseDate)
    case Failure(e) => RuleStep(s, BadRule(e))
    case Success(rule) =>
      var datediff := DaysBetween(inputs.now, rule.startDate);
      if !RunsToday(datediff, rule.frequency) then
        RuleStep(s, OffCadence(NextRunOffset(datediff, rule.frequency), DaysUntilNextRun(datediff, rule.frequency)))
      else if !IsDirectory(s, rule.folder) then
        RuleStep(s, ListingFailed)
      else
        var files := Selected(rule, inputs);
        if |files| > FOLDER_THRESHOLD then
          var r := ZipFolderRun(s, files, rule.zipFilename, rule.destination, rule.finalPath, inputs.t1, inputs.t2, inputs.t3);
          RuleStep(r.state, Archived(ByFolder, |files|, r.ok))
        else
          var r := ZipFilesRun(s, files, rule.zipFilename, rule.destination, rule.finalPath, inputs.t1, inputs.t2);
          RuleStep(r.state, Archived(ByFiles, |files|, r.ok))
  }

  /**
   * Main's loop over the records, rule k reading env(k): each rule runs on
   * the state the previous one left, and the first exception ends the loop.
   */
  function MainRun(s: FsState, records: seq<seq<string>>, parseInt: string -> Option<Int32>,
                   parseDate: string -> Option<int>, env: nat -> RuleInputs): (r: Batch)
    ensures |r.outcomes| <= |records|
    ensures forall i :: 0 <= i < |r.outcomes| - 1 ==> !Throws(r.outcomes[i])
    ensures |r.outcomes| < |records| ==> Stopped(r.outcomes)
    decreases |records|
  {
    if records == [] then Batch(s, [])
    else
      var prev := MainRun(s, records[..|records| - 1], parseInt, parseDate, env);
      if Stopped(prev.outcomes) then prev
      else
        var step := RuleRun(prev.state, records[|records| - 1], parseInt, parseDate, env(|records| - 1));
        Batch(step.state, prev.outcomes + [step.outcome])
  }

  /** One record: the loop body of Main, on the filesystem in place. */
  method ProcessRule(fs: FileSystem, rec: seq<string>, parseInt: string -> Option<Int32>,
                     parseDate: string -> Option<int>, inputs: RuleInputs) returns (outcome: RuleOutcome)
    modifies fs
    ensures RuleStep(fs.State(), outcome) == RuleRun(old(fs.State()), rec, parseInt, parseDate, inputs)
  {
    var built := BuildRule(rec, parseInt, parseDate);
    if built.Failure? {
      return BadRule(built.error);
    }
    var rule := built.value;
    var datediff := DaysBetween(inputs.now, rule.startDate);
    if !RunsToday(datediff, rule.frequency) {
      return OffCadence(NextRunOffset(datediff, rule.frequency), DaysUntilNextRun(datediff, rule.frequency));
    }
    if !fs.DirectoryExists(rule.folder) {
      return ListingFailed;
    }
    var files := Selected(rule, inputs);
    var ok: bool;
    if |files| > FOLDER_THRESHOLD {
      ok := ZipFolder(fs, files, rule.zipFilename, rule.destination, rule.finalPath, inputs.t1, inputs.t2, inputs.t3);
      outcome := Archived(ByFolder, |files|, ok);
    } else {
      ok := ZipFiles(fs, files, rule.zipFilename, rule.destination, rule.finalPath, inputs.t1, inputs.t2);
      outcome := Archived(ByFiles, |files|, ok);
    }
  }

  /** Main: read the configuration and process its records in order until one throws. */
  method ArchiveAll(fs: FileSystem, contents: Option<seq<string>>, parseInt: string -> Option<Int32>,
                    parseDate: string -> Option<int>, env: nat -> RuleInputs) returns (outcomes: seq<RuleOutcome>)
    modifies fs
    ensures Batch(fs.State(), outcomes) == MainRun(old(fs.State()), Records(contents), parseInt, parseDate, env)
  {
    var list := ReadArchiveConfig(contents);
    outcomes := ProcessRecords(fs, list, parseInt, parseDate, env);
  }

  /** The Parallel.ForEach over the records, in list order, left by the first exception. */
  method ProcessRecords(fs: FileSystem, list: seq<seq<string>>, parseInt: string -> Option<Int32>,
                        parseDate: string -> Option<int>, env: nat -> RuleInputs) returns (outcomes: seq<RuleOutcome>)
    modifies fs
    ensures Batch(fs.State(), outcomes) == MainRun(old(fs.State()), list, parseInt, parseDate, env)
  {
    ghost var start := fs.State();
    outcomes := [];
    var i := 0;
    while i < |list| && !Stopped(outcomes)
      invariant 0 <= i <= |list|
      invariant Batch(fs.State(), outcomes) == MainRun(start, list[..i], parseInt, parseDate, env)
    {
      assert list[..i + 1][..i] == list[..i];
      var o := ProcessRule(fs, list[i], parseInt, parseDate, env(i));
      outcomes := outcomes + [o];
      i := i + 1;
    }
    if i < |list| {
      MainRunStaysStopped(start, list, i, parseInt, parseDate, env);
    } else {
      assert list[..i] == list;
    }
  }

  /** Once a rule has thrown, later records change nothing. */
  lemma {:induction false} MainRunStaysStopped(s: FsState, records: seq<seq<string>>, i: nat,
                                               parseInt: string -> Option<Int32>, parseDate: string -> Option<int>,
                                               env: nat -> RuleInputs)
    requires i <= |records|
    requires Stopped(MainRun(s, records[..i], parseInt, parseDate, env).outcomes)
    ensures MainRun(s, records, parseInt, parseDate, env) == MainRun(s, records[..i], parseInt, parseDate, env)
    decreases |records|
  {
    if i < |records| {
      var init := records[..|records| - 1];
      assert init[..i] == records[..i];
      MainRunStaysStopped(s, init, i, parseInt, parseDate, env);
    } else {
      assert records[..i] == records;
    }
  }

  /** A rule that throws or is off-cadence leaves the filesystem as it was. */
  lemma OnlyArchivingChangesState(s: FsState, rec: seq<string>, parseInt: string -> Option<Int32>,
                                  parseDate: string -> Option<int>, inputs: RuleInputs)
    ensures !RuleRun(s, rec, parseInt, parseDate, inputs).outcome.Archived? ==>
      RuleRun(s, rec, parseInt, parseDate, inputs).state == s
  {
  }

  /**
   * The outcome tells which records threw: a record with fewer than eight
   * fields or a field the parsers refuse, or a rule due today whose folder
   * does not exist (an empty path never does).
   */
  lemma ThrowsIff(s: FsState, rec: seq<string>, parseInt: string -> Option<Int32>,
                  parseDate: string -> Option<int>, inputs: RuleInputs)
    ensures RuleRun(s, rec, parseInt, parseDate, inputs).outcome.BadRule? <==> BuildRule(rec, parseInt, parseDate).Failure?
    ensures RuleRun(s, rec, parseInt, parseDate, inputs).outcome.ListingFailed? <==>
      BuildRule(rec, parseInt, parseDate).Success? &&
      RunsToday(DaysBetween(inputs.now, BuildRule(rec, parseInt, parseDate).value.startDate),
                BuildRule(rec, parseInt, parseDate).value.frequency) &&
      !IsDirectory(s, BuildRule(rec, parseInt, parseDate).value.folder)
  {
  }

  /**
   * A rule due today over an existing folder archives its candidates, by
   * folder exactly when there are more than twenty of them.
   */
  lemma StrategyChoice(s: FsState, rec: seq<string>, parseInt: string -> Option<Int32>,
                       parseDate: string -> Option<int>, inputs: RuleInputs)
    requires BuildRule(rec, parseInt, parseDate).Success?
    requires RuleRun(s, rec, parseInt, parseDate, inputs).outcome.Archived?
    ensures RuleRun(s, rec, parseInt, parseDate, inputs).outcome.selected ==
      |SelectCandidates(inputs.listing, inputs.now, BuildRule(rec, parseInt, parseDate).value.dateRange)|
    ensures RuleRun(s, rec, parseInt, parseDate, inputs).outcome.strategy == ByFolder <==>
      RuleRun(s, rec, parseInt, parseDate, inputs).outcome.selected > FOLDER_THRESHOLD
  {
  }

  /** A record whose frequency field is 0 is never off-cadence. */
  lemma ZeroFrequencyRunsDaily(s: FsState, rec: seq<string>, parseInt: string -> Option<Int32>,
                               parseDate: string -> Option<int>, inputs: RuleInputs)
    requires BuildRule(rec, parseInt, parseDate).Success?
    requires parseInt(rec[6]) == Some(0)
    ensures !RuleRun(s, rec, parseInt, parseDate, inputs).outcome.OffCadence?
  {
    FrequencyOneAlwaysRuns(DaysBetween(inputs.now, BuildRule(rec, parseInt, parseDate).value.startDate));
  }

  /**
   * For a rule whose start date has passed and whose frequency is positive,
   * the logged next run date is right: the offset is the number of days until
   * the rule next runs.
   */
  lemma OffCadenceReportPastStart(s: FsState, rec: seq<string>, parseInt: string -> Option<Int32>,
                                  parseDate: string -> Option<int>, inputs: RuleInputs)
    requires BuildRule(rec, parseInt, parseDate).Success?
    requires inputs.now >= BuildRule(rec, parseInt, parseDate).value.startDate
    requires BuildRule(rec, parseInt, parseDate).value.frequency > 0
    requires RuleRun(s, rec, parseInt, parseDate, inputs).outcome.OffCadence?
    ensures RuleRun(s, rec, parseInt, parseDate, inputs).outcome.reported ==
      RuleRun(s, rec, parseInt, parseDate, inputs).outcome.actual
    ensures 0 < RuleRun(s, rec, parseInt, parseDate, inputs).outcome.actual <
      BuildRule(rec, parseInt, parseDate).value.frequency
  {
    var rule := BuildRule(rec, parseInt, parseDate).value;
    var datediff := DaysBetween(inputs.now, rule.startDate);
    assert datediff >= 0 by {
      assert inputs.now - rule.startDate == MINUTES_PER_DAY * TruncDiv(inputs.now - rule.startDate, MINUTES_PER_DAY)
        + TruncRem(inputs.now - rule.startDate, MINUTES_PER_DAY);
      if datediff < 0 {
        MulBounds(MINUTES_PER_DAY, datediff);
      }
    }
    NextRunOffsetIsNextRun(datediff, rule.frequency);
  }

  /**
   * A rule never touches a file outside its destination folder and its
   * temporary folder that it did not select.
   */
  lemma RuleRunFrame(s: FsState, rec: seq<string>, parseInt: string -> Option<Int32>,
                     parseDate: string -> Option<int>, inputs: RuleInputs, p: Path)
    requires BuildRule(rec, parseInt, parseDate).Success?
    requires p.dir != BuildRule(rec, parseInt, parseDate).value.destination
    requires p.dir != TempFolder(BuildRule(rec, parseInt, parseDate).value.destination,
                                 BuildRule(rec, parseInt, parseDate).value.zipFilename, inputs.t1)
    requires p !in Selected(BuildRule(rec, parseInt, parseDate).value, inputs)
    ensures SameAt(s, RuleRun(s, rec, parseInt, parseDate, inputs).state, p)
  {
    var rule := BuildRule(rec, parseInt, parseDate).value;
    var files := Selected(rule, inputs);
    ZipFilesFrame(s, files, rule.zipFilename, rule.destination, rule.finalPath, inputs.t1, inputs.t2);
    ZipFolderFrame(s, files, rule.zipFilename, rule.destination, rule.finalPath, inputs.t1, inputs.t2, inputs.t3);
  }

  /** Main never touches a file that lies outside every folder the rules name. */
  lemma {:induction false} MainRunFrame(s: FsState, records: seq<seq<string>>, parseInt: string -> Option<Int32>,
                                        parseDate: string -> Option<int>, env: nat -> RuleInputs, p: Path)
    requires forall k :: 0 <= k < |records| ==> Untouched(records[k], parseInt, parseDate, env(k), p)
    ensures SameAt(s, MainRun(s, records, parseInt, parseDate, env).state, p)
    decreases |records|
  {
    if records != [] {
      var init := records[..|records| - 1];
      MainRunFrame(s, init, parseInt, parseDate, env, p);
      var prev := MainRun(s, init, parseInt, parseDate, env);
      var k := |records| - 1;
      if !Stopped(prev.outcomes) && BuildRule(records[k], parseInt, parseDate).Success? {
        RuleRunFrame(prev.state, records[k], parseInt, parseDate, env(k), p);
      }
    }
  }

  /** `p` is neither in the rule's destination or temporary folder nor among the files it selects. */
  predicate Untouched(rec: seq<string>, parseInt: string -> Option<Int32>, parseDate: string -> Option<int>,
                      inputs: RuleInputs, p: Path)
  {
    match BuildRule(rec, parseInt, parseDate)
    case Failure(_) => true
    case Success(rule) =>
      && p.dir != rule.destination
      && p.dir != TempFolder(rule.destination, rule.zipFilename, inputs.t1)
      && p !in Selected(rule, inputs)
  }
}
