/**
 * Rule construction in Main's loop body: the positional fields of one config
 * record, with Convert.ToInt32 and Convert.ToDateTime as parsers that may fail.
 */
module Rules {
  import opened Wrappers

  const MIN_INT32: int := -0x8000_0000
  const MAX_INT32: int := 0x7fff_ffff

  /** A C# `int`. */
  type Int32 = x: int | MIN_INT32 <= x <= MAX_INT32

  /** One archive rule; `startDate` is an instant in minutes on the model's clock. */
  datatype Rule = Rule(
    folder: string,
    fileType: string,
    dateRange: Int32,
    destination: string,
    zipFilename: string,
    finalPath: string,
    frequency: Int32,
    startDate: int)

  /** Why building a rule threw: an index past the end of the record, or a field the parser refused. */
  datatype RuleError = MissingField(index: nat) | NotAnInteger(index: nat) | NotADate(index: nat)

  /** A frequency of 0 runs every day; every other value, negative ones included, is used as given. */
  function NormalizeFrequency(raw: Int32): (f: Int32)
    ensures f != 0
    ensures raw != 0 ==> f == raw
    ensures raw == 0 ==> f == 1
  {
    if raw == 0 then 1 else raw
  }

  /**
   * The eight assignments at the top of the loop body, in source order: the
   * first failing index access or conversion decides the error. Fields past
   * the eighth are ignored.
   */
  function BuildRule(rec: seq<string>, parseInt: string -> Option<Int32>, parseDate: string -> Option<int>)
    : (r: Result<Rule, RuleError>)
    ensures r.Success? <==>
      8 <= |rec| && parseInt(rec[2]).Some? && parseInt(rec[6]).Some? && parseDate(rec[7]).Some?
    ensures r.Success? ==>
      r.value == Rule(rec[0], rec[1], parseInt(rec[2]).value, rec[3], rec[4], rec[5],
                      NormalizeFrequency(parseInt(rec[6]).value), parseDate(rec[7]).value)
    ensures |rec| < 3 ==> r == Failure(MissingField(|rec|))
    ensures 3 <= |rec| && parseInt(rec[2]).None? ==> r == Failure(NotAnInteger(2))
    ensures 3 <= |rec| < 7 && parseInt(rec[2]).Some? ==> r == Failure(MissingField(|rec|))
    ensures 7 <= |rec| && parseInt(rec[2]).Some? && parseInt(rec[6]).None? ==> r == Failure(NotAnInteger(6))
    ensures |rec| == 7 && parseInt(rec[2]).Some? && parseInt(rec[6]).Some? ==> r == Failure(MissingField(7))
    ensures 8 <= |rec| && parseInt(rec[2]).Some? && parseInt(rec[6]).Some? && parseDate(rec[7]).None? ==>
      r == Failure(NotADate(7))
    ensures r.Failure? && r.error.MissingField? ==> r.error.index == |rec| < 8
  {
    if |rec| < 3 then Failure(MissingField(|rec|))
    else match parseInt(rec[2])
      case None => Failure(NotAnInteger(2))
      case Some(dateRange) =>
        if |rec| < 7 then Failure(MissingField(|rec|))
        else match parseInt(rec[6])
          case None => Failure(NotAnInteger(6))
          case Some(frequency) =>
            if |rec| < 8 then Failure(MissingField(7))
            else match parseDate(rec[7])
              case None => Failure(NotADate(7))
              case Some(startDate) =>
                Success(Rule(rec[0], rec[1], dateRange, rec[3], rec[4], rec[5],
                             NormalizeFrequency(frequency), startDate))
  }
}
