/**
 * The password evaluator: a finite-state machine that scans the input one
 * character at a time, records which requirement classes it has seen, stops
 * at the first character outside the accepted alphabet or at the 33rd
 * character, and finally lists the requirements that are still missing.
 *
 * The Java class keeps its whole state in static fields; here they are the
 * fields of one Model object, and EvaluatePassword is proved against
 * Evaluation, a declarative description of the state it leaves behind.
 */
module Validators {
  import opened Wrappers

  /** The classes the cascading test in the scan loop distinguishes, in its order. */
  datatype CharClass = Upper | Lower | Digit | Special | Other

  /** The 32 special characters the evaluator accepts, written out one by one. */
  predicate IsSpecialChar(c: char) {
    c == '~' || c == '`' || c == '!' || c == '@' || c == '#' || c == '$' || c == '%' || c == '^'
    || c == '&' || c == '*' || c == '(' || c == ')' || c == '_' || c == '-' || c == '+' || c == '='
    || c == '{' || c == '}' || c == '[' || c == ']' || c == '|' || c == '\\' || c == ':' || c == ';'
    || c == '"' || c == '\'' || c == '<' || c == '>' || c == ',' || c == '.' || c == '?' || c == '/'
  }

  function ClassOf(c: char): CharClass {
    if 'A' <= c <= 'Z' then Upper
    else if 'a' <= c <= 'z' then Lower
    else if '0' <= c <= '9' then Digit
    else if IsSpecialChar(c) then Special
    else Other
  }

  predicate Accepted(c: char) { ClassOf(c) != Other }

  /** The string holds at least one character of class k. */
  predicate HasClass(s: string, k: CharClass) {
    exists j :: 0 <= j < |s| && ClassOf(s[j]) == k
  }

  /** Index of the first character outside the alphabet, or |s| when there is none. */
  function FirstInvalid(s: string): (r: nat)
    ensures r <= |s|
    ensures forall j :: 0 <= j < r ==> Accepted(s[j])
    ensures r < |s| ==> !Accepted(s[r])
  {
    if s == [] || !Accepted(s[0]) then 0
    else
      var t := FirstInvalid(s[1..]);
      assert forall j :: 1 <= j < 1 + t ==> s[j] == s[1..][j - 1];
      1 + t
  }

  const EmptyMessage: string := "*** Error *** The password is empty!"
  const InvalidMessage: string := "*** Error *** An invalid character has been found!"
  const TooLongMessage: string := "*** Error *** More than 32 characters found!"

  const UpperLine: string := "Password must include at least one uppercase letter.\n"
  const LowerLine: string := "Password must include at least one lowercase letter.\n"
  const DigitLine: string := "Password must include at least one numeric digit.\n"
  const SpecialLine: string := "Password must include at least one special character.\n"
  const LengthLine: string := "Password must be at least 8 characters long.\n"
  const ExceedLine: string := "Password must not exceed 32 characters.\n"

  /** The requirements the final report can name, in the order it names them. */
  datatype Requirement = NeedUpper | NeedLower | NeedDigit | NeedSpecial | NeedLength | NoExcess

  /** The report line for one requirement. */
  function LineOf(q: Requirement): (line: string)
    ensures |line| > 0 && line[|line| - 1] == '\n'
  {
    match q
    case NeedUpper => UpperLine
    case NeedLower => LowerLine
    case NeedDigit => DigitLine
    case NeedSpecial => SpecialLine
    case NeedLength => LengthLine
    case NoExcess => ExceedLine
  }

  /** The lines for a list of requirements, concatenated in order. */
  function Lines(qs: seq<Requirement>): string {
    if qs == [] then "" else LineOf(qs[0]) + Lines(qs[1..])
  }

  /** A list of requirements, extended by q when add holds. */
  function AddIf(listed: seq<Requirement>, add: bool, q: Requirement): (r: seq<Requirement>)
    ensures add ==> r == listed + [q]
    ensures !add ==> r == listed
  {
    if add then listed + [q] else listed
  }

  /** The requirements still missing once the scan has set the six flags, in the report's order. */
  function MissingRequirements(upper: bool, lower: bool, digit: bool, special: bool, longEnough: bool, tooLong: bool)
    : seq<Requirement>
  {
    var afterUpper := AddIf([], !upper, NeedUpper);
    var afterLower := AddIf(afterUpper, !lower, NeedLower);
    var afterDigit := AddIf(afterLower, !digit, NeedDigit);
    var afterSpecial := AddIf(afterDigit, !special, NeedSpecial);
    var afterLength := AddIf(afterSpecial, !longEnough, NeedLength);
    AddIf(afterLength, tooLong, NoExcess)
  }

  /** The report built after a complete scan: one line per missing requirement. */
  function RequirementLines(upper: bool, lower: bool, digit: bool, special: bool, longEnough: bool, tooLong: bool): string {
    Lines(MissingRequirements(upper, lower, digit, special, longEnough, tooLong))
  }

  /** Appending a requirement appends its line. */
  lemma {:induction false} LinesAppend(qs: seq<Requirement>, q: Requirement)
    ensures Lines(qs + [q]) == Lines(qs) + LineOf(q)
  {
    if qs == [] {
      assert qs + [q] == [q];
      assert Lines([q]) == LineOf(q) + Lines([]);
    } else {
      assert (qs + [q])[1..] == qs[1..] + [q];
      LinesAppend(qs[1..], q);
    }
  }

  /** The lines are empty exactly when no requirement is listed. */
  lemma LinesEmpty(qs: seq<Requirement>)
    ensures Lines(qs) == "" <==> qs == []
  {
    if qs != [] {
      assert |Lines(qs)| >= |LineOf(qs[0])|;
    }
  }

  /** The values of all the evaluator's fields at one moment. */
  datatype Snapshot = Snapshot(
    errorMessage: string,
    input: string,
    indexOfError: int,
    upper: bool,
    lower: bool,
    digit: bool,
    special: bool,
    longEnough: bool,
    tooLong: bool,
    inputLine: string,
    currentChar: char,
    currentCharNdx: int,
    running: bool)

  /** What one call returns, with the fields it leaves behind. */
  datatype Evaluated = Evaluated(result: string, after: Snapshot)

  /**
   * Where the character loop ends and what it has recorded by then: the
   * error it returns from inside the loop (None when it runs to the end of
   * the input), the six flags, the index, the current character and the
   * running flag.
   */
  datatype ScanEnd = ScanEnd(
    stop: Option<string>,
    upper: bool,
    lower: bool,
    digit: bool,
    special: bool,
    longEnough: bool,
    tooLong: bool,
    ndx: nat,
    ch: char,
    running: bool)

  /** The flags after the loop has looked at the first `seen` characters of s. */
  function Recorded(s: string, seen: nat, stop: Option<string>, tooLong: bool, ndx: nat, ch: char, running: bool): ScanEnd
    requires seen <= |s|
  {
    var p := s[..seen];
    ScanEnd(stop, HasClass(p, Upper), HasClass(p, Lower), HasClass(p, Digit), HasClass(p, Special),
            seen >= 8, tooLong, ndx, ch, running)
  }

  /**
   * How the loop ends on a non-empty input: at the first character outside
   * the alphabet when it is one of the first 33, else at index 32 when there
   * are more than 32 characters, else after the last character.
   */
  function ScanOutcome(s: string): ScanEnd
    requires s != []
  {
    var k := FirstInvalid(s);
    if k < |s| && k <= 32 then Recorded(s, k, Some(InvalidMessage), false, k, s[k], true)
    else if |s| > 32 then Recorded(s, 33, Some(TooLongMessage), true, 32, s[32], true)
    else Recorded(s, |s|, None, false, |s|, s[|s| - 1], false)
  }

  /** What a call on the non-empty input s returns and leaves, once the loop has ended in e. */
  function Finish(s: string, e: ScanEnd): Evaluated {
    var m := if e.stop.Some? then e.stop.value
             else RequirementLines(e.upper, e.lower, e.digit, e.special, e.longEnough, e.tooLong);
    var index := if e.stop.Some? || |m| != 0 then e.ndx else 0;
    Evaluated(m, Snapshot("", s, index, e.upper, e.lower, e.digit, e.special, e.longEnough, e.tooLong,
                          s, e.ch, e.ndx, e.running))
  }

  /**
   * What evaluatePassword returns for s, and the fields it leaves, given the
   * fields before the call. The empty input returns before the requirement
   * flags are reset, so they keep their old values.
   */
  function Evaluation(before: Snapshot, s: string): Evaluated {
    if s == [] then
      Evaluated(EmptyMessage, before.(errorMessage := "", indexOfError := 0, inputLine := s, currentCharNdx := 0))
    else
      Finish(s, ScanOutcome(s))
  }

  /** Extending a prefix by one character adds that character's class and nothing else. */
  lemma HasClassExtend(s: string, i: nat)
    requires i < |s|
    ensures forall k :: HasClass(s[..i + 1], k) <==> HasClass(s[..i], k) || ClassOf(s[i]) == k
  {
    assert s[..i + 1] == s[..i] + [s[i]];
    forall k ensures HasClass(s[..i + 1], k) <==> HasClass(s[..i], k) || ClassOf(s[i]) == k {
      if HasClass(s[..i + 1], k) && ClassOf(s[i]) != k {
        var j :| 0 <= j < i + 1 && ClassOf(s[..i + 1][j]) == k;
        assert s[..i][j] == s[j];
      }
      if HasClass(s[..i], k) {
        var j :| 0 <= j < i && ClassOf(s[..i][j]) == k;
        assert s[..i + 1][j] == s[j];
      }
      if ClassOf(s[i]) == k {
        assert s[..i + 1][i] == s[i];
      }
    }
  }

  /** The scan of s stops at the first character outside the alphabet when it is one of the first 33. */
  lemma StopsAtInvalid(s: string, i: nat)
    requires i < |s| && i <= 32
    requires forall j :: 0 <= j < i ==> Accepted(s[j])
    requires !Accepted(s[i])
    ensures ScanOutcome(s) == Recorded(s, i, Some(InvalidMessage), false, i, s[i], true)
  {
    assert FirstInvalid(s) == i;
  }

  /** The scan of s stops at index 32 when its first 33 characters are all accepted. */
  lemma StopsAtLimit(s: string)
    requires |s| > 32
    requires forall j :: 0 <= j <= 32 ==> Accepted(s[j])
    ensures ScanOutcome(s) == Recorded(s, 33, Some(TooLongMessage), true, 32, s[32], true)
  {
    assert FirstInvalid(s) > 32;
  }

  /** The scan of s runs to its end when s has at most 32 characters, all accepted. */
  lemma RunsToEnd(s: string)
    requires s != [] && |s| <= 32
    requires forall j :: 0 <= j < |s| ==> Accepted(s[j])
    ensures ScanOutcome(s) == Recorded(s, |s|, None, false, |s|, s[|s| - 1], false)
  {
    assert FirstInvalid(s) == |s|;
  }

  /**
   * The character loop: each character is tried against the four classes in
   * order; one outside them all, or the 33rd character, ends the scan with
   * an error; otherwise the index moves on until the input is used up.
   */
  method Scan(input: string) returns (e: ScanEnd)
    requires input != []
    ensures e == ScanOutcome(input)
  {
    var currentCharNdx := 0;
    var currentChar := input[0];
    var foundUpperCase, foundLowerCase, foundNumericDigit, foundSpecialChar := false, false, false, false;
    var foundLongEnough, foundTooLong := false, false;
    var running := true;
    while running
      invariant 0 <= currentCharNdx <= |input| && currentCharNdx <= 32
      invariant running <==> currentCharNdx < |input|
      invariant currentChar == input[if running then currentCharNdx else |input| - 1]
      invariant forall j :: 0 <= j < currentCharNdx ==> Accepted(input[j])
      invariant foundUpperCase == HasClass(input[..currentCharNdx], Upper)
      invariant foundLowerCase == HasClass(input[..currentCharNdx], Lower)
      invariant foundNumericDigit == HasClass(input[..currentCharNdx], Digit)
      invariant foundSpecialChar == HasClass(input[..currentCharNdx], Special)
      invariant foundLongEnough == (currentCharNdx >= 8)
      invariant !foundTooLong
      decreases |input| - currentCharNdx
    {
      HasClassExtend(input, currentCharNdx);
      var cls := ClassOf(currentChar);
      if cls == Upper {
        foundUpperCase := true;
      } else if cls == Lower {
        foundLowerCase := true;
      } else if cls == Digit {
        foundNumericDigit := true;
      } else if cls == Special {
        foundSpecialChar := true;
      } else {
        StopsAtInvalid(input, currentCharNdx);
        return ScanEnd(Some(InvalidMessage), foundUpperCase, foundLowerCase, foundNumericDigit, foundSpecialChar,
                       foundLongEnough, foundTooLong, currentCharNdx, currentChar, running);
      }
      assert Accepted(input[currentCharNdx]);
      if currentCharNdx >= 7 {
        foundLongEnough := true;
      }
      if currentCharNdx > 31 {
        foundTooLong := true;
        StopsAtLimit(input);
        return ScanEnd(Some(TooLongMessage), foundUpperCase, foundLowerCase, foundNumericDigit, foundSpecialChar,
                       foundLongEnough, foundTooLong, currentCharNdx, currentChar, running);
      }
      currentCharNdx := currentCharNdx + 1;
      if currentCharNdx >= |input| {
        running := false;
      } else {
        currentChar := input[currentCharNdx];
      }
    }
    RunsToEnd(input);
    return ScanEnd(None, foundUpperCase, foundLowerCase, foundNumericDigit, foundSpecialChar,
                   foundLongEnough, foundTooLong, currentCharNdx, currentChar, running);
  }

  /**
   * One step of the report: the requirement's line is appended when `add`
   * holds; `listed` follows the requirements named so far.
   */
  method AppendLine(message: string, ghost listed: seq<Requirement>, add: bool, q: Requirement)
    returns (m: string, ghost now: seq<Requirement>)
    requires message == Lines(listed)
    ensures m == Lines(now)
    ensures now == AddIf(listed, add, q)
  {
    m, now := message, listed;
    if add {
      LinesAppend(listed, q);
      m, now := message + LineOf(q), listed + [q];
    }
  }

  class Model {
    var passwordErrorMessage: string
    var passwordInput: string
    var passwordIndexofError: int
    var foundUpperCase: bool
    var foundLowerCase: bool
    var foundNumericDigit: bool
    var foundSpecialChar: bool
    var foundLongEnough: bool
    var foundTooLong: bool
    var inputLine: string
    var currentChar: char
    var currentCharNdx: int
    var running: bool

    function State(): Snapshot
      reads this
    {
      Snapshot(passwordErrorMessage, passwordInput, passwordIndexofError,
               foundUpperCase, foundLowerCase, foundNumericDigit, foundSpecialChar, foundLongEnough, foundTooLong,
               inputLine, currentChar, currentCharNdx, running)
    }

    /** The static initialisers: empty strings, index -1, flags false, Java defaults for the rest. */
    constructor ()
      ensures State() == Snapshot("", "", -1, false, false, false, false, false, false, "", '\0', 0, false)
    {
      passwordErrorMessage := "";
      passwordInput := "";
      passwordIndexofError := -1;
      foundUpperCase := false;
      foundLowerCase := false;
      foundNumericDigit := false;
      foundSpecialChar := false;
      foundLongEnough := false;
      foundTooLong := false;
      inputLine := "";
      currentChar := '\0';
      currentCharNdx := 0;
      running := false;
    }

    /**
     * The report of missing requirements, appended line by line in the
     * fixed order from the flags the scan left.
     */
    method ComposeReport() returns (errMessage: string)
      ensures errMessage == RequirementLines(foundUpperCase, foundLowerCase, foundNumericDigit, foundSpecialChar,
                                             foundLongEnough, foundTooLong)
    {
      errMessage := "";
      ghost var missing: seq<Requirement> := [];
      errMessage, missing := AppendLine(errMessage, missing, !foundUpperCase, NeedUpper);
      errMessage, missing := AppendLine(errMessage, missing, !foundLowerCase, NeedLower);
      errMessage, missing := AppendLine(errMessage, missing, !foundNumericDigit, NeedDigit);
      errMessage, missing := AppendLine(errMessage, missing, !foundSpecialChar, NeedSpecial);
      errMessage, missing := AppendLine(errMessage, missing, !foundLongEnough, NeedLength);
      errMessage, missing := AppendLine(errMessage, missing, foundTooLong, NoExcess);
      assert missing == MissingRequirements(foundUpperCase, foundLowerCase, foundNumericDigit, foundSpecialChar,
                                            foundLongEnough, foundTooLong);
    }

    /**
     * evaluatePassword: "" for an acceptable password, otherwise an error
     * message, with the static fields left as the fields of this object.
     */
    method EvaluatePassword(input: string) returns (r: string)
      modifies this
      ensures Evaluated(r, State()) == Evaluation(old(State()), input)
    {
      passwordErrorMessage := "";
      passwordIndexofError := 0;
      inputLine := input;
      currentCharNdx := 0;
      if |input| <= 0 {
        return EmptyMessage;
      }
      passwordInput := input;
      var e := Scan(input);
      r := Conclude(input, e);
    }

    /** Leaves the loop's flags, index, current character and running flag in the fields. */
    method KeepLoopState(e: ScanEnd)
      modifies this
      ensures State() == old(State()).(upper := e.upper, lower := e.lower, digit := e.digit, special := e.special,
                                      longEnough := e.longEnough, tooLong := e.tooLong,
                                      currentChar := e.ch, currentCharNdx := e.ndx, running := e.running)
    {
      KeepFlags(e);
      currentChar, currentCharNdx, running := e.ch, e.ndx, e.running;
    }

    /** The requirement flags of KeepLoopState. */
    method KeepFlags(e: ScanEnd)
      modifies this
      ensures State() == old(State()).(upper := e.upper, lower := e.lower, digit := e.digit, special := e.special,
                                      longEnough := e.longEnough, tooLong := e.tooLong)
    {
      foundUpperCase, foundLowerCase, foundNumericDigit, foundSpecialChar := e.upper, e.lower, e.digit, e.special;
      foundLongEnough, foundTooLong := e.longEnough, e.tooLong;
    }

    /**
     * The rest of evaluatePassword once its loop has ended in e: the loop's
     * state is kept in the fields, and an error raised inside the loop is
     * returned with the index where it stopped.
     */
    method Conclude(input: string, e: ScanEnd) returns (r: string)
      requires passwordErrorMessage == "" && passwordIndexofError == 0
      requires passwordInput == input && inputLine == input
      modifies this
      ensures Evaluated(r, State()) == Finish(input, e)
    {
      KeepLoopState(e);
      if e.stop.Some? {
        passwordIndexofError := currentCharNdx;
        return e.stop.value;
      }
      r := ReportMissing();
    }

    /**
     * After a loop that ran to the end: the report of missing requirements,
     * with the error index set to the current index unless the report is
     * empty.
     */
    method ReportMissing() returns (r: string)
      requires passwordIndexofError == 0
      modifies this
      ensures r == RequirementLines(foundUpperCase, foundLowerCase, foundNumericDigit, foundSpecialChar,
                                    foundLongEnough, foundTooLong)
      ensures State() == old(State()).(indexOfError := if |r| == 0 then 0 else currentCharNdx)
    {
      var errMessage := ComposeReport();
      if |errMessage| == 0 {
        return "";
      }
      passwordIndexofError := currentCharNdx;
      return errMessage;
    }
  }

  // -----------------------------------------------------------------------
  // What the evaluation promises
  // -----------------------------------------------------------------------

  /** The empty password is reported as such, and the requirement flags keep their old values. */
  lemma EmptyPassword(before: Snapshot)
    ensures Evaluation(before, "").result == EmptyMessage
    ensures Evaluation(before, "").after.indexOfError == 0
    ensures Evaluation(before, "").after.(indexOfError := before.indexOfError, errorMessage := before.errorMessage,
                                          inputLine := before.inputLine, currentCharNdx := before.currentCharNdx) == before
  {
  }

  /** The first character outside the alphabet, within the first 33, is reported with its index. */
  lemma InvalidCharacterReported(before: Snapshot, s: string, i: nat)
    requires i < |s| && i <= 32
    requires forall j :: 0 <= j < i ==> Accepted(s[j])
    requires !Accepted(s[i])
    ensures Evaluation(before, s).result == InvalidMessage
    ensures Evaluation(before, s).after.indexOfError == i
  {
    var k := FirstInvalid(s);
    assert k == i;
  }

  /** 33 accepted characters in a row stop the scan with the too-long error at index 32. */
  lemma TooLongReported(before: Snapshot, s: string)
    requires |s| > 32
    requires forall j :: 0 <= j <= 32 ==> Accepted(s[j])
    ensures Evaluation(before, s).result == TooLongMessage
    ensures Evaluation(before, s).after.indexOfError == 32
    ensures Evaluation(before, s).after.tooLong && Evaluation(before, s).after.longEnough
  {
    var k := FirstInvalid(s);
    assert k > 32;
  }

  /**
   * After a complete scan of a password of at most 32 accepted characters,
   * each flag says whether the input holds a character of its class, the
   * length flag whether there are at least 8 characters, and the report
   * lists the missing requirements in the fixed order; never the "must not
   * exceed" line. The error index is 0 for an accepted password and the
   * length otherwise.
   */
  lemma FullScanReport(before: Snapshot, s: string)
    requires s != [] && |s| <= 32
    requires forall j :: 0 <= j < |s| ==> Accepted(s[j])
    ensures Evaluation(before, s).after.upper == HasClass(s, Upper)
    ensures Evaluation(before, s).after.lower == HasClass(s, Lower)
    ensures Evaluation(before, s).after.digit == HasClass(s, Digit)
    ensures Evaluation(before, s).after.special == HasClass(s, Special)
    ensures Evaluation(before, s).after.longEnough == (|s| >= 8)
    ensures !Evaluation(before, s).after.tooLong
    ensures Evaluation(before, s).result ==
      RequirementLines(HasClass(s, Upper), HasClass(s, Lower), HasClass(s, Digit), HasClass(s, Special), |s| >= 8, false)
    ensures Evaluation(before, s).after.indexOfError == if Evaluation(before, s).result == "" then 0 else |s|
  {
    var k := FirstInvalid(s);
    assert k == |s|;
    assert s[..|s|] == s;
  }

  /** The report is empty exactly when every requirement flag is satisfied and the too-long flag is not set. */
  lemma RequirementLinesEmpty(upper: bool, lower: bool, digit: bool, special: bool, longEnough: bool, tooLong: bool)
    ensures RequirementLines(upper, lower, digit, special, longEnough, tooLong) == "" <==>
            upper && lower && digit && special && longEnough && !tooLong
  {
    LinesEmpty(MissingRequirements(upper, lower, digit, special, longEnough, tooLong));
  }

  /**
   * The evaluator accepts a password (returns "") exactly when every
   * character is accepted, the length is 8 to 32, and it holds an upper-case
   * letter, a lower-case letter, a digit and a special character.
   */
  lemma AcceptedIff(before: Snapshot, s: string)
    ensures Evaluation(before, s).result == "" <==>
            (forall j :: 0 <= j < |s| ==> Accepted(s[j]))
            && 8 <= |s| <= 32
            && HasClass(s, Upper) && HasClass(s, Lower) && HasClass(s, Digit) && HasClass(s, Special)
  {
    if s != [] {
      var k := FirstInvalid(s);
      if k < |s| && k <= 32 {
        assert !Accepted(s[k]);
      } else if |s| > 32 {
      } else {
        assert k == |s|;
        FullScanReport(before, s);
        RequirementLinesEmpty(HasClass(s, Upper), HasClass(s, Lower), HasClass(s, Digit), HasClass(s, Special), |s| >= 8, false);
      }
    }
  }
}
