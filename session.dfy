/**
 * The login session of src/main.c. Its `login_user` reads a username and a
 * password, checks them against the login file exactly as src/login_system.c
 * does, and on failure bumps `failed_attempts`, exits when it reaches 3 and
 * otherwise calls itself again. The counter is a local of each call,
 * initialised to 0, so each call sees it go from 0 to at most 1: the exit is
 * never taken and a session only ends by a login, a missing file, undefined
 * behaviour on the record, or the end of the console input.
 *
 * The console input is the sequence of attempts it holds (`Attempts` of the
 * Console module); each call consumes the first. `LoginCall` is one call up
 * to its recursive call, and `LoginUser` is the whole recursion, proved
 * equal to `SessionOutcome`, a reference definition over the attempts.
 * `LoginUserWithLockout` hands the counter to each retry instead, as the
 * three-strike exit intends, and is proved equal to `LockoutOutcome`.
 */
module Session {
  import opened Wrappers
  import opened CLib
  import opened Console
  import opened Credential

  /** The value of `failed_attempts` at which `login_user` exits. */
  const MaxFailures: nat := 3

  /** How one call of `login_user` ends: by logging in (then showing the
      menu), by finding no account, by recursing for another try, by
      `exit(1)`, by running out of console input, or on a record it cannot
      read with defined behaviour. */
  datatype Step = StepLoggedIn | StepNoAccount | StepRetry | StepExit | StepInputEnded | StepUndefined

  /** How a whole login session ends. LoggedIn names the attempt, counted
      from 0, that succeeded. */
  datatype Outcome = LoggedIn(attempt: nat) | NoAccountFound | TooManyFailures | InputEnded | RecordUndefined

  /** What the login check reports for each attempt, in order. */
  function Results(attempts: seq<Entered>, file: Option<seq<byte>>, h: Hasher): (r: seq<LoginResult>)
    ensures |r| == |attempts|
    ensures forall j :: 0 <= j < |r| ==> r[j] == CheckLogin(attempts[j], file, h)
    decreases |attempts|
  {
    if attempts == [] then [] else [CheckLogin(attempts[0], file, h)] + Results(attempts[1..], file, h)
  }

  /** The first result that is not a rejection: the attempt that ends a
      session in which every rejection leads to another try. */
  function FirstDecisive(results: seq<LoginResult>): (r: Option<nat>)
    ensures r.Some? ==> r.value < |results| && results[r.value] != Failed
    ensures r.Some? ==> forall j :: 0 <= j < r.value ==> results[j] == Failed
    ensures r.None? ==> forall j :: 0 <= j < |results| ==> results[j] == Failed
  {
    if results == [] then None
    else if results[0] != Failed then Some(0)
    else match FirstDecisive(results[1..])
      case None => None
      case Some(k) => Some(k + 1)
  }

  /** How a session ends at attempt k, whose login check gave result. */
  function Decided(result: LoginResult, k: nat): Outcome
    requires result != Failed
  {
    match result
    case Succeeded => LoggedIn(k)
    case NoAccount() => NoAccountFound
    case UndefinedRecord() => RecordUndefined
  }

  /** How a session over these attempts ends when every rejection leads to
      another try: at the first attempt that is not rejected, or when the
      input runs out. */
  function SessionOutcome(attempts: seq<Entered>, file: Option<seq<byte>>, h: Hasher): (r: Outcome)
    ensures r != TooManyFailures
  {
    var results := Results(attempts, file, h);
    match FirstDecisive(results)
    case Some(k) => Decided(results[k], k)
    case None => InputEnded
  }

  /** How a session over these attempts ends when the failures are counted
      for the whole session and it exits once `allowed` attempts have failed:
      at the first attempt that is not rejected if it comes before that, by
      the exit, or when the input runs out first. */
  function LockoutOutcome(attempts: seq<Entered>, file: Option<seq<byte>>, h: Hasher, allowed: nat): (r: Outcome)
    ensures r.LoggedIn? ==> r.attempt < allowed
  {
    var results := Results(attempts, file, h);
    var first := FirstDecisive(results);
    if first.Some? && first.value < allowed then Decided(results[first.value], first.value)
    else if allowed <= |attempts| then TooManyFailures
    else InputEnded
  }

  /** A session logs in at attempt k exactly when the file holds a complete
      record, attempt k matches it, and every earlier attempt does not. */
  lemma SessionLogsInIff(attempts: seq<Entered>, file: Option<seq<byte>>, h: Hasher, k: nat)
    ensures SessionOutcome(attempts, file, h) == LoggedIn(k) <==>
              k < |attempts| && file.Some? && DecodeRecord(file.value).Ok? &&
              Accepts(attempts[k], DecodeRecord(file.value).value, h) &&
              forall j :: 0 <= j < k ==> !Accepts(attempts[j], DecodeRecord(file.value).value, h)
  {
    if k < |attempts| && file.Some? && DecodeRecord(file.value).Ok? {
      var s := DecodeRecord(file.value).value;
      if Accepts(attempts[k], s, h) && forall j :: 0 <= j < k ==> !Accepts(attempts[j], s, h) {
        var first := FirstDecisive(Results(attempts, file, h));
        assert CheckLogin(attempts[k], file, h) == Succeeded;
        assert first.Some? && first.value <= k;
      }
    }
  }

  /** The outcome of the outer call when the inner call, one attempt
      later, ended with o: attempt numbers move up by one. */
  function NextAttempt(o: Outcome): Outcome
  {
    if o.LoggedIn? then LoggedIn(o.attempt + 1) else o
  }

  /** What a call does with the result of its login check. */
  function StepFor(result: LoginResult, failedAttempts: int): Step
  {
    match result
    case NoAccount() => StepNoAccount
    case UndefinedRecord() => StepUndefined
    case Succeeded => StepLoggedIn
    case Failed => if failedAttempts >= MaxFailures then StepExit else StepRetry
  }

  /** One call of `login_user` of src/main.c, up to the point where it
      returns, exits or calls itself again. It returns how the call ends and
      the final value of its `failed_attempts`. */
  method LoginCall(input: seq<Entered>, file: Option<seq<byte>>, h: Hasher)
    returns (step: Step, failedAttempts: int)
    ensures step != StepExit
    ensures failedAttempts == (if step == StepRetry then 1 else 0)
    ensures input == [] ==> step == StepInputEnded
    ensures input != [] ==> step == StepFor(CheckLogin(input[0], file, h), failedAttempts)
  {
    failedAttempts := 0;
    if input == [] {
      return StepInputEnded, failedAttempts;
    }
    var result := CheckLogin(input[0], file, h);
    if result == LoginResult.NoAccount {
      step := StepNoAccount;
    } else if result == LoginResult.UndefinedRecord {
      step := StepUndefined;
    } else if result == Succeeded {
      step := StepLoggedIn;
    } else {
      failedAttempts := failedAttempts + 1;
      step := if failedAttempts >= MaxFailures then StepExit else StepRetry;
    }
  }

  /** After a rejected attempt, the session goes on as a session over the
      remaining attempts. */
  lemma SessionOutcomeAfterRejection(input: seq<Entered>, file: Option<seq<byte>>, h: Hasher)
    requires input != []
    requires CheckLogin(input[0], file, h) == Failed
    ensures SessionOutcome(input, file, h) == NextAttempt(SessionOutcome(input[1..], file, h))
  {
  }

  /** `login_user` of src/main.c: one call, and on failure the recursive
      call it makes. It returns how the session ends and the largest value
      any call's `failed_attempts` reached. */
  method LoginUser(input: seq<Entered>, file: Option<seq<byte>>, h: Hasher)
    returns (outcome: Outcome, highestCount: int)
    ensures outcome == SessionOutcome(input, file, h)
    ensures 0 <= highestCount <= 1
    decreases |input|
  {
    var step, failedAttempts := LoginCall(input, file, h);
    highestCount := failedAttempts;
    match step
    case StepLoggedIn =>
      outcome := LoggedIn(0);
    case StepNoAccount =>
      outcome := NoAccountFound;
    case StepUndefined =>
      outcome := RecordUndefined;
    case StepInputEnded =>
      outcome := InputEnded;
    case StepExit =>
      outcome := TooManyFailures;
    case StepRetry =>
      SessionOutcomeAfterRejection(input, file, h);
      var later, count := LoginUser(input[1..], file, h);
      outcome := NextAttempt(later);
      if count > highestCount {
        highestCount := count;
      }
  }

  /** One call of `login_user` as the three-strike exit intends: the
      failures so far come in with the call instead of starting at 0. */
  method LockoutCall(input: seq<Entered>, file: Option<seq<byte>>, h: Hasher, failedAttempts: nat)
    returns (step: Step, count: nat)
    ensures count == (if step == StepRetry || step == StepExit then failedAttempts + 1 else failedAttempts)
    ensures input == [] ==> step == StepInputEnded
    ensures input != [] ==> step == StepFor(CheckLogin(input[0], file, h), count)
  {
    count := failedAttempts;
    if input == [] {
      return StepInputEnded, count;
    }
    var result := CheckLogin(input[0], file, h);
    if result == LoginResult.NoAccount {
      step := StepNoAccount;
    } else if result == LoginResult.UndefinedRecord {
      step := StepUndefined;
    } else if result == Succeeded {
      step := StepLoggedIn;
    } else {
      count := count + 1;
      step := if count >= MaxFailures then StepExit else StepRetry;
    }
  }

  /** How the locked-out session ends, given how its first attempt fares: a
      missing file, a record read with undefined behaviour and an accepted
      attempt end it at once, and so does a rejected attempt when it is the
      last one allowed; after any other rejected attempt it goes on as a
      session over the remaining attempts with one failure fewer allowed. */
  lemma LockoutFirstAttempt(input: seq<Entered>, file: Option<seq<byte>>, h: Hasher, allowed: nat)
    requires input != [] && allowed >= 1
    ensures var r := LockoutOutcome(input, file, h, allowed);
            match CheckLogin(input[0], file, h)
            case NoAccount() => r == NoAccountFound
            case UndefinedRecord() => r == RecordUndefined
            case Succeeded => r == LoggedIn(0)
            case Failed =>
              r == if allowed == 1 then TooManyFailures
                   else NextAttempt(LockoutOutcome(input[1..], file, h, allowed - 1))
  {
  }

  /** `login_user` as the three-strike exit intends: `failed_attempts`
      belongs to the session and is handed to each retry, so the third
      failure in a row ends the program. */
  method LoginUserWithLockout(input: seq<Entered>, file: Option<seq<byte>>, h: Hasher, failedAttempts: nat)
    returns (outcome: Outcome, finalCount: nat)
    requires failedAttempts < MaxFailures
    ensures outcome == LockoutOutcome(input, file, h, MaxFailures - failedAttempts)
    ensures failedAttempts <= finalCount <= MaxFailures
    ensures outcome == TooManyFailures <==> finalCount == MaxFailures
    decreases |input|
  {
    var step, count := LockoutCall(input, file, h, failedAttempts);
    finalCount := count;
    if input != [] {
      LockoutFirstAttempt(input, file, h, MaxFailures - failedAttempts);
    }
    match step
    case StepLoggedIn =>
      outcome := LoggedIn(0);
    case StepNoAccount =>
      outcome := NoAccountFound;
    case StepUndefined =>
      outcome := RecordUndefined;
    case StepInputEnded =>
      outcome := InputEnded;
    case StepExit =>
      outcome := TooManyFailures;
    case StepRetry =>
      var later;
      later, finalCount := LoginUserWithLockout(input[1..], file, h, count);
      outcome := NextAttempt(later);
  }

  /** The two sessions part ways exactly when the first three attempts are
      all rejected: the session as written then keeps asking, while the
      locked-out one exits. Otherwise they end alike. */
  lemma LockoutDiffersIff(attempts: seq<Entered>, file: Option<seq<byte>>, h: Hasher)
    ensures SessionOutcome(attempts, file, h) != LockoutOutcome(attempts, file, h, MaxFailures) <==>
              |attempts| >= MaxFailures &&
              forall j :: 0 <= j < MaxFailures ==> CheckLogin(attempts[j], file, h) == Failed
    ensures SessionOutcome(attempts, file, h) != LockoutOutcome(attempts, file, h, MaxFailures) ==>
              LockoutOutcome(attempts, file, h, MaxFailures) == TooManyFailures
  {
  }

  /** A session that shows the difference: the file holds the record for
      username "a", and three attempts with username "b" are all rejected.
      As written the session keeps asking until the input runs out; with
      the counter kept across retries it exits after the third. */
  lemma ThreeFailuresDoNotExit(h: Hasher)
    ensures var file := Some(EncodeRecord([97], h([97])));
            var wrong := Entered([98], [98]);
            SessionOutcome([wrong, wrong, wrong], file, h) == InputEnded &&
            LockoutOutcome([wrong, wrong, wrong], file, h, MaxFailures) == TooManyFailures
  {
    var record := EncodeRecord([97], h([97]));
    DecodeEncode([97], h([97]), []);
    assert record + [] == record;
    var wrong := Entered([98], [98]);
    assert CheckLogin(wrong, Some(record), h) == Failed;
  }

  /** The program of src/main.c from the login prompt on: `login_user` reads
      its attempts from the console, and the session ends as the reference
      says over the attempts the console holds, never by the exit. */
  method LoginFromConsole(console: seq<byte>, file: Option<seq<byte>>, h: Hasher)
    returns (outcome: Outcome)
    ensures outcome == SessionOutcome(Attempts(console), file, h)
    ensures outcome != TooManyFailures
    ensures outcome == InputEnded <==> forall j :: 0 <= j < |Attempts(console)| ==> CheckLogin(Attempts(console)[j], file, h) == Failed
  {
    var highest;
    outcome, highest := LoginUser(Attempts(console), file, h);
  }
}
