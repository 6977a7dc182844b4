/** `poll`, `eventually` and `never` over an arbitrary stream of checks; attempt k has outcome `check(k)`. */
module Polling {
  import opened Text

  datatype Check<+T, +E> = Truthy(value: T) | Falsy(shown: string) | Throws(error: E)

  datatype Ended<+T, +E> = Found(at: nat, value: T) | Raised(at: nat, error: E) | Exhausted

  predicate Stops<T, E>(c: Check<T, E>, tolerate: bool) {
    c.Truthy? || (c.Throws? && !tolerate)
  }

  /** The end of polling attempts i, i+1, ..., attempts. */
  function PollFrom<T, E>(check: nat -> Check<T, E>, tolerate: bool, attempts: nat, i: nat): Ended<T, E>
    decreases attempts + 1 - i
  {
    if i > attempts then Exhausted
    else
      match check(i)
      case Truthy(v) => Found(i, v)
      case Throws(e) => if tolerate then PollFrom(check, tolerate, attempts, i + 1) else Raised(i, e)
      case Falsy(_) => PollFrom(check, tolerate, attempts, i + 1)
  }

  function ChecksMade<T, E>(end: Ended<T, E>, attempts: nat): nat {
    if end.Exhausted? then attempts else end.at
  }

  /** `poll`: returns how it ended, the checks made and the delays slept. */
  method Poll<T, E>(check: nat -> Check<T, E>, tolerate: bool, attempts: nat)
      returns (end: Ended<T, E>, checks: nat, sleeps: nat)
    ensures end == PollFrom(check, tolerate, attempts, 1)
    ensures checks == ChecksMade(end, attempts)
    ensures sleeps == if checks == 0 then 0 else checks - 1
  {
    checks, sleeps := 0, 0;
    var i := 1;
    while i <= attempts
      invariant 1 <= i <= attempts + 1 && checks == i - 1
      invariant sleeps == if i == 1 then 0 else if i <= attempts then i - 1 else attempts - 1
      invariant PollFrom(check, tolerate, attempts, 1) == PollFrom(check, tolerate, attempts, i)
    {
      checks := checks + 1;
      match check(i) {
        case Truthy(v) => return Found(i, v), checks, sleeps;
        case Throws(e) => if !tolerate { return Raised(i, e), checks, sleeps; }
        case Falsy(_) =>
      }
      if i < attempts { sleeps := sleeps + 1; }
      i := i + 1;
    }
    end := Exhausted;
  }

  /** Polling stops at the first attempt that matches or throws untolerated, if there is one within the budget. */
  lemma {:induction false} PollCharacterised<T, E>(check: nat -> Check<T, E>, tolerate: bool, attempts: nat, i: nat)
    ensures match PollFrom(check, tolerate, attempts, i)
            case Found(k, v) => i <= k <= attempts && check(k) == Truthy(v) && QuietUntil(check, tolerate, i, k)
            case Raised(k, e) => i <= k <= attempts && check(k) == Throws(e) && !tolerate && QuietUntil(check, tolerate, i, k)
            case Exhausted => QuietUntil(check, tolerate, i, attempts + 1)
    decreases attempts + 1 - i
  {
    if i <= attempts && !Stops(check(i), tolerate) {
      PollCharacterised(check, tolerate, attempts, i + 1);
    }
  }

  ghost predicate QuietUntil<T, E>(check: nat -> Check<T, E>, tolerate: bool, from: nat, k: nat) {
    forall j: nat :: from <= j < k ==> !Stops(check(j), tolerate)
  }

  // ------------------------------------------------------ eventually, never

  /** What the exhaustion message of `eventually` shows: the last error if any check threw, else the last value. */
  datatype Observed<+E> = LastError(error: E) | LastValue(shown: string) | NothingObserved

  datatype EventuallyEnd<+T, +E> =
    | Resolved(at: nat, value: T)
    | Rethrown(at: nat, error: E)
    | GaveUp(attempts: nat, observed: Observed<E>)

  datatype NeverEnd<+T, +E> = Held | Matched(at: nat, value: T) | Surfaced(at: nat, error: E)

  function LastThrown<T, E>(check: nat -> Check<T, E>, n: nat): Option<E> {
    if n == 0 then None else if check(n).Throws? then Some(check(n).error) else LastThrown(check, n - 1)
  }

  function LastFalsy<T, E>(check: nat -> Check<T, E>, n: nat): Option<string> {
    if n == 0 then None else if check(n).Falsy? then Some(check(n).shown) else LastFalsy(check, n - 1)
  }

  function Diagnosis<T, E>(check: nat -> Check<T, E>, n: nat): Observed<E> {
    match LastThrown(check, n)
    case Some(e) => LastError(e)
    case None => match LastFalsy(check, n) case Some(s) => LastValue(s) case None => NothingObserved
  }

  function EventuallySpec<T, E>(check: nat -> Check<T, E>, tolerate: bool, attempts: nat): EventuallyEnd<T, E> {
    match PollFrom(check, tolerate, attempts, 1)
    case Found(k, v) => Resolved(k, v)
    case Raised(k, e) => Rethrown(k, e)
    case Exhausted => GaveUp(attempts, Diagnosis(check, attempts))
  }

  /** What the wrapper around `check` has recorded after the first `n` checks. */
  method Record<T, E>(check: nat -> Check<T, E>, n: nat) returns (lastValue: Option<string>, lastError: Option<E>)
    ensures lastError == LastThrown(check, n) && lastValue == LastFalsy(check, n)
  {
    lastValue, lastError := None, None;
    for i := 1 to n + 1
      invariant lastError == LastThrown(check, i - 1) && lastValue == LastFalsy(check, i - 1)
    {
      match check(i) {
        case Truthy(_) =>
        case Falsy(s) => lastValue := Some(s);
        case Throws(e) => lastError := Some(e);
      }
    }
  }

  /** `eventually`: polls, and on exhaustion shows what was recorded. */
  method Eventually<T, E>(check: nat -> Check<T, E>, tolerate: bool, attempts: nat)
      returns (r: EventuallyEnd<T, E>, checks: nat, sleeps: nat)
    ensures r == EventuallySpec(check, tolerate, attempts)
    ensures checks == match r case Resolved(k, _) => k case Rethrown(k, _) => k case GaveUp(_, _) => attempts
    ensures sleeps == if checks == 0 then 0 else checks - 1
  {
    var end;
    end, checks, sleeps := Poll(check, tolerate, attempts);
    match end {
      case Found(k, v) => r := Resolved(k, v);
      case Raised(k, e) => r := Rethrown(k, e);
      case Exhausted =>
        var lastValue, lastError := Record(check, checks);
        var observed := if lastError.Some? then LastError(lastError.value)
                        else if lastValue.Some? then LastValue(lastValue.value) else NothingObserved;
        r := GaveUp(attempts, observed);
    }
  }

  function NeverSpec<T, E>(check: nat -> Check<T, E>, tolerate: bool, attempts: nat): NeverEnd<T, E> {
    match PollFrom(check, tolerate, attempts, 1)
    case Found(k, v) => Matched(k, v)
    case Raised(k, e) => Surfaced(k, e)
    case Exhausted => Held
  }

  /** `never`: polls; the wrapper around `check` counts the attempts. */
  method Never<T, E>(check: nat -> Check<T, E>, tolerate: bool, attempts: nat)
      returns (r: NeverEnd<T, E>, checks: nat, sleeps: nat)
    ensures r == NeverSpec(check, tolerate, attempts)
    ensures checks == match r case Matched(k, _) => k case Surfaced(k, _) => k case Held => attempts
    ensures sleeps == if checks == 0 then 0 else checks - 1
  {
    var end;
    end, checks, sleeps := Poll(check, tolerate, attempts);
    match end {
      case Found(_, v) => r := Matched(checks, v);
      case Raised(k, e) => r := Surfaced(k, e);
      case Exhausted => r := Held;
    }
  }

  /**
    `eventually` and `never` are duals: over the same checks one resolves with v at attempt k
    exactly when the other reports a match of v at attempt k, which is when attempt k is the first
    to match and nothing was thrown untolerated before it; one gives up exactly when the other
    holds; and an untolerated error surfaces from both at the same attempt.
   */
  lemma Duality<T, E>(check: nat -> Check<T, E>, tolerate: bool, attempts: nat, k: nat, v: T, e: E)
    ensures var ev, nv := EventuallySpec(check, tolerate, attempts), NeverSpec(check, tolerate, attempts);
            var within := 1 <= k <= attempts && QuietUntil(check, tolerate, 1, k);
            && (ev == Resolved(k, v) <==> within && check(k) == Truthy(v))
            && (nv == Matched(k, v) <==> within && check(k) == Truthy(v))
            && (ev == Rethrown(k, e) <==> within && !tolerate && check(k) == Throws(e))
            && (nv == Surfaced(k, e) <==> within && !tolerate && check(k) == Throws(e))
            && (ev.GaveUp? <==> QuietUntil(check, tolerate, 1, attempts + 1))
            && (nv == Held <==> QuietUntil(check, tolerate, 1, attempts + 1))
  {
    PollCharacterised(check, tolerate, attempts, 1);
  }

  lemma {:induction false} LastThrownNone<T, E>(check: nat -> Check<T, E>, n: nat)
    ensures LastThrown(check, n) == None <==> forall j: nat :: 1 <= j <= n ==> !check(j).Throws?
  {
    if n == 0 {
    } else {
      LastThrownNone(check, n - 1);
    }
  }

  /**
    The exhaustion message shows the last observed value exactly when no check threw: one
    tolerated error hides every later value.
   */
  lemma ValueShownExactly<T, E>(check: nat -> Check<T, E>, tolerate: bool, attempts: nat)
    requires EventuallySpec(check, tolerate, attempts).GaveUp? && attempts >= 1
    ensures var seen := EventuallySpec(check, tolerate, attempts).observed;
            (seen.LastValue? && check(attempts) == Falsy(seen.shown)) <==>
            forall j: nat :: 1 <= j <= attempts ==> !check(j).Throws?
  {
    PollCharacterised(check, tolerate, attempts, 1);
    LastThrownNone(check, attempts);
  }

  lemma {:induction false} LastThrownAt<T, E>(check: nat -> Check<T, E>, n: nat, k: nat)
    requires 1 <= k <= n && check(k).Throws? && forall j: nat :: k < j <= n ==> !check(j).Throws?
    ensures LastThrown(check, n) == Some(check(k).error)
  {
    if k < n { LastThrownAt(check, n - 1, k); }
  }

  /**
    What the exhaustion message shows: the last error thrown, whatever values came after it; with
    no error at all, the value of the last check; and nothing if there was no check.
   */
  lemma ShownExactly<T, E>(check: nat -> Check<T, E>, tolerate: bool, attempts: nat)
    requires EventuallySpec(check, tolerate, attempts).GaveUp?
    ensures var end := EventuallySpec(check, tolerate, attempts);
            && end.attempts == attempts
            && (forall k: nat :: 1 <= k <= attempts && check(k).Throws? && (forall j: nat :: k < j <= attempts ==> !check(j).Throws?) ==>
                  end.observed == LastError(check(k).error))
            && ((forall k: nat :: 1 <= k <= attempts ==> !check(k).Throws?) && attempts >= 1 ==>
                  check(attempts).Falsy? && end.observed == LastValue(check(attempts).shown))
            && (attempts == 0 ==> end.observed == NothingObserved)
  {
    PollCharacterised(check, tolerate, attempts, 1);
    LastThrownNone(check, attempts);
    forall k: nat | 1 <= k <= attempts && check(k).Throws? && (forall j: nat :: k < j <= attempts ==> !check(j).Throws?)
      ensures LastThrown(check, attempts) == Some(check(k).error)
    {
      LastThrownAt(check, attempts, k);
    }
  }
}
