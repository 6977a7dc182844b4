/**
  Sending transactions: `retry`, `waitForReceipt`, `sendTx` and `submitTx` against an arbitrary node.
  The k-th call of the transaction factory has outcome `calls(k)`, and waiting for the receipt of
  the response it returned has outcome `waits(k)`.
 */
module Submission {
  import opened Text
  import opened Errors

  datatype Outcome<+T> = Returned(value: T) | Threw(error: Err) | ThrewUndefined

  datatype Receipt = Receipt(status: int)

  /** How `response.wait()` behaves: resolves (perhaps to null) or rejects after some time, or never settles. */
  datatype Waited = Resolves(after: nat, receipt: Option<Receipt>) | Rejects(after: nat, error: Err) | Hangs

  /** The factory's responses are named by their transaction hash. */
  datatype Node = Node(calls: nat -> Outcome<string>, waits: nat -> Waited)

  /** What a call throws; `None` is a thrown `undefined`. */
  type Thrown = Option<Err>

  /** The options `retry` is called with: how often to try, and what to try again for. */
  datatype Policy = Policy(attempts: nat, retryIf: Thrown -> bool)

  /** `isNonceError(err) || isTransientRpcError(err)`: both are false of undefined. */
  predicate WorthRetrying(t: Thrown) {
    t.Some? && Retryable(t.value)
  }

  /** The options of `sendTx` and of the factory calls in `submitTx`. */
  const TX_POLICY := Policy(5, WorthRetrying)

  const RETRY_DELAY_MS: nat := 500
  const MAX_DISPLACED_RETRIES: nat := 5

  // ------------------------------------------------------------------- retry

  predicate GivesUp<T>(o: Outcome<T>, retryIf: Thrown -> bool) {
    match o
    case Returned(_) => false
    case Threw(e) => !retryIf(Some(e))
    case ThrewUndefined => !retryIf(None)
  }

  /** How many of the calls fn(from), fn(from+1), ... a retry with `attempts` attempts makes. */
  function Calls<T>(fn: nat -> Outcome<T>, from: nat, attempts: nat, retryIf: Thrown -> bool): (n: nat)
    requires attempts >= 1
    ensures 1 <= n <= attempts
    decreases attempts
  {
    if fn(from).Returned? || GivesUp(fn(from), retryIf) || attempts == 1 then 1
    else 1 + Calls(fn, from + 1, attempts - 1, retryIf)
  }

  /** The loop of `retry`; `slept` counts the delays between attempts. */
  method Retry<T>(fn: nat -> Outcome<T>, from: nat, attempts: int, retryIf: Thrown -> bool)
      returns (r: Outcome<T>, n: nat, slept: nat)
    ensures attempts <= 0 ==> r == ThrewUndefined && n == 0 && slept == 0
    ensures attempts >= 1 ==> n == Calls(fn, from, attempts, retryIf) && r == fn(from + n - 1) && slept == n - 1
  {
    var lastErr: Outcome<T> := ThrewUndefined;
    n, slept := 0, 0;
    var i := 1;
    while i <= attempts
      invariant 1 <= i && n == slept == i - 1
      invariant attempts >= 1 ==> i <= attempts && i - 1 + Calls(fn, from + i - 1, attempts - i + 1, retryIf) == Calls(fn, from, attempts, retryIf)
      invariant attempts <= 0 ==> i == 1 && lastErr == ThrewUndefined
    {
      var o := fn(from + n);
      n := n + 1;
      if o.Returned? { return o, n, slept; }
      lastErr := o;
      if GivesUp(o, retryIf) { return o, n, slept; }
      if i >= attempts { break; }
      slept := slept + 1;
      i := i + 1;
    }
    r := lastErr;
  }

  /** Every call but the last failed with a retryable error, and the last settles the matter or is the final attempt. */
  lemma {:induction false} CallsCharacterised<T>(fn: nat -> Outcome<T>, from: nat, attempts: nat, retryIf: Thrown -> bool)
    requires attempts >= 1
    ensures var n := Calls(fn, from, attempts, retryIf);
            && (forall k :: from <= k < from + n - 1 ==> !fn(k).Returned? && !GivesUp(fn(k), retryIf))
            && (fn(from + n - 1).Returned? || GivesUp(fn(from + n - 1), retryIf) || n == attempts)
    decreases attempts
  {
    if !(fn(from).Returned? || GivesUp(fn(from), retryIf) || attempts == 1) {
      CallsCharacterised(fn, from + 1, attempts - 1, retryIf);
    }
  }

  // ---------------------------------------------------------- waitForReceipt

  /** Whether the timer wins the race; a receipt due at the very same instant counts as late. */
  predicate TimesOut(w: Waited) {
    w.Hangs? || w.after >= RECEIPT_TIMEOUT_MS
  }

  function WaitForReceipt(w: Waited, hash: string): Outcome<Option<Receipt>> {
    if TimesOut(w) then Threw(ReceiptTimeoutError(hash))
    else if w.Resolves? then Returned(w.receipt)
    else Threw(w.error)
  }

  function WaitMs(w: Waited): nat {
    if TimesOut(w) then RECEIPT_TIMEOUT_MS else w.after
  }

  // ------------------------------------------------------------------ sendTx

  /** One attempt of `sendTx`: call the factory, then wait for the receipt. */
  function SendOnce(node: Node, k: nat): Outcome<Option<Receipt>> {
    match node.calls(k)
    case Returned(hash) => WaitForReceipt(node.waits(k), hash)
    case Threw(e) => Threw(e)
    case ThrewUndefined => ThrewUndefined
  }

  function SendCalls(node: Node): (n: nat)
    ensures 1 <= n <= TX_POLICY.attempts
  {
    Calls(k => SendOnce(node, k), 0, TX_POLICY.attempts, TX_POLICY.retryIf)
  }

  function SendResult(node: Node): Outcome<Option<Receipt>> {
    SendOnce(node, SendCalls(node) - 1)
  }

  method SendTx(node: Node) returns (r: Outcome<Option<Receipt>>, n: nat)
    ensures n == SendCalls(node) && r == SendResult(node)
  {
    var slept;
    r, n, slept := Retry(k => SendOnce(node, k), 0, TX_POLICY.attempts, TX_POLICY.retryIf);
  }

  /** Hashes returned by the factory are hexadecimal. */
  ghost predicate HexHashes(node: Node) {
    forall k: nat :: node.calls(k).Returned? ==> HexHash(node.calls(k).value)
  }

  /** After a receipt timeout `sendTx` stops at once with that error: it never resubmits. */
  lemma SendStopsAtTimeout(node: Node, k: nat)
    requires HexHashes(node) && k < SendCalls(node)
    requires node.calls(k).Returned? && TimesOut(node.waits(k))
    ensures k == SendCalls(node) - 1
    ensures SendResult(node) == Threw(ReceiptTimeoutError(node.calls(k).value))
  {
    CallsCharacterised(j => SendOnce(node, j), 0, TX_POLICY.attempts, TX_POLICY.retryIf);
    ReceiptTimeoutNotRetryable(node.calls(k).value);
    var fn := (j: nat) => SendOnce(node, j);
    assert fn(k) == Threw(ReceiptTimeoutError(node.calls(k).value));
  }

  /** `sendTx` makes another call exactly when fewer than five were made and the last threw something worth retrying. */
  lemma SendGoesOnExactly(node: Node, k: nat)
    requires k < SendCalls(node)
    ensures k + 1 < SendCalls(node) <==> k < 4 && SendOnce(node, k).Threw? && Retryable(SendOnce(node, k).error)
  {
    var fn := (j: nat) => SendOnce(node, j);
    CallsCharacterised(fn, 0, TX_POLICY.attempts, TX_POLICY.retryIf);
    assert fn(k) == SendOnce(node, k);
  }

  // ---------------------------------------------------------------- submitTx

  datatype Submitted =
    | Mined(receipt: Receipt)
    | BadStatus(receipt: Receipt)
    | NoReceipt
    | Failed(error: Err)
    | FailedUndefined

  /** One turn of the outer loop: factory calls `from` up to `from + calls`, the last perhaps accepted. */
  datatype Round = Round(from: nat, calls: nat) {
    /** Index of the round's last factory call. */
    function Last(): nat {
      if calls == 0 then from else from + calls - 1
    }
  }

  datatype Submission = Submission(result: Submitted, rounds: seq<Round>)

  predicate Displaced(e: Err) {
    e.class_ == ReceiptTimeout || e.code == "TRANSACTION_REPLACED"
  }

  function Verdict(receipt: Option<Receipt>): Submitted {
    match receipt
    case None => NoReceipt
    case Some(r) => if r.status == 1 then Mined(r) else BadStatus(r)
  }

  /** The response of factory call `k` was accepted and then given up for a receipt timeout or a replacement. */
  predicate Abandoned(node: Node, k: nat) {
    var o := SendOnce(node, k);
    node.calls(k).Returned? && o.Threw? && Displaced(o.error)
  }

  /** What the submission comes to if factory call `k` is its last. */
  function Settled(node: Node, k: nat): Submitted {
    match SendOnce(node, k)
    case Returned(receipt) => Verdict(receipt)
    case Threw(e) => Failed(e)
    case ThrewUndefined => FailedUndefined
  }

  /** How many factory calls a round starting at call `k` makes. */
  function RoundLength(node: Node): nat -> nat {
    (k: nat) => Calls(node.calls, k, TX_POLICY.attempts, TX_POLICY.retryIf)
  }

  function GivenUp(node: Node): nat -> bool {
    (k: nat) => Abandoned(node, k)
  }

  /** The rounds from turn `attempt` on, given each round's length and whether its response is given up. */
  function Rounds(length: nat -> nat, givenUp: nat -> bool, max: nat, from: nat, attempt: nat): (rs: seq<Round>)
    requires 1 <= attempt <= max
    ensures rs != [] && rs[0] == Round(from, length(from))
    decreases max - attempt
  {
    var round := Round(from, length(from));
    if attempt < max && givenUp(round.Last()) then
      [round] + Rounds(length, givenUp, max, from + round.calls, attempt + 1)
    else [round]
  }

  function Submit(node: Node): Submission {
    var rounds := Rounds(RoundLength(node), GivenUp(node), MAX_DISPLACED_RETRIES, 0, 1);
    Submission(Settled(node, rounds[|rounds| - 1].Last()), rounds)
  }

  /** How one turn of the outer loop leaves its `try` block. */
  datatype Exit = Break(receipt: Option<Receipt>) | Continue | Rethrow(result: Submitted)

  method Turn(node: Node, policy: Policy, used: nat, canRetry: bool) returns (n: nat, exit: Exit)
    requires policy.attempts >= 1
    ensures n == Calls(node.calls, used, policy.attempts, policy.retryIf)
    ensures exit == Continue <==> canRetry && Abandoned(node, used + n - 1)
    ensures exit.Break? ==> Settled(node, used + n - 1) == Verdict(exit.receipt)
    ensures exit.Rethrow? ==> Settled(node, used + n - 1) == exit.result
  {
    var response, slept;
    response, n, slept := Retry(node.calls, used, policy.attempts, policy.retryIf);
    if response.Threw? { return n, Rethrow(Failed(response.error)); }
    if response.ThrewUndefined? { return n, Rethrow(FailedUndefined); }
    var waited := WaitForReceipt(node.waits(used + n - 1), response.value);
    if waited.Returned? { return n, Break(waited.value); }
    if waited.error.class_ == ReceiptTimeout && canRetry { return n, Continue; }
    if waited.error.code == "TRANSACTION_REPLACED" && canRetry { return n, Continue; }
    exit := Rethrow(Failed(waited.error));
  }

  /** The outer loop, up to the exit that ends it. */
  method SubmitLoop(node: Node, policy: Policy, max: nat, ghost length: nat -> nat, ghost givenUp: nat -> bool)
      returns (rounds: seq<Round>, exit: Exit, last: nat)
    requires policy.attempts >= 1 && max >= 1
    requires forall k: nat :: length(k) == Calls(node.calls, k, policy.attempts, policy.retryIf)
    requires forall k: nat :: givenUp(k) == Abandoned(node, k)
    ensures rounds == Rounds(length, givenUp, max, 0, 1) && last == rounds[|rounds| - 1].Last()
    ensures exit != Continue
    ensures exit.Break? ==> Settled(node, last) == Verdict(exit.receipt)
    ensures exit.Rethrow? ==> Settled(node, last) == exit.result
  {
    hide Calls, Abandoned, Settled, Rounds;
    rounds, exit, last := [], Continue, 0;
    var used: nat, attempt: nat := 0, 1;
    ghost var all := Rounds(length, givenUp, max, used, attempt);
    while attempt <= max
      invariant 1 <= attempt <= max
      invariant all == rounds + Rounds(length, givenUp, max, used, attempt)
      decreases max - attempt
    {
      var n;
      n, exit := Turn(node, policy, used, attempt < max);
      NextRound(length, givenUp, max, rounds, used, attempt);
      assert n == length(used);
      last := used + n - 1;
      assert givenUp(last) == Abandoned(node, last);
      rounds := rounds + [Round(used, n)];
      used := used + n;
      if exit != Continue { return; }
      attempt := attempt + 1;
    }
  }

  method SubmitTx(node: Node) returns (res: Submitted, rounds: seq<Round>)
    ensures Submission(res, rounds) == Submit(node)
  {
    var exit, last;
    rounds, exit, last := SubmitLoop(node, TX_POLICY, MAX_DISPLACED_RETRIES, RoundLength(node), GivenUp(node));
    match exit {
      case Rethrow(failure) => res := failure;
      case Break(receipt) =>
        if receipt == None { return NoReceipt, rounds; }
        res := if receipt.value.status == 1 then Mined(receipt.value) else BadStatus(receipt.value);
    }
  }

  lemma NextRound(length: nat -> nat, givenUp: nat -> bool, max: nat, done: seq<Round>, from: nat, attempt: nat)
    requires 1 <= attempt <= max
    ensures var round := Round(from, length(from));
            done + Rounds(length, givenUp, max, from, attempt) ==
            if attempt < max && givenUp(round.Last())
            then (done + [round]) + Rounds(length, givenUp, max, from + round.calls, attempt + 1)
            else done + [round]
  {
  }

  // ---------------------------------------------------------- what it bounds

  function TotalCalls(rounds: seq<Round>): nat {
    if rounds == [] then 0 else rounds[0].calls + TotalCalls(rounds[1..])
  }

  /** Time spent asleep between factory calls or waiting for receipts. */
  function TotalMs(node: Node, rounds: seq<Round>): nat {
    if rounds == [] then 0
    else RoundMs(node, rounds[0]) + TotalMs(node, rounds[1..])
  }

  function RoundMs(node: Node, r: Round): nat {
    if r.calls == 0 then 0
    else RETRY_DELAY_MS * (r.calls - 1) + if node.calls(r.Last()).Returned? then WaitMs(node.waits(r.Last())) else 0
  }

  /** Each round starts where the one before stopped, and makes the calls its retry allows. */
  predicate Consecutive(length: nat -> nat, rounds: seq<Round>, from: nat) {
    rounds == [] || (rounds[0] == Round(from, length(from)) && Consecutive(length, rounds[1..], from + rounds[0].calls))
  }

  /** All rounds but the last gave up an accepted response; only a last permitted turn can end in that way. */
  predicate OnlyLastSettles(givenUp: nat -> bool, max: nat, rounds: seq<Round>, attempt: nat) {
    rounds != [] &&
    if |rounds| == 1 then givenUp(rounds[0].Last()) ==> attempt == max
    else givenUp(rounds[0].Last()) && OnlyLastSettles(givenUp, max, rounds[1..], attempt + 1)
  }

  lemma {:induction false} RoundsShape(length: nat -> nat, givenUp: nat -> bool, max: nat, from: nat, attempt: nat)
    requires 1 <= attempt <= max
    ensures var rs := Rounds(length, givenUp, max, from, attempt);
            && |rs| <= max + 1 - attempt
            && Consecutive(length, rs, from)
            && OnlyLastSettles(givenUp, max, rs, attempt)
    decreases max - attempt
  {
    var rs, round := Rounds(length, givenUp, max, from, attempt), Round(from, length(from));
    if attempt < max && givenUp(round.Last()) {
      RoundsShape(length, givenUp, max, from + round.calls, attempt + 1);
      assert rs[1..] == Rounds(length, givenUp, max, from + round.calls, attempt + 1);
    } else {
      assert rs[1..] == [];
    }
  }

  lemma {:induction false} RoundsBound(node: Node, rounds: seq<Round>, from: nat)
    requires Consecutive(RoundLength(node), rounds, from)
    ensures TotalCalls(rounds) <= 5 * |rounds| && TotalMs(node, rounds) <= 17000 * |rounds|
  {
    if rounds == [] {
    } else {
      RoundsBound(node, rounds[1..], from + rounds[0].calls);
    }
  }

  /**
    `submitTx` makes at most 5 rounds, 25 factory calls, and 85 seconds of sleeps and receipt
    waits; every round but the last had its response abandoned for a timeout or a replacement,
    and only a fifth such round ends the submission.
   */
  lemma SubmitBounds(node: Node)
    ensures var s := Submit(node);
            && 1 <= |s.rounds| <= 5
            && TotalCalls(s.rounds) <= 25
            && TotalMs(node, s.rounds) <= 85000
            && Consecutive(RoundLength(node), s.rounds, 0)
            && OnlyLastSettles(GivenUp(node), MAX_DISPLACED_RETRIES, s.rounds, 1)
  {
    RoundsShape(RoundLength(node), GivenUp(node), MAX_DISPLACED_RETRIES, 0, 1);
    RoundsBound(node, Submit(node).rounds, 0);
  }

  /** The node on which every bound is reached: four nonce errors, then a response that is never mined, for ever. */
  function StubbornNode(): Node {
    Node(k => if k % 5 == 4 then Returned("0x") else Threw(Err(NonceTrouble, "", "", "")), k => Hangs)
  }

  lemma StubbornRound(from: nat)
    requires from % 5 == 0
    ensures RoundLength(StubbornNode())(from) == 5
    ensures GivenUp(StubbornNode())(from + 4) && RoundMs(StubbornNode(), Round(from, 5)) == 17000
  {
    var node := StubbornNode();
    CallsCharacterised(node.calls, from, TX_POLICY.attempts, TX_POLICY.retryIf);
    assert (from + 1) % 5 == 1 && (from + 2) % 5 == 2 && (from + 3) % 5 == 3 && (from + 4) % 5 == 4;
    var n := Calls(node.calls, from, TX_POLICY.attempts, TX_POLICY.retryIf);
    assert node.calls(from + n - 1).Returned? <==> n == 5;
  }

  lemma {:induction false} UniformRounds(node: Node, length: nat -> nat, givenUp: nat -> bool, max: nat, from: nat, attempt: nat)
    requires from % 5 == 0 && 1 <= attempt <= max
    requires forall k: nat :: k % 5 == 0 ==> length(k) == 5 && givenUp(k + 4)
    requires forall k: nat :: k % 5 == 0 ==> RoundMs(node, Round(k, 5)) == 17000
    ensures var rs, left := Rounds(length, givenUp, max, from, attempt), max + 1 - attempt;
            TotalCalls(rs) == 5 * left && TotalMs(node, rs) == 17000 * left
    decreases max - attempt
  {
    var rs := Rounds(length, givenUp, max, from, attempt);
    assert length(from) == 5 && givenUp(from + 4) && Round(from, 5).Last() == from + 4;
    if attempt < max {
      UniformRounds(node, length, givenUp, max, from + 5, attempt + 1);
      assert rs[1..] == Rounds(length, givenUp, max, from + 5, attempt + 1);
    } else {
      assert rs == [Round(from, 5)] && rs[1..] == [];
    }
  }

  /** The bounds of 25 calls and 85 seconds are attained. */
  lemma SubmitBoundsTight()
    ensures TotalCalls(Submit(StubbornNode()).rounds) == 25
    ensures TotalMs(StubbornNode(), Submit(StubbornNode()).rounds) == 85000
  {
    forall k: nat | k % 5 == 0
      ensures RoundLength(StubbornNode())(k) == 5 && GivenUp(StubbornNode())(k + 4)
      ensures RoundMs(StubbornNode(), Round(k, 5)) == 17000
    {
      StubbornRound(k);
    }
    UniformRounds(StubbornNode(), RoundLength(StubbornNode()), GivenUp(StubbornNode()), MAX_DISPLACED_RETRIES, 0, 1);
  }

  // --------------------------------------------------------- what it returns

  /**
    The result is decided by the last factory call alone: a receipt is returned only with status 1,
    and "No receipt" is thrown exactly when that call's wait resolves to nothing in time.
   */
  lemma SubmitResult(node: Node)
    ensures var s := Submit(node);
            s.rounds != [] &&
            var last := s.rounds[|s.rounds| - 1].Last();
            var inTime := node.calls(last).Returned? && !TimesOut(node.waits(last)) && node.waits(last).Resolves?;
            && (s.result.Mined? ==> s.result.receipt.status == 1)
            && (s.result == NoReceipt <==> inTime && node.waits(last).receipt == None)
            && (s.result.Mined? <==> inTime && node.waits(last).receipt == Some(Receipt(1)))
            && (s.result.BadStatus? <==> inTime && node.waits(last).receipt.Some? && node.waits(last).receipt.value.status != 1)
  {
  }

  // ------------------------------------------------ where sendTx and submitTx part

  lemma {:induction false} RoundsGoOn(length: nat -> nat, givenUp: nat -> bool, max: nat, from: nat, attempt: nat, i: nat)
    requires 1 <= attempt <= max && i < |Rounds(length, givenUp, max, from, attempt)|
    ensures var rs := Rounds(length, givenUp, max, from, attempt);
            i + 1 < |rs| <==> attempt + i < max && givenUp(rs[i].Last())
    decreases max - attempt
  {
    var rs, round := Rounds(length, givenUp, max, from, attempt), Round(from, length(from));
    if i == 0 {
    } else {
      RoundsGoOn(length, givenUp, max, from + round.calls, attempt + 1, i - 1);
      assert rs[1..] == Rounds(length, givenUp, max, from + round.calls, attempt + 1);
    }
  }

  /** `submitTx` makes another round exactly when fewer than five were made and the last response was given up. */
  lemma SubmitGoesOnExactly(node: Node, i: nat)
    requires i < |Submit(node).rounds|
    ensures i + 1 < |Submit(node).rounds| <==> i < 4 && Abandoned(node, Submit(node).rounds[i].Last())
  {
    RoundsGoOn(RoundLength(node), GivenUp(node), MAX_DISPLACED_RETRIES, 0, 1, i);
  }

  /** The last call of the first round: the first response, if there is one. */
  function FirstCall(node: Node): nat {
    RoundLength(node)(0) - 1
  }

  lemma CallsAtLeast<T>(fn: nat -> Outcome<T>, attempts: nat, retryIf: Thrown -> bool, k: nat)
    requires k < attempts && forall j: nat :: j < k ==> !fn(j).Returned? && !GivesUp(fn(j), retryIf)
    ensures k < Calls(fn, 0, attempts, retryIf)
  {
    CallsCharacterised(fn, 0, attempts, retryIf);
  }

  lemma FirstCallReached(node: Node)
    ensures FirstCall(node) < SendCalls(node) && FirstCall(node) < 5
  {
    hide WorthRetrying, Calls;
    var fn, k := (j: nat) => SendOnce(node, j), FirstCall(node);
    CallsCharacterised(node.calls, 0, TX_POLICY.attempts, TX_POLICY.retryIf);
    forall j: nat | j < k
      ensures !fn(j).Returned? && !GivesUp(fn(j), TX_POLICY.retryIf)
    {
      assert !node.calls(j).Returned? && !GivesUp(node.calls(j), TX_POLICY.retryIf);
    }
    CallsAtLeast(fn, TX_POLICY.attempts, TX_POLICY.retryIf, k);
  }

  /** Up to the first response the two functions make the same calls. */
  lemma SameFirstCall(node: Node)
    ensures FirstCall(node) < SendCalls(node) && FirstCall(node) < 5
    ensures Submit(node).rounds[0] == Round(0, FirstCall(node) + 1)
    ensures !node.calls(FirstCall(node)).Returned? ==> SendCalls(node) == FirstCall(node) + 1 && |Submit(node).rounds| == 1
  {
    var k := FirstCall(node);
    FirstCallReached(node);
    CallsCharacterised(node.calls, 0, TX_POLICY.attempts, TX_POLICY.retryIf);
    SendGoesOnExactly(node, k);
    SubmitGoesOnExactly(node, 0);
  }

  /** The first response's wait brings an error before the timer fires. */
  predicate RejectsInTime(w: Waited) {
    !TimesOut(w) && w.Rejects?
  }

  /**
    What becomes of the first response, for every node.  `sendTx` sends again iff the wait rejects
    in time with something worth retrying, unless this was its fifth call; `submitTx` iff the timer
    fires or the wait rejects as replaced.  So one gives up where the other goes on exactly when the
    timer fires, or the wait rejects in time with an error that only one of the two retries.
   */
  lemma TheyPartExactly(node: Node)
    requires HexHashes(node) && node.calls(FirstCall(node)).Returned?
    ensures var k, w := FirstCall(node), node.waits(FirstCall(node));
            var sends, submits := SendCalls(node) > k + 1, |Submit(node).rounds| > 1;
            && (sends <==> RejectsInTime(w) && k < 4 && Retryable(w.error))
            && (submits <==> TimesOut(w) || (RejectsInTime(w) && Displaced(w.error)))
            && (sends != submits <==>
                  TimesOut(w) || (RejectsInTime(w) && Displaced(w.error) != (k < 4 && Retryable(w.error))))
            && (!sends ==> SendResult(node) == SendOnce(node, k))
            && (!submits ==> Submit(node).result == Settled(node, k))
  {
    var k := FirstCall(node);
    SameFirstCall(node);
    SendGoesOnExactly(node, k);
    SubmitGoesOnExactly(node, 0);
    ReceiptTimeoutNotRetryable(node.calls(k).value);
  }

  /** A replaced first transaction is sent again by both, unless it took `sendTx` all its calls to get there. */
  lemma ReplacedTransaction(node: Node)
    requires HexHashes(node) && node.calls(FirstCall(node)).Returned?
    requires RejectsInTime(node.waits(FirstCall(node)))
    requires node.waits(FirstCall(node)).error.code == "TRANSACTION_REPLACED"
    ensures |Submit(node).rounds| > 1
    ensures SendCalls(node) > FirstCall(node) + 1 <==> FirstCall(node) < 4
  {
    TheyPartExactly(node);
  }

  /** A first transaction whose receipt never comes in time is made good by `submitTx` and lost by `sendTx`. */
  lemma DisplacedTransaction(node: Node, receipt: Receipt)
    requires HexHashes(node) && node.calls(FirstCall(node)).Returned? && node.calls(FirstCall(node) + 1).Returned?
    requires TimesOut(node.waits(FirstCall(node)))
    requires var w := node.waits(FirstCall(node) + 1); !TimesOut(w) && w.Resolves? && w.receipt == Some(receipt)
    requires receipt.status == 1
    ensures var k := FirstCall(node);
            && Submit(node) == Submission(Mined(receipt), [Round(0, k + 1), Round(k + 1, 1)])
            && SendResult(node) == Threw(ReceiptTimeoutError(node.calls(k).value)) && SendCalls(node) == k + 1
  {
    var k, length, givenUp, max := FirstCall(node), RoundLength(node), GivenUp(node), MAX_DISPLACED_RETRIES;
    FirstCallReached(node);
    SendStopsAtTimeout(node, k);
    assert length(0) == k + 1 && length(k + 1) == 1 && givenUp(k) && !givenUp(k + 1);
    TwoRounds(length, givenUp, max, k);
  }

  lemma TwoRounds(length: nat -> nat, givenUp: nat -> bool, max: nat, k: nat)
    requires max >= 2 && length(0) == k + 1 && length(k + 1) == 1 && givenUp(k) && !givenUp(k + 1)
    ensures Rounds(length, givenUp, max, 0, 1) == [Round(0, k + 1), Round(k + 1, 1)]
  {
    var n: nat := 2;
    assert Rounds(length, givenUp, max, k + 1, n) == [Round(k + 1, 1)];
  }

  /** A nonce error raised while waiting is the other way round: `sendTx` sends again if it may, `submitTx` fails. */
  lemma NonceErrorWhileWaiting(node: Node)
    requires HexHashes(node) && node.calls(FirstCall(node)).Returned? && RejectsInTime(node.waits(FirstCall(node)))
    requires var e := node.waits(FirstCall(node)).error; IsNonceError(e) && !Displaced(e)
    ensures SendCalls(node) > FirstCall(node) + 1 <==> FirstCall(node) < 4
    ensures Submit(node) ==
            Submission(Failed(node.waits(FirstCall(node)).error), [Round(0, FirstCall(node) + 1)])
  {
    TheyPartExactly(node);
    SameFirstCall(node);
    assert |Submit(node).rounds| == 1;
  }
}
