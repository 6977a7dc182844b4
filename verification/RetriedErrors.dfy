/**
  Which calls `sendTx` and `submitTx` make, and how they end, told from what the node does: error
  texts, codes and classes, and the time each receipt takes.
 */
module RetriedErrors {
  import opened Text
  import opened Errors
  import opened Submission

  /** One of the `fragments` occurs, in upper or lower case, in the message or, if there is none, in the reason. */
  ghost predicate TellsOf(e: Err, fragments: seq<string>) {
    exists p :: p in fragments && Contains(Lower(if e.message == "" then e.reason else e.message), p)
  }

  ghost predicate NonceTroubled(e: Err) {
    || e.class_ == NonceTrouble
    || e.code == "TRANSACTION_REPLACED"
    || TellsOf(e, ["nonce", "replacement transaction", "replacement fee too low", "transaction was replaced", "repriced",
                   "known transaction", "already known"])
  }

  ghost predicate NodeTroubled(e: Err) {
    || e.class_ == TransientRpc
    || e.code == "BAD_DATA"
    || TellsOf(e, ["invalid bytelike", "value=null", "missing trie node"])
  }

  lemma MentionsTells(e: Err, patterns: seq<string>, fragments: seq<string>)
    requires forall p :: p in patterns <==> p in fragments
    ensures Mentions(Told(e), patterns) <==> TellsOf(e, fragments)
  {
    if i :| 0 <= i < |patterns| && Includes(Told(e), patterns[i]) {
      IncludesExactly(Told(e), patterns[i]);
      assert patterns[i] in patterns && patterns[i] in fragments;
    }
    if p :| p in fragments && Contains(Told(e), p) {
      IncludesExactly(Told(e), p);
      var i :| 0 <= i < |patterns| && patterns[i] == p;
    }
  }

  /** What the two retry, by texts, codes and classes. */
  lemma RetriedExactly(e: Err)
    ensures IsNonceError(e) <==> NonceTroubled(e)
    ensures Retryable(e) <==> NonceTroubled(e) || NodeTroubled(e)
  {
    MentionsTells(e, NONCE_PATTERNS, ["nonce", "replacement transaction", "replacement fee too low", "transaction was replaced",
                                      "repriced", "known transaction", "already known"]);
    MentionsTells(e, TRANSIENT_PATTERNS, ["invalid bytelike", "value=null", "missing trie node"]);
  }

  // ------------------------------------------------------------ which calls

  /** The call is worth another: it threw, or its receipt's wait rejected in time, with one of those errors. */
  ghost predicate AskedAgain(o: Outcome<string>, w: Waited) {
    match o
    case Threw(e) => NonceTroubled(e) || NodeTroubled(e)
    case ThrewUndefined => false
    case Returned(_) => w.Rejects? && w.after < 15000 && (NonceTroubled(w.error) || NodeTroubled(w.error))
  }

  /** `sendTx` follows call `k` by another exactly when it was not the fifth and it is worth another. */
  lemma SendCallsExactly(node: Node, k: nat)
    requires HexHashes(node) && k < SendCalls(node)
    ensures k + 1 < SendCalls(node) <==> k < 4 && AskedAgain(node.calls(k), node.waits(k))
  {
    SendGoesOnExactly(node, k);
    match node.calls(k)
    case Threw(e) => RetriedExactly(e);
    case ThrewUndefined =>
    case Returned(hash) =>
      ReceiptTimeoutNotRetryable(hash);
      if node.waits(k).Rejects? { RetriedExactly(node.waits(k).error); }
  }

  lemma TimeoutHead()
    ensures "R" + TIMEOUT_TAIL == "Receipt timeout after 15000ms for tx "
  {
  }

  lemma TimeoutMessage(hash: string)
    ensures ReceiptTimeoutError(hash).message == "Receipt timeout after 15000ms for tx " + hash
  {
    TimeoutHead();
    Associative("R", TIMEOUT_TAIL, hash);
  }

  /** `sendTx` ends as its last call ends. */
  lemma SendEndsExactly(node: Node)
    ensures var k, r := SendCalls(node) - 1, SendResult(node);
            match node.calls(k)
            case Threw(e) => r == Threw(e)
            case ThrewUndefined => r == ThrewUndefined
            case Returned(hash) =>
              match node.waits(k)
              case Resolves(ms, receipt) => if ms < 15000 then r == Returned(receipt) else TimedOut(r, hash)
              case Rejects(ms, e) => if ms < 15000 then r == Threw(e) else TimedOut(r, hash)
              case Hangs => TimedOut(r, hash)
  {
    TimeoutMessage(if node.calls(SendCalls(node) - 1).Returned? then node.calls(SendCalls(node) - 1).value else "");
  }

  predicate TimedOut<T>(o: Outcome<T>, hash: string) {
    o == Threw(Err(ReceiptTimeout, "", "Receipt timeout after 15000ms for tx " + hash, ""))
  }

  lemma {:induction false} RoundStarts(length: nat -> nat, rounds: seq<Round>, from: nat, i: nat)
    requires Consecutive(length, rounds, from) && i < |rounds|
    ensures rounds[i] == Round(rounds[i].from, length(rounds[i].from))
    ensures rounds[i].from == if i == 0 then from else rounds[i - 1].from + rounds[i - 1].calls
  {
    if i > 0 { RoundStarts(length, rounds[1..], from + rounds[0].calls, i - 1); }
  }

  /** What a call threw, as the retry's condition is given it. */
  function ThrownBy<T>(o: Outcome<T>): Option<Err> {
    if o.Threw? then Some(o.error) else None
  }

  /** Any retry follows call `from + j` by another exactly when attempts are left and it threw what is retried for. */
  lemma AnyRetryExactly<T>(fn: nat -> Outcome<T>, from: nat, attempts: nat, retryIf: Thrown -> bool, j: nat)
    requires attempts >= 1 && j < Calls(fn, from, attempts, retryIf)
    ensures j + 1 < Calls(fn, from, attempts, retryIf) <==>
            j + 1 < attempts && !fn(from + j).Returned? && retryIf(ThrownBy(fn(from + j)))
  {
    hide Calls;
    CallsCharacterised(fn, from, attempts, retryIf);
    var n := Calls(fn, from, attempts, retryIf);
    if j + 1 < n {
      assert !fn(from + j).Returned? && !GivesUp(fn(from + j), retryIf);
    } else {
      assert n == j + 1;
    }
  }

  /** A retry of `submitTx` follows call `from + j` by another exactly when it was not the fifth and threw one of those errors. */
  lemma RetryGoesOnExactly(fn: nat -> Outcome<string>, from: nat, j: nat)
    requires j < Calls(fn, from, TX_POLICY.attempts, TX_POLICY.retryIf)
    ensures var o := fn(from + j);
            j + 1 < Calls(fn, from, TX_POLICY.attempts, TX_POLICY.retryIf) <==>
            j < 4 && o.Threw? && (NonceTroubled(o.error) || NodeTroubled(o.error))
  {
    hide Calls, NonceTroubled, NodeTroubled, IsNonceError, IsTransientRpcError;
    AnyRetryExactly(fn, from, TX_POLICY.attempts, TX_POLICY.retryIf, j);
    if fn(from + j).Threw? { RetriedExactly(fn(from + j).error); }
  }

  /** Where round `i` starts, and how many calls it makes. */
  lemma RoundAt(node: Node, i: nat)
    requires i < |Submit(node).rounds|
    ensures var rs := Submit(node).rounds;
            && rs[i].calls == Calls(node.calls, rs[i].from, TX_POLICY.attempts, TX_POLICY.retryIf)
            && rs[i].from == if i == 0 then 0 else rs[i - 1].from + rs[i - 1].calls
  {
    hide Submit, Calls;
    SubmitBounds(node);
    RoundStarts(RoundLength(node), Submit(node).rounds, 0, i);
  }

  /**
    Within a round, `submitTx` follows call `j` by another exactly when it was not the fifth and it
    threw one of those errors; each round starts with the call after the last of the round before.
   */
  lemma RoundCallsExactly(node: Node, i: nat, j: nat)
    requires i < |Submit(node).rounds| && j < Submit(node).rounds[i].calls
    ensures var rs := Submit(node).rounds;
            var o := node.calls(rs[i].from + j);
            && (j + 1 < rs[i].calls <==> j < 4 && o.Threw? && (NonceTroubled(o.error) || NodeTroubled(o.error)))
            && rs[i].from == if i == 0 then 0 else rs[i - 1].from + rs[i - 1].calls
  {
    hide Submit, Calls, NonceTroubled, NodeTroubled;
    RoundAt(node, i);
    RetryGoesOnExactly(node.calls, Submit(node).rounds[i].from, j);
  }

  /** The response was accepted, and its receipt came too late, never, or not at all because it was replaced. */
  predicate GoneMissing(o: Outcome<string>, w: Waited) {
    o.Returned? &&
    match w
    case Hangs => true
    case Resolves(ms, _) => ms >= 15000
    case Rejects(ms, e) => ms >= 15000 || e.code == "TRANSACTION_REPLACED" || e.class_ == ReceiptTimeout
  }

  /** `submitTx` makes another round exactly when this was not the fifth and its response went missing. */
  lemma RoundsExactly(node: Node, i: nat)
    requires i < |Submit(node).rounds|
    ensures var rs := Submit(node).rounds;
            rs[i].calls >= 1 &&
            var k := rs[i].from + rs[i].calls - 1;
            i + 1 < |rs| <==> i < 4 && GoneMissing(node.calls(k), node.waits(k))
  {
    hide Submit, Calls;
    SubmitGoesOnExactly(node, i);
    RoundAt(node, i);
  }

  /** What a submission whose last call had this outcome, and its response this wait, comes to. */
  ghost predicate EndsAs(o: Outcome<string>, w: Waited, r: Submitted) {
    match o
    case Threw(e) => r == Failed(e)
    case ThrewUndefined => r == FailedUndefined
    case Returned(hash) =>
      match w
      case Resolves(ms, receipt) =>
        if ms >= 15000 then FailedLate(r, hash)
        else if receipt == None then r == NoReceipt
        else if receipt.value.status == 1 then r == Mined(receipt.value)
        else r == BadStatus(receipt.value)
      case Rejects(ms, e) => if ms < 15000 then r == Failed(e) else FailedLate(r, hash)
      case Hangs => FailedLate(r, hash)
  }

  predicate FailedLate(r: Submitted, hash: string) {
    r == Failed(Err(ReceiptTimeout, "", "Receipt timeout after 15000ms for tx " + hash, ""))
  }

  lemma SettlesExactly(node: Node, k: nat)
    ensures EndsAs(node.calls(k), node.waits(k), Settled(node, k))
  {
    TimeoutMessage(if node.calls(k).Returned? then node.calls(k).value else "");
  }

  /** `submitTx` ends as the last call of its last round ends; a receipt is good only with status 1. */
  lemma SubmitEndsExactly(node: Node)
    ensures var s := Submit(node);
            s.rounds != [] && s.rounds[|s.rounds| - 1].calls >= 1 &&
            var last := s.rounds[|s.rounds| - 1];
            var k := last.from + last.calls - 1;
            EndsAs(node.calls(k), node.waits(k), s.result)
  {
    hide Calls, EndsAs, Settled;
    RoundAt(node, |Submit(node).rounds| - 1);
    SettlesExactly(node, Submit(node).rounds[|Submit(node).rounds| - 1].Last());
  }

  // ------------------------------------------------------------- on messages

  /** `shown` is `p`, some of its letters perhaps in capitals. */
  predicate Spells(shown: string, p: string) {
    |shown| == |p| &&
    forall i :: 0 <= i < |p| ==> shown[i] == p[i] || ('a' <= p[i] <= 'z' && shown[i] as int == p[i] as int - 32)
  }

  lemma SpelledTold(e: Err, pre: string, shown: string, post: string, p: string, fragments: seq<string>)
    requires (if e.message == "" then e.reason else e.message) == pre + shown + post
    requires Spells(shown, p) && p in fragments && forall i :: 0 <= i < |p| ==> !('A' <= p[i] <= 'Z')
    ensures TellsOf(e, fragments)
  {
    var text := pre + shown + post;
    var l := Lower(text);
    assert l == l[..|pre|] + p + l[|pre| + |p|..] by {
      forall i | 0 <= i < |p|
        ensures l[|pre| + i] == p[i]
      {
        assert text[|pre| + i] == shown[i];
        LowerExactly(text, |pre| + i);
      }
    }
    assert Contains(l, p);
  }

  /** The ten fragments that make an error worth retrying. */
  const FRAGMENTS := ["nonce", "replacement transaction", "replacement fee too low", "transaction was replaced", "repriced",
                      "known transaction", "already known", "invalid bytelike", "value=null", "missing trie node"]

  lemma FragmentsSplit(e: Err)
    ensures TellsOf(e, FRAGMENTS) <==>
            TellsOf(e, ["nonce", "replacement transaction", "replacement fee too low", "transaction was replaced", "repriced",
                        "known transaction", "already known"]) ||
            TellsOf(e, ["invalid bytelike", "value=null", "missing trie node"])
  {
    hide Contains, Lower;
    var a := ["nonce", "replacement transaction", "replacement fee too low", "transaction was replaced", "repriced",
              "known transaction", "already known"];
    var b := ["invalid bytelike", "value=null", "missing trie node"];
    assert FRAGMENTS == a + b;
    assert forall p :: p in FRAGMENTS <==> p in a || p in b;
  }

  lemma NoCapitals(p: string)
    requires p in FRAGMENTS
    ensures forall i :: 0 <= i < |p| ==> !('A' <= p[i] <= 'Z')
  {
  }

  /**
    An ordinary error is retried for its text alone: with one of the ten fragments anywhere in its
    message, in whatever case, or in its reason if it has no message, both functions call again;
    without, and without one of the two codes, each stops after this one call with that error.
   */
  lemma FirstErrorByText(node: Node, e: Err, pre: string, shown: string, post: string, p: string)
    requires node.calls(0) == Threw(e) && e.class_ == Plain
    ensures p in FRAGMENTS && Spells(shown, p) && (if e.message == "" then e.reason else e.message) == pre + shown + post ==>
              SendCalls(node) > 1 && Submit(node).rounds[0].calls > 1
    ensures e.code != "TRANSACTION_REPLACED" && e.code != "BAD_DATA" && !TellsOf(e, FRAGMENTS) ==>
              && SendCalls(node) == 1 && SendResult(node) == Threw(e)
              && Submit(node) == Submission(Failed(e), [Round(0, 1)])
  {
    SendGoesOnExactly(node, 0);
    RoundCallsExactly(node, 0, 0);
    SubmitGoesOnExactly(node, 0);
    RetriedExactly(e);
    FragmentsSplit(e);
    if p in FRAGMENTS && Spells(shown, p) && (if e.message == "" then e.reason else e.message) == pre + shown + post {
      NoCapitals(p);
      SpelledTold(e, pre, shown, post, p, FRAGMENTS);
    }
  }
}
