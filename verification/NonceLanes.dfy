/** Signing runs of transactions with consecutive nonces and sending them in chunks. */
module NonceLanes {
  import opened Text

  datatype RawTx = RawTx(payload: string, nonce: nat)

  /** The same call signed for `count` consecutive nonces. */
  function Lane(payload: string, start: nat, count: nat): (txs: seq<RawTx>)
    ensures |txs| == count && forall i :: 0 <= i < count ==> txs[i] == RawTx(payload, start + i)
  {
    seq(count, i requires i >= 0 => RawTx(payload, start + i))
  }

  method SignBatch(txCount: nat, payload: string, startNonce: nat) returns (signed: seq<RawTx>)
    ensures signed == Lane(payload, startNonce, txCount)
  {
    signed := [];
    var nonce := startNonce;
    for i := 0 to txCount
      invariant nonce == startNonce + i
      invariant signed == Lane(payload, startNonce, i)
    {
      signed := signed + [RawTx(payload, nonce)];
      nonce := nonce + 1;
    }
  }

  // -------------------------------------------------------- chunked sending

  /** A JSON-RPC batch either fails as a whole or yields one error message per transaction, empty for none. */
  datatype Reply = Results(errors: seq<string>) | TransportError(message: string)

  /** The pending nonce at each attempt, and the reply to each chunk ever sent. */
  datatype Node = Node(pending: nat -> nat, replies: nat -> Reply)

  const NONCE_CONFLICT := "Batch nonce conflict \U{2014} will re-sign and retry"

  predicate HasNonceError(errors: seq<string>) {
    exists i :: 0 <= i < |errors| && IsNonceMessage(errors[i])
  }

  predicate IsNonceMessage(message: string) {
    Includes(Lower(message), "nonce") || Includes(Lower(message), "replacement transaction")
  }

  /** The error a chunk's reply raises, if any. */
  function Raised(reply: Reply): Option<string> {
    match reply
    case Results(errors) => if HasNonceError(errors) then Some(NONCE_CONFLICT) else None
    case TransportError(message) => Some(message)
  }

  /** Chunks sent in one attempt, and the error that ended it, if any. */
  datatype Attempt = Attempt(nonce: nat, sent: seq<seq<RawTx>>, raised: Option<string>)

  function ChunkEnd(txs: seq<RawTx>, i: nat, size: nat): (e: nat)
    requires i <= |txs|
    ensures i <= e <= |txs|
  {
    if i + size <= |txs| then i + size else |txs|
  }

  datatype Burst = Burst(sent: seq<seq<RawTx>>, raised: Option<string>)

  /** Sending `txs` from position `i` on, when `k` chunks have been sent before. */
  function SendChunks(raised: nat -> Option<string>, txs: seq<RawTx>, size: nat, i: nat, k: nat): Burst
    requires size >= 1 && i <= |txs|
    decreases |txs| - i
  {
    if i == |txs| then Burst([], None)
    else
      var chunk := txs[i..ChunkEnd(txs, i, size)];
      if raised(k).Some? then Burst([chunk], raised(k))
      else
        Preceded([chunk], SendChunks(raised, txs, size, ChunkEnd(txs, i, size), k + 1))
  }

  function Preceded(sent: seq<seq<RawTx>>, rest: Burst): Burst {
    Burst(sent + rest.sent, rest.raised)
  }

  function ReplyError(node: Node): nat -> Option<string> {
    (k: nat) => Raised(node.replies(k))
  }

  /** Attempt number `n`, when `k` chunks have been sent before: fetch the nonce, sign, send. */
  function AttemptAt(node: Node, raised: nat -> Option<string>, payload: string, count: nat, size: nat, n: nat, k: nat): Attempt
    requires size >= 1
  {
    var burst := SendChunks(raised, Lane(payload, node.pending(n), count), size, 0, k);
    Attempt(node.pending(n), burst.sent, burst.raised)
  }

  /** The attempts from number `n` on. */
  function Attempts(node: Node, raised: nat -> Option<string>, payload: string, count: nat, size: nat, max: nat,
                    n: nat, k: nat): (log: seq<Attempt>)
    requires size >= 1 && 1 <= n <= max
    ensures log != []
    decreases max - n
  {
    var a := AttemptAt(node, raised, payload, count, size, n, k);
    if a.raised == Some(NONCE_CONFLICT) && n < max then
      [a] + Attempts(node, raised, payload, count, size, max, n + 1, k + |a.sent|)
    else [a]
  }

  datatype Config = Config(batchSize: nat, maxAttempts: nat)

  const BATCH_CONFIG := Config(100, 5)

  function SendLog(node: Node, payload: string, count: nat): (log: seq<Attempt>)
    ensures log != []
  {
    Attempts(node, ReplyError(node), payload, count, BATCH_CONFIG.batchSize, BATCH_CONFIG.maxAttempts, 1, 0)
  }

  /** One attempt: slice, send, and stop at the first reply that raises. */
  method SendAttempt(node: Node, ghost raised: nat -> Option<string>, txs: seq<RawTx>, size: nat, k: nat)
      returns (sent: seq<seq<RawTx>>, error: Option<string>)
    requires size >= 1 && forall j: nat :: raised(j) == Raised(node.replies(j))
    ensures Burst(sent, error) == SendChunks(raised, txs, size, 0, k)
  {
    sent, error := [], None;
    var i := 0;
    assert forall rest: Burst :: Preceded([], rest) == rest;
    while i < |txs|
      invariant i <= |txs|
      invariant SendChunks(raised, txs, size, 0, k) == Preceded(sent, SendChunks(raised, txs, size, i, k + |sent|))
    {
      var end := ChunkEnd(txs, i, size);
      var results := node.replies(k + |sent|);
      assert raised(k + |sent|) == Raised(results);
      Associative(sent, [txs[i..end]], SendChunks(raised, txs, size, end, k + |sent| + 1).sent);
      sent := sent + [txs[i..end]];
      match results {
        case TransportError(message) => return sent, Some(message);
        case Results(errors) =>
          if HasNonceError(errors) { return sent, Some(NONCE_CONFLICT); }
      }
      i := end;
    }
  }

  /** The whole retry: each attempt fetches the pending nonce and signs afresh. */
  method SendBatchTransactions(node: Node, payload: string, count: nat) returns (error: Option<string>, log: seq<Attempt>)
    ensures log == SendLog(node, payload, count)
    ensures error == log[|log| - 1].raised
  {
    error, log := SendLoop(node, ReplyError(node), payload, count, BATCH_CONFIG.batchSize, BATCH_CONFIG.maxAttempts);
  }

  method SendLoop(node: Node, ghost raised: nat -> Option<string>, payload: string, count: nat, size: nat, max: nat)
      returns (error: Option<string>, log: seq<Attempt>)
    requires size >= 1 && max >= 1 && forall j: nat :: raised(j) == Raised(node.replies(j))
    ensures log == Attempts(node, raised, payload, count, size, max, 1, 0)
    ensures error == log[|log| - 1].raised
  {
    hide AttemptAt, Attempts;
    log := [];
    error := None;
    var k: nat := 0;
    var i := 1;
    ghost var all := Attempts(node, raised, payload, count, size, max, i, k);
    while i <= max
      invariant 1 <= i <= max
      invariant all == log + Attempts(node, raised, payload, count, size, max, i, k)
      decreases max - i
    {
      var a := RunAttempt(node, raised, payload, count, size, i, k);
      NextAttempt(node, raised, payload, count, size, max, log, i, k);
      log := log + [a];
      error := a.raised;
      k := k + |a.sent|;
      if a.raised != Some(NONCE_CONFLICT) || i >= max { return; }
      i := i + 1;
    }
  }

  /** The body of the retry: the nonce is fetched and the run signed anew each time. */
  method RunAttempt(node: Node, ghost raised: nat -> Option<string>, payload: string, count: nat, size: nat, n: nat, k: nat)
      returns (a: Attempt)
    requires size >= 1 && forall j: nat :: raised(j) == Raised(node.replies(j))
    ensures a == AttemptAt(node, raised, payload, count, size, n, k)
  {
    var currentNonce := node.pending(n);
    var transactions := SignBatch(count, payload, currentNonce);
    var sent, error := SendAttempt(node, raised, transactions, size, k);
    a := Attempt(currentNonce, sent, error);
  }

  lemma NextAttempt(node: Node, raised: nat -> Option<string>, payload: string, count: nat, size: nat, max: nat,
                    done: seq<Attempt>, n: nat, k: nat)
    requires size >= 1 && 1 <= n <= max
    ensures var a := AttemptAt(node, raised, payload, count, size, n, k);
            done + Attempts(node, raised, payload, count, size, max, n, k) ==
            if a.raised == Some(NONCE_CONFLICT) && n < max
            then (done + [a]) + Attempts(node, raised, payload, count, size, max, n + 1, k + |a.sent|)
            else done + [a]
  {
  }

  // ---------------------------------------------------------- what was sent

  function Flatten(chunks: seq<seq<RawTx>>): seq<RawTx> {
    if chunks == [] then [] else chunks[0] + Flatten(chunks[1..])
  }

  /** `chunks` are the first whole chunks of `txs` from position `i`: full ones, except that the list's end may cut the last. */
  ghost predicate LeadingChunks(chunks: seq<seq<RawTx>>, txs: seq<RawTx>, size: nat, i: nat)
    requires size >= 1 && i <= |txs|
  {
    chunks == [] ||
    (i < |txs| && chunks[0] == txs[i..ChunkEnd(txs, i, size)] && LeadingChunks(chunks[1..], txs, size, ChunkEnd(txs, i, size)))
  }

  /** No reply from number `k` up to `e` raised an error. */
  ghost predicate CleanUntil(raised: nat -> Option<string>, k: nat, e: nat) {
    forall m: nat :: k <= m < e ==> raised(m) == None
  }

  lemma {:induction false} SendChunksExact(raised: nat -> Option<string>, txs: seq<RawTx>, size: nat, i: nat, k: nat)
    requires size >= 1 && i <= |txs|
    ensures var b := SendChunks(raised, txs, size, i, k);
            && LeadingChunks(b.sent, txs, size, i)
            && (b.raised == None ==> Flatten(b.sent) == txs[i..] && CleanUntil(raised, k, k + |b.sent|))
            && (b.raised != None ==> b.sent != [] && b.raised == raised(k + |b.sent| - 1) && CleanUntil(raised, k, k + |b.sent| - 1))
    decreases |txs| - i
  {
    if i < |txs| {
      var e := ChunkEnd(txs, i, size);
      var chunk := txs[i..e];
      if raised(k) == None {
        SendChunksExact(raised, txs, size, e, k + 1);
        var rest := SendChunks(raised, txs, size, e, k + 1);
        assert ([chunk] + rest.sent)[1..] == rest.sent;
        assert txs[i..] == chunk + txs[e..];
      } else {
        assert [chunk][1..] == [];
      }
    }
  }

  lemma {:induction false} LeadingIsPrefix(chunks: seq<seq<RawTx>>, txs: seq<RawTx>, size: nat, i: nat)
    requires size >= 1 && i <= |txs| && LeadingChunks(chunks, txs, size, i)
    ensures Flatten(chunks) <= txs[i..]
    ensures forall j :: 0 <= j < |chunks| ==> 1 <= |chunks[j]| <= size
  {
    if chunks == [] {
    } else {
      var e := ChunkEnd(txs, i, size);
      LeadingIsPrefix(chunks[1..], txs, size, e);
      assert txs[i..] == txs[i..e] + txs[e..];
      assert forall j :: 1 <= j < |chunks| ==> chunks[j] == chunks[1..][j - 1];
    }
  }

  /** Sends made over all attempts. */
  function TotalSent(log: seq<Attempt>): nat {
    if log == [] then 0 else |Flatten(log[0].sent)| + TotalSent(log[1..])
  }

  /** The replies to an attempt whose first chunk is number `k`: the last raised the attempt's error, the others none. */
  ghost predicate RepliesOk(raised: nat -> Option<string>, k: nat, a: Attempt) {
    if a.raised == None then CleanUntil(raised, k, k + |a.sent|)
    else a.sent != [] && a.raised == raised(k + |a.sent| - 1) && CleanUntil(raised, k, k + |a.sent| - 1)
  }

  /** Attempt number `n` signed from its own pending nonce, sent whole leading chunks, and stopped where a reply raised. */
  ghost predicate GoodAttempt(node: Node, raised: nat -> Option<string>, payload: string, count: nat, size: nat,
                              n: nat, k: nat, a: Attempt)
    requires size >= 1
  {
    && a.nonce == node.pending(n)
    && LeadingChunks(a.sent, Lane(payload, a.nonce, count), size, 0)
    && (a.raised == None ==> Flatten(a.sent) == Lane(payload, a.nonce, count))
    && RepliesOk(raised, k, a)
  }

  /** Attempts from number `n` on, chunk replies from number `k` on: all but the last end in a conflict, the last only at the limit. */
  ghost predicate GoodLog(node: Node, raised: nat -> Option<string>, payload: string, count: nat, size: nat, max: nat,
                          n: nat, k: nat, log: seq<Attempt>)
    requires size >= 1
    decreases |log|
  {
    && log != [] && n <= max
    && GoodAttempt(node, raised, payload, count, size, n, k, log[0])
    && if |log| == 1 then log[0].raised == Some(NONCE_CONFLICT) ==> n == max
       else log[0].raised == Some(NONCE_CONFLICT) &&
            GoodLog(node, raised, payload, count, size, max, n + 1, k + |log[0].sent|, log[1..])
  }

  lemma {:induction false} AttemptsExact(node: Node, raised: nat -> Option<string>, payload: string, count: nat, size: nat,
                                         max: nat, n: nat, k: nat)
    requires size >= 1 && 1 <= n <= max
    ensures GoodLog(node, raised, payload, count, size, max, n, k, Attempts(node, raised, payload, count, size, max, n, k))
    decreases max - n
  {
    hide SendChunks, LeadingChunks, CleanUntil;
    var log, a := Attempts(node, raised, payload, count, size, max, n, k), AttemptAt(node, raised, payload, count, size, n, k);
    var lane := Lane(payload, node.pending(n), count);
    SendChunksExact(raised, lane, size, 0, k);
    assert lane[0..] == lane;
    if a.raised == Some(NONCE_CONFLICT) && n < max {
      AttemptsExact(node, raised, payload, count, size, max, n + 1, k + |a.sent|);
      assert log[1..] == Attempts(node, raised, payload, count, size, max, n + 1, k + |a.sent|);
    }
  }

  lemma {:induction false} LogBounds(node: Node, raised: nat -> Option<string>, payload: string, count: nat, size: nat,
                                     max: nat, n: nat, k: nat, log: seq<Attempt>)
    requires size >= 1 && GoodLog(node, raised, payload, count, size, max, n, k, log)
    ensures |log| <= max + 1 - n && TotalSent(log) <= |log| * count
    ensures var last := log[|log| - 1];
            last.raised == None ==> Flatten(last.sent) == Lane(payload, node.pending(n + |log| - 1), count)
    decreases |log|
  {
    hide RepliesOk, LeadingChunks;
    LeadingIsPrefix(log[0].sent, Lane(payload, log[0].nonce, count), size, 0);
    if |log| > 1 {
      LogBounds(node, raised, payload, count, size, max, n + 1, k + |log[0].sent|, log[1..]);
      assert |log| * count == |log[1..]| * count + count;
    }
  }

  ghost predicate LogOk(node: Node, raised: nat -> Option<string>, payload: string, count: nat, config: Config, log: seq<Attempt>)
    requires config.batchSize >= 1
  {
    && GoodLog(node, raised, payload, count, config.batchSize, config.maxAttempts, 1, 0, log)
    && |log| <= config.maxAttempts && TotalSent(log) <= config.maxAttempts * count
    && (log[|log| - 1].raised == None ==>
          Flatten(log[|log| - 1].sent) == Lane(payload, node.pending(|log|), count))
  }

  lemma AtMostTimes(a: nat, b: nat, count: nat)
    requires a <= b
    ensures a * count <= b * count
  {
  }

  /**
    A successful send put the complete run of `count` transactions, with the nonces from the
    pending one on and in order, on the wire in its last attempt, and no reply to it raised an
    error; every attempt sent only whole leading chunks of its own freshly signed run and stopped at
    the first reply that raised; earlier attempts all ended in a nonce conflict; and no more than
    5 * count transactions were sent in all.
   */
  lemma SendExact(node: Node, payload: string, count: nat)
    ensures LogOk(node, ReplyError(node), payload, count, BATCH_CONFIG, SendLog(node, payload, count))
  {
    hide GoodLog, Attempts;
    var raised, size, max, log := ReplyError(node), BATCH_CONFIG.batchSize, BATCH_CONFIG.maxAttempts, SendLog(node, payload, count);
    AttemptsExact(node, raised, payload, count, size, max, 1, 0);
    LogBounds(node, raised, payload, count, size, max, 1, 0, log);
    AtMostTimes(|log|, max, count);
  }

  // -------------------------------------------------- what the node accepted

  /** Chunks sent over all attempts. */
  function ChunksIn(log: seq<Attempt>): nat {
    if log == [] then 0 else |log[0].sent| + ChunksIn(log[1..])
  }

  /** How many transactions a reply accepts: those without an error message. */
  function Empties(errors: seq<string>): (n: nat)
    ensures n <= |errors|
  {
    if errors == [] then 0 else (if errors[0] == "" then 1 else 0) + Empties(errors[1..])
  }

  /** Accepted transactions of a chunk; `unseen` says how many when the transport failed after the fact. */
  function TookOf(reply: Reply, unseen: nat): nat {
    match reply
    case Results(errors) => Empties(errors)
    case TransportError(_) => unseen
  }

  function RefusedOf(reply: Reply): nat {
    match reply
    case Results(errors) => |errors| - Empties(errors)
    case TransportError(_) => 0
  }

  function Took(node: Node, unseen: nat -> nat): nat -> nat {
    (k: nat) => TookOf(node.replies(k), unseen(k))
  }

  function Refused(node: Node): nat -> nat {
    (k: nat) => RefusedOf(node.replies(k))
  }

  /** The sum of `f` over the chunks k, ..., k + n - 1. */
  function Over(f: nat -> nat, k: nat, n: nat): nat {
    if n == 0 then 0 else Over(f, k, n - 1) + f(k + n - 1)
  }

  lemma {:induction false} OverSplit(f: nat -> nat, a: nat, b: nat)
    ensures Over(f, 0, a + b) == Over(f, 0, a) + Over(f, a, b)
  {
    if b == 0 {
    } else {
      OverSplit(f, a, b - 1);
    }
  }

  lemma {:induction false} ChunksSnoc(log: seq<Attempt>, a: Attempt)
    ensures ChunksIn(log + [a]) == ChunksIn(log) + |a.sent|
  {
    if log == [] {
      assert [a][1..] == [];
    } else {
      ChunksSnoc(log[1..], a);
      assert (log + [a])[1..] == log[1..] + [a];
    }
  }

  /** Every one of these chunks, the first of which is number `k`, was replied to with one entry per transaction. */
  ghost predicate RepliedInFull(node: Node, k: nat, sent: seq<seq<RawTx>>) {
    forall j: nat :: j < |sent| && node.replies(k + j).Results? ==> |node.replies(k + j).errors| == |sent[j]|
  }

  lemma {:induction false} WholeSum(took: nat -> nat, refused: nat -> nat, k: nat, sent: seq<seq<RawTx>>)
    requires forall j: nat :: j < |sent| ==> took(k + j) + refused(k + j) == |sent[j]|
    ensures Over(took, k, |sent|) + Over(refused, k, |sent|) == |Flatten(sent)|
  {
    if sent == [] {
    } else {
      var n := |sent| - 1;
      WholeSum(took, refused, k, sent[..n]);
      FlattenSnoc(sent[..n], sent[n]);
      assert sent[..n] + [sent[n]] == sent;
      assert took(k + n) + refused(k + n) == |sent[n]|;
    }
  }

  lemma TakenOrRefused(node: Node, unseen: nat -> nat, k: nat, sent: seq<seq<RawTx>>)
    requires RepliedInFull(node, k, sent) && CleanUntil(ReplyError(node), k, k + |sent|)
    ensures Over(Took(node, unseen), k, |sent|) + Over(Refused(node), k, |sent|) == |Flatten(sent)|
  {
    hide HasNonceError, Flatten, Over;
    forall j: nat | j < |sent|
      ensures Took(node, unseen)(k + j) + Refused(node)(k + j) == |sent[j]|
    {
      assert ReplyError(node)(k + j) == None;
    }
    WholeSum(Took(node, unseen), Refused(node), k, sent);
  }

  /**
    The balances the suite waits for need exactly `count` accepted transactions.  A send can return
    without an error and still miss: an error other than a nonce conflict is not looked at, and what
    an aborted attempt had accepted counts again when the run is re-signed.  For every send that
    returns, whatever the node says: the number is right exactly when as many were accepted in the
    aborted attempts as were refused in the last.
   */
  lemma ExactlyOnceExactly(node: Node, unseen: nat -> nat, payload: string, count: nat)
    requires var log := SendLog(node, payload, count);
             log[|log| - 1].raised == None && RepliedInFull(node, ChunksIn(log[..|log| - 1]), log[|log| - 1].sent)
    ensures var log := SendLog(node, payload, count);
            var k, last := ChunksIn(log[..|log| - 1]), log[|log| - 1];
            Over(Took(node, unseen), 0, ChunksIn(log)) == count <==>
            Over(Took(node, unseen), 0, k) == Over(Refused(node), k, |last.sent|)
  {
    hide SendLog, ChunksIn, Over, Flatten, RepliedInFull, CleanUntil, GoodLog;
    var log := SendLog(node, payload, count);
    var n := |log| - 1;
    var k := ChunksIn(log[..n]);
    SendExact(node, payload, count);
    LastReplies(node, ReplyError(node), payload, count, BATCH_CONFIG, log);
    ChunksSnoc(log[..n], log[n]);
    assert log[..n] + [log[n]] == log;
    OverSplit(Took(node, unseen), k, |log[n].sent|);
    TakenOrRefused(node, unseen, k, log[n].sent);
  }

  lemma LastReplies(node: Node, raised: nat -> Option<string>, payload: string, count: nat, config: Config, log: seq<Attempt>)
    requires config.batchSize >= 1 && LogOk(node, raised, payload, count, config, log) && log[|log| - 1].raised == None
    ensures var k := ChunksIn(log[..|log| - 1]); CleanUntil(raised, k, k + |log[|log| - 1].sent|)
  {
    LastRepliesFrom(node, raised, payload, count, config.batchSize, config.maxAttempts, 1, 0, log);
  }

  lemma {:induction false} LastRepliesFrom(node: Node, raised: nat -> Option<string>, payload: string, count: nat, size: nat,
                                           max: nat, n: nat, k: nat, log: seq<Attempt>)
    requires size >= 1 && GoodLog(node, raised, payload, count, size, max, n, k, log) && log[|log| - 1].raised == None
    ensures var e := k + ChunksIn(log[..|log| - 1]); CleanUntil(raised, e, e + |log[|log| - 1].sent|)
    decreases |log|
  {
    hide LeadingChunks, CleanUntil;
    if |log| == 1 {
    } else {
      LastRepliesFrom(node, raised, payload, count, size, max, n + 1, k + |log[0].sent|, log[1..]);
      assert log[..|log| - 1][1..] == log[1..][..|log| - 2];
    }
  }

  // Two nodes on which a send returns and the number is wrong.

  lemma OneChunk(raised: nat -> Option<string>, txs: seq<RawTx>, size: nat, k: nat)
    requires 1 <= |txs| <= size
    ensures SendChunks(raised, txs, size, 0, k) == Burst([txs], raised(k))
  {
    assert txs[0..|txs|] == txs;
    var end: nat := |txs|;
    assert SendChunks(raised, txs, size, end, k + 1) == Burst([], None);
  }

  lemma NotNonce(message: string)
    requires 'o' !in Lower(message) && 'r' !in Lower(message)
    ensures !IsNonceMessage(message)
  {
    AbsentChar(Lower(message), "nonce", 1);
    AbsentChar(Lower(message), "replacement transaction", 0);
  }

  const NO_FUNDS := "insufficient funds"

  lemma NoFundsNotNonce()
    ensures !IsNonceMessage(NO_FUNDS) && !IsNonceMessage("")
  {
    LowerFixed(NO_FUNDS);
    NotNonce(NO_FUNDS);
    NotNonce("");
  }

  /** A transaction is refused for want of funds, and the send returns all the same. */
  lemma AllRefused(payload: string, unseen: nat -> nat)
    ensures var node := Node(n => 0, k => Results([NO_FUNDS]));
            && SendLog(node, payload, 1) == [Attempt(0, [Lane(payload, 0, 1)], None)]
            && Over(Took(node, unseen), 0, 1) == 0
  {
    var node := Node(n => 0, k => Results([NO_FUNDS]));
    var raised, size, max, count := ReplyError(node), BATCH_CONFIG.batchSize, BATCH_CONFIG.maxAttempts, 1;
    NoFundsNotNonce();
    assert node.replies(0) == Results([NO_FUNDS]) && !HasNonceError([NO_FUNDS]);
    assert raised(0) == None;
    OneChunk(raised, Lane(payload, 0, count), size, 0);
    assert [NO_FUNDS][1..] == [] && Empties([NO_FUNDS]) == 0;
  }

  const TOO_LOW := "nonce too low"

  function ConflictNode(): Node {
    Node(n => n, k => if k == 0 then Results(["", TOO_LOW]) else Results(["", ""]))
  }

  lemma ConflictReplies()
    ensures ReplyError(ConflictNode())(0) == Some(NONCE_CONFLICT) && ReplyError(ConflictNode())(1) == None
  {
    var node := ConflictNode();
    LowerFixed(TOO_LOW);
    assert OccursAt(Lower(TOO_LOW), "nonce", 0);
    assert IsNonceMessage(["", TOO_LOW][1]);
    NoFundsNotNonce();
    assert node.replies(0) == Results(["", TOO_LOW]) && HasNonceError(["", TOO_LOW]);
    assert node.replies(1) == Results(["", ""]) && !HasNonceError(["", ""]);
  }

  lemma EmptiesOfTwo(a: string, b: string)
    ensures Empties([a, b]) == (if a == "" then 1 else 0) + if b == "" then 1 else 0
  {
    assert [a, b][1..] == [b] && [b][1..] == [];
  }

  lemma ConflictTook(unseen: nat -> nat)
    ensures Over(Took(ConflictNode(), unseen), 0, 2) == 3
  {
    hide Empties;
    var node, took := ConflictNode(), Took(ConflictNode(), unseen);
    EmptiesOfTwo("", TOO_LOW);
    EmptiesOfTwo("", "");
    assert node.replies(0) == Results(["", TOO_LOW]) && node.replies(1) == Results(["", ""]);
    assert took(0) == 1 && took(1) == 2;
    assert Over(took, 0, 1) == 1;
  }

  /** The first of two transactions is accepted, the second conflicts: both are sent again, and three are accepted for two. */
  lemma AcceptedTwice(payload: string, unseen: nat -> nat)
    ensures SendLog(ConflictNode(), payload, 2) ==
            [Attempt(1, [Lane(payload, 1, 2)], Some(NONCE_CONFLICT)), Attempt(2, [Lane(payload, 2, 2)], None)]
    ensures Over(Took(ConflictNode(), unseen), 0, 2) == 3
  {
    hide ReplyError, SendChunks;
    var node, raised, count := ConflictNode(), ReplyError(ConflictNode()), 2;
    var size, max := BATCH_CONFIG.batchSize, BATCH_CONFIG.maxAttempts;
    ConflictReplies();
    ConflictTook(unseen);
    OneChunk(raised, Lane(payload, 1, count), size, 0);
    OneChunk(raised, Lane(payload, 2, count), size, 1);
    TwoAttempts(node, raised, payload, count, size, max);
  }

  lemma TwoAttempts(node: Node, raised: nat -> Option<string>, payload: string, count: nat, size: nat, max: nat)
    requires size >= 1 && max >= 2
    requires var a := AttemptAt(node, raised, payload, count, size, 1, 0);
             a.raised == Some(NONCE_CONFLICT) && |a.sent| == 1
    requires AttemptAt(node, raised, payload, count, size, 2, 1).raised == None
    ensures Attempts(node, raised, payload, count, size, max, 1, 0) ==
            [AttemptAt(node, raised, payload, count, size, 1, 0), AttemptAt(node, raised, payload, count, size, 2, 1)]
  {
    var n: nat := 2;
    assert Attempts(node, raised, payload, count, size, max, n, 1) == [AttemptAt(node, raised, payload, count, size, n, 1)];
  }

  /** A clean reply to a chunk mentions neither a nonce nor a replacement in any of its errors. */
  lemma NoErrorMeansClean(node: Node, k: nat)
    ensures ReplyError(node)(k) == None <==>
            node.replies(k).Results? && forall i :: 0 <= i < |node.replies(k).errors| ==> !IsNonceMessage(node.replies(k).errors[i])
  {
  }

  // --------------------------------------------------------- batch splitting

  function NumBatches(total: nat, size: nat): nat
    requires size >= 1
  {
    (total + size - 1) / size
  }

  lemma BatchCovers(total: nat, size: nat, b: nat)
    requires size >= 1
    ensures b < NumBatches(total, size) <==> b * size < total
  {
    var q, r := (total + size - 1) / size, (total + size - 1) % size;
    assert total + size - 1 == q * size + r;
    if b < q {
      assert (b + 1) * size <= q * size;
    } else {
      assert q * size <= b * size;
    }
  }

  /** How many transactions the first `b` batches hold. */
  function SentBy(total: nat, size: nat, b: nat): (n: nat)
    ensures n <= total
  {
    if b * size <= total then b * size else total
  }

  /** Batch number `b`: up to `size` transactions, numbered on from those before it. */
  function BatchAt(total: nat, size: nat, payload: string, startNonce: nat, b: nat): seq<RawTx> {
    var done := SentBy(total, size, b);
    Lane(payload, startNonce + done, if size <= total - done then size else total - done)
  }

  /** The performance loop: one signed batch after another with a running nonce. */
  method SplitBatches(total: nat, size: nat, payload: string, startNonce: nat) returns (batches: seq<seq<RawTx>>)
    requires size >= 1
    ensures |batches| == NumBatches(total, size)
    ensures forall b :: 0 <= b < |batches| ==> batches[b] == BatchAt(total, size, payload, startNonce, b)
  {
    batches := [];
    var currentNonce := startNonce;
    for batchIndex := 0 to NumBatches(total, size)
      invariant |batches| == batchIndex
      invariant currentNonce == startNonce + SentBy(total, size, batchIndex)
      invariant forall b :: 0 <= b < |batches| ==> batches[b] == BatchAt(total, size, payload, startNonce, b)
    {
      BatchCovers(total, size, batchIndex);
      var remaining := total - batchIndex * size;
      var currentBatchSize := if size <= remaining then size else remaining;
      var txs := SignBatch(currentBatchSize, payload, currentNonce);
      batches := batches + [txs];
      currentNonce := currentNonce + currentBatchSize;
      assert (batchIndex + 1) * size == batchIndex * size + size;
    }
  }

  lemma SentByAll(total: nat, size: nat)
    requires size >= 1
    ensures SentBy(total, size, NumBatches(total, size)) == total
  {
    BatchCovers(total, size, NumBatches(total, size));
  }

  lemma SentByNext(total: nat, size: nat, b: nat)
    requires size >= 1 && b < NumBatches(total, size)
    ensures var done := SentBy(total, size, b);
            done < total && SentBy(total, size, b + 1) == done + if size <= total - done then size else total - done
  {
    BatchCovers(total, size, b);
    assert (b + 1) * size == b * size + size;
  }

  /** The batches hold 1 to `size` transactions each and together are the whole run of nonces, in order. */
  lemma {:induction false} BatchesCoverRun(total: nat, size: nat, payload: string, startNonce: nat, batches: seq<seq<RawTx>>)
    requires size >= 1 && |batches| <= NumBatches(total, size)
    requires forall b :: 0 <= b < |batches| ==> batches[b] == BatchAt(total, size, payload, startNonce, b)
    ensures forall b :: 0 <= b < |batches| ==> 1 <= |batches[b]| <= size
    ensures Flatten(batches) == Lane(payload, startNonce, SentBy(total, size, |batches|))
    ensures |batches| == NumBatches(total, size) ==> Flatten(batches) == Lane(payload, startNonce, total)
  {
    if |batches| == NumBatches(total, size) { SentByAll(total, size); }
    if batches == [] {
    } else {
      hide NumBatches, SentBy;
      var n := |batches| - 1;
      SentByNext(total, size, n);
      BatchesCoverRun(total, size, payload, startNonce, batches[..n]);
      FlattenSnoc(batches[..n], batches[n]);
      assert batches[..n] + [batches[n]] == batches;
      LaneSplit(payload, startNonce, SentBy(total, size, n), |batches[n]|);
    }
  }

  lemma LaneSplit(payload: string, start: nat, a: nat, b: nat)
    ensures Lane(payload, start, a) + Lane(payload, start + a, b) == Lane(payload, start, a + b)
  {
  }

  lemma {:induction false} FlattenSnoc(chunks: seq<seq<RawTx>>, c: seq<RawTx>)
    ensures Flatten(chunks + [c]) == Flatten(chunks) + c
  {
    if chunks == [] {
      assert [c][1..] == [];
    } else {
      FlattenSnoc(chunks[1..], c);
      assert (chunks + [c])[1..] == chunks[1..] + [c];
    }
  }

  // ------------------------------------------------ sends, told from replies

  /** A message that speaks of a nonce or of a replacement transaction, in upper or lower case. */
  ghost predicate TellsConflict(message: string) {
    Contains(Lower(message), "nonce") || Contains(Lower(message), "replacement transaction")
  }

  lemma ConflictTold(message: string)
    ensures IsNonceMessage(message) <==> TellsConflict(message)
  {
    IncludesExactly(Lower(message), "nonce");
    IncludesExactly(Lower(message), "replacement transaction");
  }

  /** What a reply makes of its chunk: it fails as a whole, or some transaction's message tells of a conflict, or nothing. */
  lemma ReplyErrorExactly(node: Node, k: nat)
    ensures match node.replies(k)
            case TransportError(message) => ReplyError(node)(k) == Some(message)
            case Results(errors) =>
              ReplyError(node)(k) ==
              if exists m :: m in errors && TellsConflict(m) then Some("Batch nonce conflict \U{2014} will re-sign and retry") else None
  {
    if node.replies(k).Results? {
      var errors := node.replies(k).errors;
      if m :| m in errors && TellsConflict(m) {
        var i :| 0 <= i < |errors| && errors[i] == m;
        ConflictTold(errors[i]);
      }
      if i :| 0 <= i < |errors| && IsNonceMessage(errors[i]) {
        ConflictTold(errors[i]);
      }
    }
  }

  lemma {:induction false} LeadingAt(chunks: seq<seq<RawTx>>, txs: seq<RawTx>, size: nat, i: nat, j: nat)
    requires size >= 1 && i <= |txs| && LeadingChunks(chunks, txs, size, i) && j < |chunks|
    ensures var at := i + j * size; at < |txs| && chunks[j] == if at + size <= |txs| then txs[at..at + size] else txs[at..]
    decreases j
  {
    if j > 0 {
      LeadingAt(chunks[1..], txs, size, ChunkEnd(txs, i, size), j - 1);
      assert j * size == (j - 1) * size + size;
    }
  }

  lemma {:induction false} GoodAt(node: Node, raised: nat -> Option<string>, payload: string, count: nat, size: nat, max: nat,
                                  n: nat, k: nat, log: seq<Attempt>, a: nat)
    requires size >= 1 && GoodLog(node, raised, payload, count, size, max, n, k, log) && a < |log|
    ensures GoodAttempt(node, raised, payload, count, size, n + a, k + ChunksIn(log[..a]), log[a])
    ensures a + 1 < |log| <==> n + a < max && log[a].raised == Some(NONCE_CONFLICT)
    decreases a
  {
    hide GoodAttempt;
    if a > 0 {
      GoodAt(node, raised, payload, count, size, max, n + 1, k + |log[0].sent|, log[1..], a - 1);
      assert log[..a][1..] == log[1..][..a - 1];
    }
  }

  lemma LaneSlice(payload: string, start: nat, count: nat, lo: nat, hi: nat)
    requires lo <= hi <= count
    ensures Lane(payload, start, count)[lo..hi] == Lane(payload, start + lo, hi - lo)
  {
  }

  /** Chunk j of a run of `count` transactions from `nonce` on. */
  predicate ChunkIs(chunk: seq<RawTx>, payload: string, nonce: nat, count: nat, j: nat) {
    && 100 * j < count
    && chunk == Lane(payload, nonce + 100 * j, if 100 * j + 100 <= count then 100 else count - 100 * j)
  }

  lemma ChunkOfLane(sent: seq<seq<RawTx>>, payload: string, nonce: nat, count: nat, j: nat)
    requires LeadingChunks(sent, Lane(payload, nonce, count), BATCH_CONFIG.batchSize, 0) && j < |sent|
    ensures ChunkIs(sent[j], payload, nonce, count, j)
  {
    hide LeadingChunks;
    var lane := Lane(payload, nonce, count);
    LeadingAt(sent, lane, BATCH_CONFIG.batchSize, 0, j);
    var hi := if 100 * j + 100 <= count then 100 * j + 100 else count;
    LaneSlice(payload, nonce, count, 100 * j, hi);
    assert lane[100 * j..] == lane[100 * j..count];
  }

  /**
    The whole send, told from nonces and replies: chunk j of attempt a holds the transactions
    numbered from 100 j up to 100 of the run signed from that attempt's pending nonce; and there is
    another attempt exactly when this was not the fifth and ended in a nonce conflict.
   */
  lemma SendLogExactly(node: Node, payload: string, count: nat, a: nat)
    requires a < |SendLog(node, payload, count)|
    ensures var log := SendLog(node, payload, count);
            var nonce := node.pending(a + 1);
            && log[a].nonce == nonce
            && (forall j: nat :: j < |log[a].sent| ==> ChunkIs(log[a].sent[j], payload, nonce, count, j))
            && (log[a].raised == None ==> Flatten(log[a].sent) == Lane(payload, nonce, count))
            && RepliesOk(ReplyError(node), ChunksIn(log[..a]), log[a])
            && (a + 1 < |log| <==> a < 4 && log[a].raised == Some("Batch nonce conflict \U{2014} will re-sign and retry"))
  {
    hide Attempts, LeadingChunks, RepliesOk, Flatten, ChunkIs;
    var raised, size, max, log := ReplyError(node), BATCH_CONFIG.batchSize, BATCH_CONFIG.maxAttempts, SendLog(node, payload, count);
    AttemptsExact(node, raised, payload, count, size, max, 1, 0);
    GoodAt(node, raised, payload, count, size, max, 1, 0, log, a);
    forall j: nat | j < |log[a].sent|
      ensures ChunkIs(log[a].sent[j], payload, log[a].nonce, count, j)
    {
      ChunkOfLane(log[a].sent, payload, log[a].nonce, count, j);
    }
  }
}
