/**
  Broadcasting template approvals from the registry to replicas: each change is stamped with its
  block, and a replica drops a message whose stamp is not newer than the last one it took.
 */
module Replica {
  import opened Text

  /** What is known about one template key. */
  datatype Template = Template(approved: bool, approvedAtBlock: nat)

  datatype Message = Message(key: string, template: Template)

  datatype Mirror = Mirror(template: Template, lastUpdatedAt: nat)

  const UNKNOWN := Template(false, 0)

  const FRESH := Mirror(UNKNOWN, 0)

  // --------------------------------------------------------------- registry

  /** Changes the operator makes.  A proposal settles nothing: it is not broadcast and approves nothing. */
  datatype Change = Propose(key: string) | Approve(key: string) | Seed(key: string) | Revoke(key: string)

  datatype Hub = Hub(templates: map<string, Template>, broadcast: seq<Message>)

  /** A change mined in block `block`. */
  function Submitted(h: Hub, change: Change, block: nat): Hub {
    if change.Propose? then h
    else
      var t := Template(!change.Revoke?, block);
      Hub(h.templates[change.key := t], h.broadcast + [Message(change.key, t)])
  }

  datatype Mined = Mined(change: Change, block: nat)

  function SubmitAll(run: seq<Mined>): Hub {
    if run == [] then Hub(map[], [])
    else Submitted(SubmitAll(run[..|run| - 1]), run[|run| - 1].change, run[|run| - 1].block)
  }

  class Registry {
    var templates: map<string, Template>
    var broadcast: seq<Message>

    function View(): Hub
      reads this
    {
      Hub(templates, broadcast)
    }

    constructor ()
      ensures View() == Hub(map[], [])
    {
      templates, broadcast := map[], [];
    }

    method Submit(change: Change, block: nat)
      modifies this
      ensures View() == Submitted(old(View()), change, block)
    {
      match change {
        case Propose(_) =>
        case Approve(k) => Publish(k, Template(true, block));
        case Seed(k) => Publish(k, Template(true, block));
        case Revoke(k) => Publish(k, Template(false, block));
      }
    }

    /** A whole run of changes to a new registry. */
    method SubmitRun(run: seq<Mined>)
      requires View() == Hub(map[], [])
      modifies this
      ensures View() == SubmitAll(run)
      ensures forall i, k :: LastChange(run, i, k) ==>
                k in templates && templates[k] == Template(run[i].change.Approve? || run[i].change.Seed?, run[i].block)
    {
      for n := 0 to |run|
        invariant View() == SubmitAll(run[..n])
      {
        assert run[..n + 1][..n] == run[..n];
        Submit(run[n].change, run[n].block);
      }
      assert run[..|run|] == run;
      forall k { RegistryExactly(run, k); }
    }

    method Publish(key: string, t: Template)
      modifies this
      ensures templates == old(templates)[key := t] && broadcast == old(broadcast) + [Message(key, t)]
    {
      templates := templates[key := t];
      broadcast := broadcast + [Message(key, t)];
    }
  }

  // ---------------------------------------------------------------- replica

  /** The staleness guard: a message that is not newer than the last update is dropped. */
  function Receive(m: Mirror, t: Template): Mirror {
    if t.approvedAtBlock <= m.lastUpdatedAt then m else Mirror(t, t.approvedAtBlock)
  }

  class TemplateReplica {
    var mirrors: map<string, Mirror>

    function MirrorOf(key: string): Mirror
      reads this
    {
      if key in mirrors then mirrors[key] else FRESH
    }

    constructor ()
      ensures forall k :: MirrorOf(k) == FRESH
    {
      mirrors := map[];
    }

    method OnMessage(m: Message)
      modifies this
      ensures MirrorOf(m.key) == Receive(old(MirrorOf(m.key)), m.template)
      ensures forall k :: k != m.key ==> MirrorOf(k) == old(MirrorOf(k))
    {
      var last := MirrorOf(m.key).lastUpdatedAt;
      if m.template.approvedAtBlock <= last { return; }
      mirrors := mirrors[m.key := Mirror(m.template, m.template.approvedAtBlock)];
    }

    /** Delivers a whole stream of messages for any keys. */
    method Deliver(ms: seq<Message>)
      modifies this
      ensures forall k :: MirrorOf(k) == ReceiveAll(old(MirrorOf(k)), ForKey(ms, k))
    {
      assert ms[0..] == ms;
      for i := 0 to |ms|
        invariant forall k :: ReceiveAll(MirrorOf(k), ForKey(ms[i..], k)) == ReceiveAll(old(MirrorOf(k)), ForKey(ms, k))
      {
        assert ms[i..][0] == ms[i] && ms[i..][1..] == ms[i + 1..];
        label L:
        OnMessage(ms[i]);
        forall k
          ensures ReceiveAll(MirrorOf(k), ForKey(ms[i + 1..], k)) == ReceiveAll(old@L(MirrorOf(k)), ForKey(ms[i..], k))
        {
          ForKeyHead(ms[i..], k);
        }
      }
      assert ms[|ms|..] == [];
    }
  }

  /** The templates that messages carry for one key, in order. */
  function ForKey(ms: seq<Message>, key: string): seq<Template> {
    if ms == [] then []
    else (if ms[0].key == key then [ms[0].template] else []) + ForKey(ms[1..], key)
  }

  lemma ForKeyHead(ms: seq<Message>, key: string)
    requires ms != []
    ensures ForKey(ms, key) == if ms[0].key == key then [ms[0].template] + ForKey(ms[1..], key) else ForKey(ms[1..], key)
  {
  }

  function ReceiveAll(m: Mirror, ts: seq<Template>): Mirror
    decreases |ts|
  {
    if ts == [] then m else ReceiveAll(Receive(m, ts[0]), ts[1..])
  }

  /** Whatever arrives, the last-update stamp never goes back. */
  lemma {:induction false} StampNeverDecreases(m: Mirror, ts: seq<Template>)
    ensures m.lastUpdatedAt <= ReceiveAll(m, ts).lastUpdatedAt
    decreases |ts|
  {
    if ts == [] {
    } else {
      StampNeverDecreases(Receive(m, ts[0]), ts[1..]);
    }
  }

  /** A replica that has heard `ts` shows the newest of them, and the first heard of several as new. */
  lemma {:induction false} ShowsNewest(m: Mirror, ts: seq<Template>, i: nat)
    requires i < |ts| && ts[i].approvedAtBlock > m.lastUpdatedAt
    requires forall j :: 0 <= j < |ts| ==> ts[j].approvedAtBlock <= ts[i].approvedAtBlock
    requires forall j :: 0 <= j < i ==> ts[j].approvedAtBlock < ts[i].approvedAtBlock
    ensures ReceiveAll(m, ts) == Mirror(ts[i], ts[i].approvedAtBlock)
    decreases |ts|
  {
    if i == 0 {
      StaleAreDropped(Mirror(ts[0], ts[0].approvedAtBlock), ts[1..]);
    } else {
      ShowsNewest(Receive(m, ts[0]), ts[1..], i - 1);
    }
  }

  // ------------------------------------------------------------ convergence

  /** A delivery of a key's history: every message at least once, in any order, nothing else. */
  ghost predicate Delivers(ts: seq<Template>, history: seq<Template>) {
    (forall t :: t in history ==> t in ts) && (forall t :: t in ts ==> t in history)
  }

  /** The replica shows what the registry holds after the history. */
  predicate Mirrors(m: Mirror, history: seq<Template>)
    requires history != []
  {
    m == Mirror(history[|history| - 1], history[|history| - 1].approvedAtBlock)
  }

  /**
    The last change carries a stamp above 0, newer than that of every different change; or no
    change carries a stamp above 0 and the last says what an untouched replica says.
   */
  ghost predicate LastWins(history: seq<Template>)
    requires history != []
  {
    var last := history[|history| - 1];
    if last.approvedAtBlock > 0 then forall t :: t in history && t != last ==> t.approvedAtBlock < last.approvedAtBlock
    else last == UNKNOWN && forall t :: t in history ==> t.approvedAtBlock == 0
  }

  lemma {:induction false} NewestWins(m: Mirror, ts: seq<Template>, top: Template)
    requires top in ts || (m.template == top && m.lastUpdatedAt == top.approvedAtBlock)
    requires forall t :: t in ts && t != top ==> t.approvedAtBlock < top.approvedAtBlock
    requires m.lastUpdatedAt < top.approvedAtBlock || (m.template == top && m.lastUpdatedAt == top.approvedAtBlock)
    ensures ReceiveAll(m, ts) == Mirror(top, top.approvedAtBlock)
    decreases |ts|
  {
    if ts == [] {
    } else {
      assert ts[0] in ts && ts == [ts[0]] + ts[1..];
      NewestWins(Receive(m, ts[0]), ts[1..], top);
    }
  }

  lemma {:induction false} StampIsMax(m: Mirror, ts: seq<Template>, t: Template)
    requires t in ts
    ensures t.approvedAtBlock <= ReceiveAll(m, ts).lastUpdatedAt
    decreases |ts|
  {
    if ts[0] == t {
      StampNeverDecreases(Receive(m, ts[0]), ts[1..]);
    } else {
      assert ts == [ts[0]] + ts[1..];
      StampIsMax(Receive(m, ts[0]), ts[1..], t);
    }
  }

  lemma {:induction false} StaleAreDropped(m: Mirror, ts: seq<Template>)
    requires forall t :: t in ts ==> t.approvedAtBlock <= m.lastUpdatedAt
    ensures ReceiveAll(m, ts) == m
    decreases |ts|
  {
    if ts == [] {
    } else {
      assert ts[0] in ts;
      StaleAreDropped(m, ts[1..]);
    }
  }

  /** If the last change does not win, some complete delivery leaves the replica wrong. */
  lemma DivergingDelivery(history: seq<Template>) returns (ts: seq<Template>)
    requires history != [] && !LastWins(history)
    ensures Delivers(ts, history) && !Mirrors(ReceiveAll(FRESH, ts), history)
  {
    var last := history[|history| - 1];
    ts := history;
    if u :| u in history && u.approvedAtBlock > last.approvedAtBlock {
      StampIsMax(FRESH, history, u);
    } else if last.approvedAtBlock == 0 {
      StaleAreDropped(FRESH, history);
    } else {
      var t :| t in history && t != last && t.approvedAtBlock >= last.approvedAtBlock;
      ts := [t] + history;
      assert ts[1..] == history && ts[0] == t;
      StaleAreDropped(Mirror(t, t.approvedAtBlock), history);
    }
  }

  lemma CompleteDeliveryMirrors(history: seq<Template>, ts: seq<Template>)
    requires history != [] && LastWins(history) && Delivers(ts, history)
    ensures Mirrors(ReceiveAll(FRESH, ts), history)
  {
    var last := history[|history| - 1];
    assert last in history;
    if last.approvedAtBlock > 0 {
      NewestWins(FRESH, ts, last);
    } else {
      StaleAreDropped(FRESH, ts);
    }
  }

  /**
    Whatever the order and duplication, every complete delivery of a key's history leaves the
    replica showing the registry's flag, block and stamp, exactly when the last change wins: two
    different changes of one key in the same block already break it.
   */
  lemma ConvergesExactly(history: seq<Template>)
    requires history != []
    ensures (forall ts :: Delivers(ts, history) ==> Mirrors(ReceiveAll(FRESH, ts), history)) <==> LastWins(history)
  {
    if LastWins(history) {
      forall ts | Delivers(ts, history)
        ensures Mirrors(ReceiveAll(FRESH, ts), history)
      {
        CompleteDeliveryMirrors(history, ts);
      }
    } else {
      var ts := DivergingDelivery(history);
    }
  }

  /** Seeding and revoking a template in the same block, as a replica may see it. */
  lemma SameBlockDiverges(block: nat)
    requires block > 0
    ensures var history := [Template(true, block), Template(false, block)];
            !LastWins(history) && ReceiveAll(FRESH, history).template.approved
  {
    var a, b := Template(true, block), Template(false, block);
    assert a in [a, b] && [a, b][1..] == [b];
    assert Receive(FRESH, a) == Mirror(a, block);
    StaleAreDropped(Mirror(a, block), [b]);
  }

  // ------------------------------------------------- registry and replicas

  lemma {:induction false} ForKeyConcat(a: seq<Message>, b: seq<Message>, key: string)
    ensures ForKey(a + b, key) == ForKey(a, key) + ForKey(b, key)
  {
    if a == [] {
      assert a + b == b;
    } else {
      ForKeyConcat(a[1..], b, key);
      assert (a + b)[0] == a[0] && (a + b)[1..] == a[1..] + b;
      ForKeyHead(a + b, key);
      ForKeyHead(a, key);
      Associative([a[0].template], ForKey(a[1..], key), ForKey(b, key));
    }
  }

  lemma {:induction false} ForKeyMembers(ms: seq<Message>, key: string, t: Template)
    ensures t in ForKey(ms, key) <==> Message(key, t) in ms
  {
    if ms == [] {
    } else {
      ForKeyMembers(ms[1..], key, t);
      assert ms == [ms[0]] + ms[1..];
    }
  }

  /** The registry holds, for each key, the last change it broadcast. */
  lemma {:induction false} RegistryHoldsLast(run: seq<Mined>, key: string)
    ensures var h := SubmitAll(run); var history := ForKey(h.broadcast, key);
            (key in h.templates <==> history != []) && (history != [] ==> h.templates[key] == history[|history| - 1])
  {
    if run == [] {
    } else {
      var n := |run| - 1;
      RegistryHoldsLast(run[..n], key);
      var h, change := SubmitAll(run[..n]), run[n].change;
      if !change.Propose? {
        var m := Message(change.key, Template(!change.Revoke?, run[n].block));
        ForKeyConcat(h.broadcast, [m], key);
        assert [m][1..] == [];
      }
    }
  }

  /** Change `i` of the run is mined for this key and is more than a proposal. */
  predicate Changes(run: seq<Mined>, i: int, key: string) {
    0 <= i < |run| && run[i].change.key == key && !run[i].change.Propose?
  }

  predicate LastChange(run: seq<Mined>, i: int, key: string) {
    Changes(run, i, key) && forall j :: i < j < |run| ==> !Changes(run, j, key)
  }

  /** What a change makes of its key: approving and seeding approve it, and the block is its own. */
  function MadeBy(m: Mined): Template {
    Template(m.change.Approve? || m.change.Seed?, m.block)
  }

  /** Later changes of a key are mined in later blocks, and no change in block 0. */
  ghost predicate BlocksIncrease(run: seq<Mined>, key: string) {
    && (forall i :: Changes(run, i, key) ==> run[i].block > 0)
    && (forall i, j :: i < j && Changes(run, i, key) && Changes(run, j, key) ==> run[i].block < run[j].block)
  }

  lemma SubmittedForKey(h: Hub, m: Mined, key: string)
    ensures var h' := Submitted(h, m.change, m.block);
            if Changes([m], 0, key)
            then ForKey(h'.broadcast, key) == ForKey(h.broadcast, key) + [MadeBy(m)] &&
                 h'.templates == h.templates[key := MadeBy(m)]
            else ForKey(h'.broadcast, key) == ForKey(h.broadcast, key) &&
                 (key in h'.templates <==> key in h.templates) &&
                 (key in h.templates ==> h'.templates[key] == h.templates[key])
  {
    if !m.change.Propose? {
      var sent := Message(m.change.key, Template(!m.change.Revoke?, m.block));
      ForKeyConcat(h.broadcast, [sent], key);
      assert [sent][1..] == [];
      assert ForKey(h.broadcast, key) + [] == ForKey(h.broadcast, key);
    }
  }

  lemma ChangesBefore(run: seq<Mined>, n: nat, key: string)
    requires n == |run| - 1
    ensures forall i :: Changes(run, i, key) <==> Changes(run[..n], i, key) || (i == n && Changes([run[n]], 0, key))
    ensures forall i :: 0 <= i < n ==> run[..n][i] == run[i]
  {
  }

  /** What is broadcast for a key is what its changes make of it, and nothing else. */
  lemma {:induction false} BroadcastExact(run: seq<Mined>, key: string, t: Template)
    ensures t in ForKey(SubmitAll(run).broadcast, key) <==> exists i :: Changes(run, i, key) && t == MadeBy(run[i])
  {
    if run == [] {
    } else {
      var n := |run| - 1;
      BroadcastExact(run[..n], key, t);
      ChangesBefore(run, n, key);
      SubmittedForKey(SubmitAll(run[..n]), run[n], key);
      hide SubmitAll, ForKey, Changes;
      if i :| Changes(run[..n], i, key) && t == MadeBy(run[..n][i]) {
        assert Changes(run, i, key) && t == MadeBy(run[i]);
      }
      if Changes([run[n]], 0, key) { assert Changes(run, n, key); }
    }
  }

  /**
    The registry told from the changes alone: it holds a key exactly when some change of it was
    more than a proposal, and then what the last of these made of it: approved if it was an
    approval or a seed, in its block.
   */
  lemma {:induction false} RegistryExactly(run: seq<Mined>, key: string)
    ensures key in SubmitAll(run).templates <==> exists i :: Changes(run, i, key)
    ensures forall i :: LastChange(run, i, key) ==>
              key in SubmitAll(run).templates &&
              SubmitAll(run).templates[key] == Template(run[i].change.Approve? || run[i].change.Seed?, run[i].block)
  {
    if run == [] {
    } else {
      var n := |run| - 1;
      RegistryExactly(run[..n], key);
      ChangesBefore(run, n, key);
      SubmittedForKey(SubmitAll(run[..n]), run[n], key);
      hide SubmitAll, ForKey, Changes;
      if Changes([run[n]], 0, key) {
        assert Changes(run, n, key);
        forall i | LastChange(run, i, key)
          ensures i == n
        {
        }
      } else {
        forall i
          ensures LastChange(run, i, key) <==> LastChange(run[..n], i, key)
        {
        }
      }
    }
  }

  lemma IncreasingBlocksWin(run: seq<Mined>, key: string, i: int)
    requires BlocksIncrease(run, key) && LastChange(run, i, key)
    ensures var history := ForKey(SubmitAll(run).broadcast, key);
            history != [] && history[|history| - 1] == MadeBy(run[i]) && LastWins(history)
  {
    var history := ForKey(SubmitAll(run).broadcast, key);
    RegistryExactly(run, key);
    RegistryHoldsLast(run, key);
    forall t | t in history && t != MadeBy(run[i])
      ensures t.approvedAtBlock < run[i].block
    {
      BroadcastExact(run, key, t);
    }
  }

  /**
    After any run of changes with increasing blocks per key, and any delivery to a replica that
    brings every broadcast message at least once and nothing else, in any order and with any
    duplication, the replica shows of every key what its last change made of it, as the registry does.
   */
  lemma ReplicasConverge(run: seq<Mined>, ms: seq<Message>, key: string, i: int)
    requires BlocksIncrease(run, key) && LastChange(run, i, key)
    requires forall m :: m in ms <==> m in SubmitAll(run).broadcast
    ensures var t := Template(run[i].change.Approve? || run[i].change.Seed?, run[i].block);
            && ReceiveAll(FRESH, ForKey(ms, key)) == Mirror(t, run[i].block)
            && key in SubmitAll(run).templates && SubmitAll(run).templates[key] == t
  {
    var history := ForKey(SubmitAll(run).broadcast, key);
    RegistryExactly(run, key);
    IncreasingBlocksWin(run, key, i);
    forall t
      ensures t in ForKey(ms, key) <==> t in history
    {
      ForKeyMembers(ms, key, t);
      ForKeyMembers(SubmitAll(run).broadcast, key, t);
    }
    CompleteDeliveryMirrors(history, ForKey(ms, key));
  }

  /** A key that was only ever proposed is in no registry, and a replica knows nothing of it. */
  lemma ProposalsSettleNothing(run: seq<Mined>, ms: seq<Message>, key: string)
    requires forall i :: !Changes(run, i, key)
    requires forall m :: m in ms <==> m in SubmitAll(run).broadcast
    ensures key !in SubmitAll(run).templates && ReceiveAll(FRESH, ForKey(ms, key)) == Mirror(Template(false, 0), 0)
  {
    RegistryExactly(run, key);
    if ForKey(ms, key) != [] {
      var t := ForKey(ms, key)[0];
      ForKeyMembers(ms, key, t);
      ForKeyMembers(SubmitAll(run).broadcast, key, t);
      BroadcastExact(run, key, t);
    }
  }
}
