/**
  Moving a token between a privacy node and the public chain, as the public-chain suite specifies
  it: sending locks on the private side and the relayer mints; burning on the public side makes the
  relayer unlock.  Messages in flight may be delivered in any order.
 */
module Bridge {

  datatype Message = Message(to: string, amount: nat)

  /** Public-chain status of the token; the numbered states other than the two the suite names behave alike. */
  datatype Status = Deployed | Frozen | Other(code: nat)

  /** The zero address, and the private addresses approved to receive. */
  datatype Setup = Setup(zero: string, approved: set<string>)

  datatype State = State(
    minted: int,
    balance: int,
    locked: int,
    supply: int,
    stranded: int,
    outbound: seq<Message>,
    inbound: seq<Message>,
    status: Status,
    saved: Status)

  /**
    `refused` says that a burn to the zero or an unapproved address reverts on chain; the suite
    allows either that or a message the relayer has to deal with.
   */
  datatype Event =
    | Mint(amount: nat)
    | Send(to: string, amount: nat)
    | RelayOut(index: nat)
    | Burn(to: string, amount: nat, refused: bool)
    | RelayBack(index: nat)
    | Freeze
    | Unfreeze

  datatype Result = Done | PublicChainNotActive | InsufficientBalanceToLock | Reverted | StatusAlreadySet | NotDeployed | NoSuchMessage

  function RemoveAt<T>(xs: seq<T>, i: nat): seq<T>
    requires i < |xs|
  {
    xs[..i] + xs[i + 1..]
  }

  /** Tokens the private side gives back when this outbound message is relayed: those sent to the zero address. */
  predicate Bounces(c: Setup, m: Message) {
    m.to == c.zero
  }

  predicate Unlocks(c: Setup, m: Message) {
    m.to in c.approved && m.to != c.zero
  }

  function Step(c: Setup, s: State, e: Event): (State, Result) {
    match e
    case Mint(a) => (s.(minted := s.minted + a, balance := s.balance + a), Done)
    case Send(to, a) =>
      if s.status != Deployed then (s, PublicChainNotActive)
      else if a > s.balance then (s, InsufficientBalanceToLock)
      else (s.(balance := s.balance - a, locked := s.locked + a, outbound := s.outbound + [Message(to, a)]), Done)
    case RelayOut(i) =>
      if i >= |s.outbound| then (s, NoSuchMessage)
      else
        var m, t := s.outbound[i], s.(outbound := RemoveAt(s.outbound, i));
        if Bounces(c, m) then (t.(locked := s.locked - m.amount, balance := s.balance + m.amount), Done)
        else (t.(supply := s.supply + m.amount), Done)
    case Burn(to, a, refused) =>
      if a > s.supply then (s, Reverted)
      else if refused && !Unlocks(c, Message(to, a)) then (s, Reverted)
      else (s.(supply := s.supply - a, inbound := s.inbound + [Message(to, a)]), Done)
    case RelayBack(i) =>
      if i >= |s.inbound| then (s, NoSuchMessage)
      else
        var m, t := s.inbound[i], s.(inbound := RemoveAt(s.inbound, i));
        if Unlocks(c, m) then (t.(locked := s.locked - m.amount, balance := s.balance + m.amount), Done)
        else if m.to == c.zero then (t.(supply := s.supply + m.amount), Done)
        else (t.(stranded := s.stranded + m.amount), Done)
    case Freeze =>
      if s.status == Frozen then (s, StatusAlreadySet)
      else if s.status != Deployed then (s, NotDeployed)
      else (s.(saved := s.status, status := Frozen), Done)
    case Unfreeze =>
      if s.status != Frozen then (s, StatusAlreadySet) else (s.(status := s.saved), Done)
  }

  function Play(c: Setup, s: State, es: seq<Event>): State
    decreases |es|
  {
    if es == [] then s else Play(c, Step(c, s, es[0]).0, es[1..])
  }

  function Initial(status: Status): State {
    State(0, 0, 0, 0, 0, [], [], status, status)
  }

  // ------------------------------------------------------------ conservation

  function SumIf(ms: seq<Message>, p: Message -> bool): nat {
    if ms == [] then 0
    else SumIf(ms[..|ms| - 1], p) + if p(ms[|ms| - 1]) then ms[|ms| - 1].amount else 0
  }

  predicate Any(m: Message) { true }

  lemma RemoveBeforeLast(ms: seq<Message>, i: nat)
    requires i < |ms| - 1
    ensures var n := |ms| - 1; RemoveAt(ms, i) == RemoveAt(ms[..n], i) + [ms[n]]
  {
  }

  lemma {:induction false} SumRemove(ms: seq<Message>, p: Message -> bool, i: nat)
    requires i < |ms|
    ensures SumIf(ms, p) == SumIf(RemoveAt(ms, i), p) + if p(ms[i]) then ms[i].amount else 0
  {
    var n := |ms| - 1;
    if i == n {
      assert RemoveAt(ms, i) == ms[..n];
    } else {
      SumRemove(ms[..n], p, i);
      RemoveBeforeLast(ms, i);
      SumSnoc(RemoveAt(ms[..n], i), p, ms[n]);
    }
  }

  lemma SumSnoc(ms: seq<Message>, p: Message -> bool, m: Message)
    ensures SumIf(ms + [m], p) == SumIf(ms, p) + if p(m) then m.amount else 0
  {
    assert (ms + [m])[..|ms|] == ms;
  }

  /** Locked tokens back the public supply, all messages in flight, and what was burned without refund. */
  ghost predicate Conserved(s: State) {
    && s.locked == s.supply + SumIf(s.outbound, Any) + SumIf(s.inbound, Any) + s.stranded
    && s.balance + s.locked == s.minted
    && s.balance >= 0 && s.supply >= 0 && s.stranded >= 0
    && (s.status == Frozen ==> s.saved == Deployed)
  }

  lemma StepConserves(c: Setup, s: State, e: Event)
    requires Conserved(s)
    ensures Conserved(Step(c, s, e).0)
  {
    hide RemoveAt, SumIf;
    match e
    case Send(to, a) => SumSnoc(s.outbound, Any, Message(to, a));
    case Burn(to, a, refused) => SumSnoc(s.inbound, Any, Message(to, a));
    case RelayOut(i) => if i < |s.outbound| { SumRemove(s.outbound, Any, i); }
    case RelayBack(i) => if i < |s.inbound| { SumRemove(s.inbound, Any, i); }
    case _ =>
  }

  lemma {:induction false} PlayConserves(c: Setup, s: State, es: seq<Event>)
    requires Conserved(s)
    ensures Conserved(Play(c, s, es))
    decreases |es|
  {
    hide Step;
    if es == [] {
    } else {
      StepConserves(c, s, es[0]);
      PlayConserves(c, Step(c, s, es[0]).0, es[1..]);
    }
  }

  lemma ConservedAtStart(status: Status)
    requires status != Frozen
    ensures Conserved(Initial(status))
  {
  }

  /** No message still to be relayed is larger than what is locked. */
  predicate Covered(s: State) {
    && (forall i :: 0 <= i < |s.outbound| ==> s.outbound[i].amount <= s.locked)
    && (forall i :: 0 <= i < |s.inbound| ==> s.inbound[i].amount <= s.locked)
  }

  /**
    In every reachable state, whatever was sent, burned, relayed, minted or frozen in whatever
    order: locked = supply + in flight + stranded, balance + locked = minted, nothing is negative,
    and no unlock or refund still to come can underflow.
   */
  lemma BridgeConservation(c: Setup, status: Status, es: seq<Event>)
    requires status != Frozen
    ensures Conserved(Play(c, Initial(status), es)) && Covered(Play(c, Initial(status), es))
  {
    hide Play, Step, SumIf, Conserved;
    ConservedAtStart(status);
    PlayConserves(c, Initial(status), es);
    UnlocksCovered(Play(c, Initial(status), es));
  }

  lemma UnlocksCovered(s: State)
    requires Conserved(s)
    ensures Covered(s)
  {
    forall i | 0 <= i < |s.outbound|
      ensures s.outbound[i].amount <= s.locked
    {
      SumRemove(s.outbound, Any, i);
    }
    forall i | 0 <= i < |s.inbound|
      ensures s.inbound[i].amount <= s.locked
    {
      SumRemove(s.inbound, Any, i);
    }
  }

  lemma QuietState(s: State)
    requires Conserved(s) && s.outbound == [] && s.inbound == []
    ensures s.locked == s.supply + s.stranded && s.supply >= 0 && s.stranded >= 0
  {
  }

  /** At rest with nothing stranded, locked equals the public supply; drained, nothing stays locked. */
  lemma QuietBridge(c: Setup, status: Status, es: seq<Event>)
    requires status != Frozen
    requires var s := Play(c, Initial(status), es); s.outbound == [] && s.inbound == []
    ensures var s := Play(c, Initial(status), es);
            && s.locked == s.supply + s.stranded
            && (s.supply == 0 && s.stranded == 0 <==> s.locked == 0)
  {
    hide Play, Step, SumIf, Conserved;
    ConservedAtStart(status);
    PlayConserves(c, Initial(status), es);
    QuietState(Play(c, Initial(status), es));
  }

  // ------------------------------------------------------------- the object

  class TokenBridge {
    const setup: Setup
    var minted: int
    var balance: int
    var locked: int
    var supply: int
    var stranded: int
    var outbound: seq<Message>
    var inbound: seq<Message>
    var status: Status
    var saved: Status

    ghost function View(): State
      reads this
    {
      State(minted, balance, locked, supply, stranded, outbound, inbound, status, saved)
    }

    /** Every method may rely on conservation, and keeps it. */
    ghost predicate Valid()
      reads this
    {
      Conserved(View())
    }

    /** A token is not created frozen. */
    constructor (setup: Setup, status: Status)
      requires status != Frozen
      ensures Valid() && this.setup == setup && View() == Initial(status)
    {
      this.setup := setup;
      minted, balance, locked, supply, stranded := 0, 0, 0, 0, 0;
      outbound, inbound := [], [];
      this.status, saved := status, status;
    }

    method MintTo(amount: nat)
      requires Valid()
      modifies this
      ensures Valid() && View() == Step(setup, old(View()), Mint(amount)).0
    {
      StepConserves(setup, View(), Mint(amount));
      minted, balance := minted + amount, balance + amount;
    }

    method TeleportToPublicChain(to: string, amount: nat) returns (r: Result)
      requires Valid()
      modifies this
      ensures Valid() && (View(), r) == Step(setup, old(View()), Send(to, amount))
    {
      StepConserves(setup, View(), Send(to, amount));
      if status != Deployed { return PublicChainNotActive; }
      if amount > balance { return InsufficientBalanceToLock; }
      balance := balance - amount;
      locked := locked + amount;
      outbound := outbound + [Message(to, amount)];
      r := Done;
    }

    method RelayMint(i: nat) returns (r: Result)
      requires Valid()
      modifies this
      ensures Valid() && (View(), r) == Step(setup, old(View()), RelayOut(i))
    {
      StepConserves(setup, View(), RelayOut(i));
      if i >= |outbound| { return NoSuchMessage; }
      var m := outbound[i];
      outbound := RemoveAt(outbound, i);
      if m.to == setup.zero {
        locked := locked - m.amount;
        balance := balance + m.amount;
      } else {
        supply := supply + m.amount;
      }
      r := Done;
    }

    method TeleportToPrivacyNode(to: string, amount: nat, refused: bool) returns (r: Result)
      requires Valid()
      modifies this
      ensures Valid() && (View(), r) == Step(setup, old(View()), Burn(to, amount, refused))
    {
      StepConserves(setup, View(), Burn(to, amount, refused));
      if amount > supply { return Reverted; }
      if refused && !Unlocks(setup, Message(to, amount)) { return Reverted; }
      supply := supply - amount;
      inbound := inbound + [Message(to, amount)];
      r := Done;
    }

    method RelayUnlock(i: nat) returns (r: Result)
      requires Valid()
      modifies this
      ensures Valid() && (View(), r) == Step(setup, old(View()), RelayBack(i))
    {
      StepConserves(setup, View(), RelayBack(i));
      if i >= |inbound| { return NoSuchMessage; }
      var m := inbound[i];
      inbound := RemoveAt(inbound, i);
      if Unlocks(setup, m) {
        locked := locked - m.amount;
        balance := balance + m.amount;
      } else if m.to == setup.zero {
        supply := supply + m.amount;
      } else {
        stranded := stranded + m.amount;
      }
      r := Done;
    }

    method FreezeOnPublicChain() returns (r: Result)
      requires Valid()
      modifies this
      ensures Valid() && (View(), r) == Step(setup, old(View()), Freeze)
    {
      if status == Frozen { return StatusAlreadySet; }
      if status != Deployed { return NotDeployed; }
      saved := status;
      status := Frozen;
      r := Done;
    }

    method UnfreezeOnPublicChain() returns (r: Result)
      requires Valid()
      modifies this
      ensures Valid() && (View(), r) == Step(setup, old(View()), Unfreeze)
    {
      if status != Frozen { return StatusAlreadySet; }
      status := saved;
      r := Done;
    }

    method Perform(e: Event) returns (r: Result)
      requires Valid()
      modifies this
      ensures Valid() && (View(), r) == Step(setup, old(View()), e)
    {
      match e {
        case Mint(a) => MintTo(a); r := Done;
        case Send(to, a) => r := TeleportToPublicChain(to, a);
        case RelayOut(i) => r := RelayMint(i);
        case Burn(to, a, refused) => r := TeleportToPrivacyNode(to, a, refused);
        case RelayBack(i) => r := RelayUnlock(i);
        case Freeze => r := FreezeOnPublicChain();
        case Unfreeze => r := UnfreezeOnPublicChain();
      }
    }

    /** A whole run: conservation holds throughout, and whatever is still to be delivered is covered at its end. */
    method Drive(es: seq<Event>)
      requires Valid()
      modifies this
      ensures Valid() && Covered(View()) && View() == Play(setup, old(View()), es)
    {
      var k := 0;
      assert es[0..] == es;
      while k < |es|
        invariant k <= |es| && Valid() && Play(setup, View(), es[k..]) == Play(setup, old(View()), es)
      {
        assert es[k..][0] == es[k] && es[k..][1..] == es[k + 1..];
        var r := Perform(es[k]);
        k := k + 1;
      }
      assert es[k..] == [];
      UnlocksCovered(View());
    }
  }

  // -------------------------------------------------- delivery in any order

  predicate Relays(e: Event) {
    e.RelayOut? || e.RelayBack?
  }

  /** What becomes of a message, by its recipient. */
  function Bouncing(c: Setup): Message -> bool { (m: Message) => m.to == c.zero }
  function Landing(c: Setup): Message -> bool { (m: Message) => m.to != c.zero }
  function Unlocking(c: Setup): Message -> bool { (m: Message) => m.to in c.approved && m.to != c.zero }
  function Returning(c: Setup): Message -> bool { (m: Message) => m.to == c.zero }
  function Lost(c: Setup): Message -> bool { (m: Message) => m.to !in c.approved && m.to != c.zero }

  /** Where the bridge comes to rest when everything in flight has been relayed. */
  function AtRest(c: Setup, s: State): State {
    var released := SumIf(s.outbound, Bouncing(c)) + SumIf(s.inbound, Unlocking(c));
    s.(balance := s.balance + released,
       locked := s.locked - released,
       supply := s.supply + SumIf(s.outbound, Landing(c)) + SumIf(s.inbound, Returning(c)),
       stranded := s.stranded + SumIf(s.inbound, Lost(c)),
       outbound := [], inbound := [])
  }

  lemma RelayOutKeepsRest(c: Setup, s: State, i: nat)
    ensures AtRest(c, Step(c, s, RelayOut(i)).0) == AtRest(c, s)
  {
    if i < |s.outbound| {
      SumRemove(s.outbound, Bouncing(c), i);
      SumRemove(s.outbound, Landing(c), i);
    }
  }

  lemma RelayBackKeepsRest(c: Setup, s: State, i: nat)
    ensures AtRest(c, Step(c, s, RelayBack(i)).0) == AtRest(c, s)
  {
    if i < |s.inbound| {
      SumRemove(s.inbound, Unlocking(c), i);
      SumRemove(s.inbound, Returning(c), i);
      SumRemove(s.inbound, Lost(c), i);
    }
  }

  /**
    The relayer may deliver in any order: every run of deliveries that empties both directions ends
    in the same state, and that state is determined by what was in flight.
   */
  lemma {:induction false} DeliveryOrderIrrelevant(c: Setup, s: State, es: seq<Event>)
    requires forall e :: e in es ==> Relays(e)
    ensures var t := Play(c, s, es);
            && AtRest(c, t) == AtRest(c, s)
            && (t.outbound == [] && t.inbound == [] ==> t == AtRest(c, s))
    decreases |es|
  {
    if es == [] {
    } else {
      assert es[0] in es;
      if es[0].RelayOut? {
        RelayOutKeepsRest(c, s, es[0].index);
      } else {
        RelayBackKeepsRest(c, s, es[0].index);
      }
      DeliveryOrderIrrelevant(c, Step(c, s, es[0]).0, es[1..]);
    }
  }

  // ------------------------------------------------------------- round trips

  lemma PlayFour(c: Setup, s: State, a: Event, b: Event, d: Event, e: Event)
    ensures Play(c, s, [a, b, d, e]) == Step(c, Step(c, Step(c, Step(c, s, a).0, b).0, d).0, e).0
  {
    assert [a, b, d, e][1..] == [b, d, e] && [b, d, e][1..] == [d, e] && [d, e][1..] == [e] && [e][1..] == [];
    var s1 := Step(c, s, a).0;
    var s2 := Step(c, s1, b).0;
    var s3 := Step(c, s2, d).0;
    assert Play(c, s3, [e]) == Play(c, Step(c, s3, e).0, []);
    assert Play(c, s2, [d, e]) == Play(c, s3, [e]);
    assert Play(c, s1, [b, d, e]) == Play(c, s2, [d, e]);
  }

  /**
    Sending `a`, then burning `back` of it for an approved address, nets to the difference on both
    chains, whatever else is in flight; with back = a the bridge is exactly as before.
   */
  lemma SendAndReturn(c: Setup, s: State, to: string, a: nat, recipient: string, back: nat)
    requires s.status == Deployed && a <= s.balance && s.supply >= 0 && back <= a
    requires to != c.zero && Unlocks(c, Message(recipient, back))
    ensures var es := [Send(to, a), RelayOut(|s.outbound|), Burn(recipient, back, false), RelayBack(|s.inbound|)];
            Play(c, s, es) ==
            s.(balance := s.balance - (a - back), locked := s.locked + (a - back), supply := s.supply + (a - back))
  {
    hide Play;
    PlayFour(c, s, Send(to, a), RelayOut(|s.outbound|), Burn(recipient, back, false), RelayBack(|s.inbound|));
    assert RemoveAt(s.outbound + [Message(to, a)], |s.outbound|) == s.outbound;
    assert RemoveAt(s.inbound + [Message(recipient, back)], |s.inbound|) == s.inbound;
  }

  /** Sending to the zero address, once relayed, changes nothing on either chain. */
  lemma SendToZeroReverts(c: Setup, s: State, a: nat)
    requires s.status == Deployed && a <= s.balance
    ensures Step(c, Step(c, s, Send(c.zero, a)).0, RelayOut(|s.outbound|)) == (s, Done)
  {
    assert RemoveAt(s.outbound + [Message(c.zero, a)], |s.outbound|) == s.outbound;
  }

  /** Burning for the zero address changes nothing, whether the chain or the relayer refuses it. */
  lemma BurnToZeroPreserves(c: Setup, s: State, a: nat, refused: bool)
    requires a <= s.supply
    ensures refused ==> Step(c, s, Burn(c.zero, a, refused)) == (s, Reverted)
    ensures !refused ==> Step(c, Step(c, s, Burn(c.zero, a, refused)).0, RelayBack(|s.inbound|)) == (s, Done)
  {
    assert RemoveAt(s.inbound + [Message(c.zero, a)], |s.inbound|) == s.inbound;
  }

  /** Burning for an unapproved address: refused on chain, or the tokens are gone from both sides and stay locked. */
  lemma BurnToUnapprovedStrands(c: Setup, s: State, to: string, a: nat, refused: bool)
    requires a <= s.supply && to !in c.approved && to != c.zero
    ensures refused ==> Step(c, s, Burn(to, a, refused)) == (s, Reverted)
    ensures !refused ==> Step(c, Step(c, s, Burn(to, a, refused)).0, RelayBack(|s.inbound|)) ==
                         (s.(supply := s.supply - a, stranded := s.stranded + a), Done)
  {
    assert RemoveAt(s.inbound + [Message(to, a)], |s.inbound|) == s.inbound;
  }

  // ------------------------------------------------------------- double spend

  /** What one step put on, and took off, the public chain. */
  function Landed(c: Setup, s: State, e: Event): nat {
    match e
    case RelayOut(i) => if i < |s.outbound| && !Bounces(c, s.outbound[i]) then s.outbound[i].amount else 0
    case RelayBack(i) =>
      if i < |s.inbound| && !Unlocks(c, s.inbound[i]) && s.inbound[i].to == c.zero then s.inbound[i].amount else 0
    case _ => 0
  }

  function Burned(c: Setup, s: State, e: Event): nat {
    if e.Burn? && Step(c, s, e).1 == Done then e.amount else 0
  }

  function TotalLanded(c: Setup, s: State, es: seq<Event>): nat
    decreases |es|
  {
    if es == [] then 0 else Landed(c, s, es[0]) + TotalLanded(c, Step(c, s, es[0]).0, es[1..])
  }

  function TotalBurned(c: Setup, s: State, es: seq<Event>): nat
    decreases |es|
  {
    if es == [] then 0 else Burned(c, s, es[0]) + TotalBurned(c, Step(c, s, es[0]).0, es[1..])
  }

  lemma {:induction false} SupplyFlows(c: Setup, s: State, es: seq<Event>)
    ensures Play(c, s, es).supply == s.supply + TotalLanded(c, s, es) - TotalBurned(c, s, es)
    decreases |es|
  {
    if es == [] {
    } else {
      SupplyFlows(c, Step(c, s, es[0]).0, es[1..]);
    }
  }

  /**
    No double spend: over any run the accepted burns add up to at most what was delivered to, or
    refunded on, the public chain; and once they use it up, every further burn reverts.
   */
  lemma NoDoubleSpend(c: Setup, status: Status, es: seq<Event>, to: string, a: nat, refused: bool)
    requires status != Frozen
    ensures var s0 := Initial(status);
            && TotalBurned(c, s0, es) <= TotalLanded(c, s0, es)
            && (TotalBurned(c, s0, es) == TotalLanded(c, s0, es) && a > 0 ==>
                  Step(c, Play(c, s0, es), Burn(to, a, refused)) == (Play(c, s0, es), Reverted))
  {
    hide Play, TotalLanded, TotalBurned;
    BridgeConservation(c, status, es);
    SupplyFlows(c, Initial(status), es);
  }

  // -------------------------------------------------- the suite's "available"

  /**
    The suite takes `balance - locked` for what can still be sent, though the balance already leaves
    out what is locked.  It is positive iff less than half of what was minted is locked; it never
    allows too much, and it denies a send that would succeed exactly when 0 < balance <= locked.
   */
  lemma AvailableExactly(c: Setup, s: State, to: string)
    requires Conserved(s) && s.status == Deployed
    ensures var available, sent := s.balance - s.locked, Step(c, s, Send(to, 1)).1 == Done;
            && (available > 0 <==> s.minted > 2 * s.locked)
            && (available > 0 ==> sent)
            && (sent && available <= 0 <==> 0 < s.balance <= s.locked)
  {
  }

  /** Mint 3 and send 2: `available` is -1, and one more token can be sent. */
  lemma AvailableTooStrict(c: Setup, to: string)
    ensures var s := Play(c, Initial(Deployed), [Mint(3), Send(to, 2)]);
            s.balance - s.locked == -1 && Step(c, s, Send(to, 1)).1 == Done
  {
    assert [Mint(3), Send(to, 2)][1..] == [Send(to, 2)] && [Send(to, 2)][1..] == [];
    var s1 := Step(c, Initial(Deployed), Mint(3)).0;
    var s2 := Step(c, s1, Send(to, 2)).0;
    assert Play(c, s1, [Send(to, 2)]) == Play(c, s2, []);
  }

  // ------------------------------------------------------------------ freeze

  lemma {:induction false} FrozenStays(c: Setup, s: State, es: seq<Event>)
    requires s.status == Frozen && Unfreeze !in es
    ensures Play(c, s, es).status == Frozen && |Play(c, s, es).outbound| <= |s.outbound|
    ensures Play(c, s, es).locked <= s.locked
    decreases |es|
  {
    if es == [] {
    } else {
      FrozenStays(c, Step(c, s, es[0]).0, es[1..]);
    }
  }

  /** The same state, frozen from `Deployed`. */
  function AsFrozen(s: State): State {
    s.(status := Frozen, saved := Deployed)
  }

  /**
    While frozen nothing new is locked, but mints, burns and deliveries go on as if the token were
    live; freezing and unfreezing cancel, and neither can be done twice.
   */
  lemma FreezeOnlyBlocksSends(c: Setup, s: State, e: Event)
    requires s.status == Deployed && !e.Freeze? && !e.Unfreeze?
    ensures Step(c, s, Freeze) == (AsFrozen(s), Done) && Step(c, AsFrozen(s), Freeze) == (AsFrozen(s), StatusAlreadySet)
    ensures Step(c, AsFrozen(s), Unfreeze) == (s.(saved := Deployed), Done) && Step(c, s, Unfreeze) == (s, StatusAlreadySet)
    ensures e.Send? ==> Step(c, AsFrozen(s), e) == (AsFrozen(s), PublicChainNotActive)
    ensures !e.Send? ==> Step(c, AsFrozen(s), e) == (AsFrozen(Step(c, s, e).0), Step(c, s, e).1)
  {
    match e
    case RelayOut(i) =>
      assert i < |s.outbound| ==> RemoveAt(AsFrozen(s).outbound, i) == RemoveAt(s.outbound, i);
    case RelayBack(i) =>
      assert i < |s.inbound| ==> RemoveAt(AsFrozen(s).inbound, i) == RemoveAt(s.inbound, i);
    case _ =>
  }

  function WithoutSends(es: seq<Event>): seq<Event> {
    if es == [] then [] else (if es[0].Send? then [] else [es[0]]) + WithoutSends(es[1..])
  }

  predicate LeavesStatus(e: Event) {
    !e.Freeze? && !e.Unfreeze?
  }

  lemma {:induction false} FrozenRun(c: Setup, s: State, es: seq<Event>)
    requires s.status == Deployed && forall e :: e in es ==> LeavesStatus(e)
    ensures Play(c, AsFrozen(s), es) == AsFrozen(Play(c, s, WithoutSends(es)))
    ensures Play(c, s, WithoutSends(es)).status == Deployed
    decreases |es|
  {
    if es == [] {
    } else {
      hide Step;
      var e, rest := es[0], WithoutSends(es[1..]);
      assert e in es && forall x :: x in es[1..] ==> x in es;
      FreezeOnlyBlocksSends(c, s, e);
      if e.Send? {
        assert [] + rest == rest;
        FrozenRun(c, s, es[1..]);
      } else {
        assert ([e] + rest)[1..] == rest;
        StatusKept(c, s, e);
        FrozenRun(c, Step(c, s, e).0, es[1..]);
      }
    }
  }

  lemma StatusKept(c: Setup, s: State, e: Event)
    requires LeavesStatus(e)
    ensures Step(c, s, e).0.status == s.status
  {
  }

  lemma {:induction false} PlayConcat(c: Setup, s: State, a: seq<Event>, b: seq<Event>)
    ensures Play(c, s, a + b) == Play(c, Play(c, s, a), b)
    decreases |a|
  {
    if a == [] {
      assert a + b == b;
    } else {
      hide Step;
      assert (a + b)[0] == a[0] && (a + b)[1..] == a[1..] + b;
      PlayConcat(c, Step(c, s, a[0]).0, a[1..], b);
    }
  }

  /** A freeze and the later unfreeze take the sends in between out of the run, and change nothing else. */
  lemma FreezeErasesSends(c: Setup, s: State, es: seq<Event>)
    requires s.status == Deployed && forall e :: e in es ==> LeavesStatus(e)
    ensures Play(c, s, [Freeze] + es + [Unfreeze]) == Play(c, s, WithoutSends(es)).(saved := Deployed)
  {
    var frozen, after := AsFrozen(s), Play(c, s, WithoutSends(es));
    FrozenRun(c, s, es);
    FreezeOnlyBlocksSends(c, s, Mint(0));
    FreezeOnlyBlocksSends(c, after, Mint(0));
    assert [Freeze] + es + [Unfreeze] == [Freeze] + (es + [Unfreeze]);
    assert ([Freeze] + (es + [Unfreeze]))[1..] == es + [Unfreeze];
    PlayConcat(c, frozen, es, [Unfreeze]);
    assert [Unfreeze][1..] == [];
    assert Play(c, AsFrozen(after), [Unfreeze]) == Step(c, AsFrozen(after), Unfreeze).0;
  }

  // ------------------------------------------------------------ test cleanup

  class Registry {
    var status: map<string, Status>
    var saved: map<string, Status>

    ghost predicate Valid()
      reads this
    {
      status.Keys == saved.Keys && forall t :: t in status && status[t] == Frozen ==> saved[t] == Deployed
    }

    constructor (status: map<string, Status>)
      requires forall t :: t in status ==> status[t] != Frozen
      ensures Valid() && this.status == status
    {
      this.status, saved := status, status;
    }

    method FreezeToken(token: string) returns (r: Result)
      requires Valid() && token in status
      modifies this
      ensures Valid()
      ensures r == Done <==> old(status)[token] == Deployed
      ensures status == if r == Done then old(status)[token := Frozen] else old(status)
    {
      if status[token] == Frozen { return StatusAlreadySet; }
      if status[token] != Deployed { return NotDeployed; }
      saved := saved[token := status[token]];
      status := status[token := Frozen];
      r := Done;
    }

    method UnfreezeToken(token: string) returns (r: Result)
      requires Valid() && token in status
      modifies this`status
      ensures Valid()
      ensures r == Done <==> old(status)[token] == Frozen
      ensures status == if r == Done then old(status)[token := Deployed] else old(status)
    {
      if status[token] != Frozen { return StatusAlreadySet; }
      status := status[token := saved[token]];
      r := Done;
    }

    /** Unfreezes the listed tokens that are frozen; an error on one token is logged and the rest go on. */
    method CleanupPublicFrozenTokens(tokens: seq<string>, failing: set<string>)
      requires Valid() && forall t :: t in tokens ==> t in status
      modifies this`status
      ensures Valid() && status.Keys == old(status).Keys
      ensures forall t :: t in status ==>
                status[t] == if t in tokens && t !in failing && old(status)[t] == Frozen then Deployed else old(status)[t]
    {
      for i := 0 to |tokens|
        invariant Valid() && status.Keys == old(status).Keys
        invariant forall t :: t in status ==>
                    status[t] == if t in tokens[..i] && t !in failing && old(status)[t] == Frozen then Deployed else old(status)[t]
      {
        var addr := tokens[i];
        if addr !in failing && status[addr] == Frozen {
          var r := UnfreezeToken(addr);
        }
        assert tokens[..i + 1] == tokens[..i] + [addr];
      }
      assert tokens[..|tokens|] == tokens;
    }
  }
}
