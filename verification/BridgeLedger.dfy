/**
  The bridge told from outside: what was asked of it, what it answered, and what the relayer took.
  Balances and messages in flight are accounted for by these alone.
 */
module BridgeLedger {
  import opened Bridge

  /** When each request is accepted; a request that is not leaves the bridge as it was. */
  lemma AnswersExactly(c: Setup, s: State, e: Event)
    ensures var (t, r) := Step(c, s, e);
            && (r != Done ==> t == s)
            && match e
               case Mint(_) => r == Done
               case Send(_, a) =>
                 && (r == Done <==> s.status == Deployed && a <= s.balance)
                 && (r == PublicChainNotActive <==> s.status != Deployed)
                 && (r == InsufficientBalanceToLock <==> s.status == Deployed && a > s.balance)
               case Burn(to, a, refused) =>
                 && (r == Done <==> a <= s.supply && (refused ==> to in c.approved && to != c.zero))
                 && (r == Reverted <==> r != Done)
               case RelayOut(i) => (r == Done <==> i < |s.outbound|) && (r == NoSuchMessage <==> r != Done)
               case RelayBack(i) => (r == Done <==> i < |s.inbound|) && (r == NoSuchMessage <==> r != Done)
               case Freeze =>
                 && (r == Done <==> s.status == Deployed)
                 && (r == StatusAlreadySet <==> s.status == Frozen)
               case Unfreeze => (r == Done <==> s.status == Frozen) && (r == StatusAlreadySet <==> r != Done)
  {
  }

  // -------------------------------------------------------- the run's ledger

  /** The last event of the run, and what was answered to it. */
  function Answer(c: Setup, s: State, es: seq<Event>): Result
    requires es != []
  {
    Step(c, Play(c, s, es[..|es| - 1]), es[|es| - 1]).1
  }

  /** The sends that were accepted, as requested. */
  function Sent(c: Setup, s: State, es: seq<Event>): seq<Message> {
    if es == [] then []
    else
      var e := es[|es| - 1];
      Sent(c, s, es[..|es| - 1]) +
      if e.Send? && Answer(c, s, es) == Done then [Message(e.to, e.amount)] else []
  }

  /** The burns that were accepted, as requested. */
  function Burnt(c: Setup, s: State, es: seq<Event>): seq<Message> {
    if es == [] then []
    else
      var e := es[|es| - 1];
      Burnt(c, s, es[..|es| - 1]) +
      if e.Burn? && Answer(c, s, es) == Done then [Message(e.to, e.amount)] else []
  }

  /** The messages the relayer has taken from the private side. */
  function TakenOut(c: Setup, s: State, es: seq<Event>): seq<Message> {
    if es == [] then []
    else
      var e, before := es[|es| - 1], Play(c, s, es[..|es| - 1]);
      TakenOut(c, s, es[..|es| - 1]) +
      if e.RelayOut? && e.index < |before.outbound| then [before.outbound[e.index]] else []
  }

  /** The messages the relayer has taken from the public side. */
  function TakenBack(c: Setup, s: State, es: seq<Event>): seq<Message> {
    if es == [] then []
    else
      var e, before := es[|es| - 1], Play(c, s, es[..|es| - 1]);
      TakenBack(c, s, es[..|es| - 1]) +
      if e.RelayBack? && e.index < |before.inbound| then [before.inbound[e.index]] else []
  }

  function MintedIn(es: seq<Event>): nat {
    if es == [] then 0
    else MintedIn(es[..|es| - 1]) + if es[|es| - 1].Mint? then es[|es| - 1].amount else 0
  }

  function Sum(ms: seq<Message>): nat {
    SumIf(ms, Any)
  }

  lemma PlaySnoc(c: Setup, s: State, es: seq<Event>)
    requires es != []
    ensures Play(c, s, es) == Step(c, Play(c, s, es[..|es| - 1]), es[|es| - 1]).0
  {
    var n := |es| - 1;
    PlayConcat(c, s, es[..n], [es[n]]);
    assert es == es[..n] + [es[n]] && [es[n]][1..] == [];
  }

  lemma RemoveSplits(ms: seq<Message>, i: nat)
    requires i < |ms|
    ensures multiset(RemoveAt(ms, i)) + multiset{ms[i]} == multiset(ms)
  {
    assert ms == ms[..i] + [ms[i]] + ms[i + 1..];
  }

  /** In flight or taken: exactly what was in flight at first or has been accepted since. */
  ghost predicate Matched(flying: seq<Message>, taken: seq<Message>, first: seq<Message>, accepted: seq<Message>) {
    multiset(flying) + multiset(taken) == multiset(first) + multiset(accepted)
  }

  lemma MatchedAccept(flying: seq<Message>, taken: seq<Message>, first: seq<Message>, accepted: seq<Message>, m: Message)
    requires Matched(flying, taken, first, accepted)
    ensures Matched(flying + [m], taken, first, accepted + [m])
  {
    assert multiset(flying + [m]) == multiset(flying) + multiset{m};
    assert multiset(accepted + [m]) == multiset(accepted) + multiset{m};
    assert multiset(flying + [m]) + multiset(taken) == (multiset(flying) + multiset(taken)) + multiset{m};
    assert multiset(first) + multiset(accepted + [m]) == (multiset(first) + multiset(accepted)) + multiset{m};
  }

  lemma MatchedTake(flying: seq<Message>, taken: seq<Message>, first: seq<Message>, accepted: seq<Message>, i: nat)
    requires Matched(flying, taken, first, accepted) && i < |flying|
    ensures Matched(RemoveAt(flying, i), taken + [flying[i]], first, accepted)
  {
    RemoveSplits(flying, i);
    assert multiset(taken + [flying[i]]) == multiset(taken) + multiset{flying[i]};
  }

  /**
    Nothing is lost, invented or altered on the way: what is in flight and what the relayer has
    taken are together what was in flight before and what has been accepted, recipient and amount
    included.
   */
  lemma {:induction false} MessagesExact(c: Setup, s: State, es: seq<Event>)
    ensures Matched(Play(c, s, es).outbound, TakenOut(c, s, es), s.outbound, Sent(c, s, es))
    ensures Matched(Play(c, s, es).inbound, TakenBack(c, s, es), s.inbound, Burnt(c, s, es))
  {
    if es == [] {
    } else {
      var n := |es| - 1;
      MessagesExact(c, s, es[..n]);
      PlaySnoc(c, s, es);
      hide Play, Matched, Step;
      EntryMatched(c, Play(c, s, es[..n]), es[n], s, Sent(c, s, es[..n]), Burnt(c, s, es[..n]),
                   TakenOut(c, s, es[..n]), TakenBack(c, s, es[..n]));
    }
  }

  lemma EntryMatched(c: Setup, t: State, e: Event, s: State, sent: seq<Message>, burnt: seq<Message>,
                     out: seq<Message>, back: seq<Message>)
    requires Matched(t.outbound, out, s.outbound, sent) && Matched(t.inbound, back, s.inbound, burnt)
    ensures Matched(Step(c, t, e).0.outbound,
                    out + (if e.RelayOut? && e.index < |t.outbound| then [t.outbound[e.index]] else []), s.outbound,
                    sent + (if e.Send? && Step(c, t, e).1 == Done then [Message(e.to, e.amount)] else []))
    ensures Matched(Step(c, t, e).0.inbound,
                    back + (if e.RelayBack? && e.index < |t.inbound| then [t.inbound[e.index]] else []), s.inbound,
                    burnt + (if e.Burn? && Step(c, t, e).1 == Done then [Message(e.to, e.amount)] else []))
  {
    hide Matched, RemoveAt;
    assert sent + [] == sent && burnt + [] == burnt && out + [] == out && back + [] == back;
    match e
    case Send(to, a) => MatchedAccept(t.outbound, out, s.outbound, sent, Message(to, a));
    case Burn(to, a, _) => MatchedAccept(t.inbound, back, s.inbound, burnt, Message(to, a));
    case RelayOut(i) => if i < |t.outbound| { MatchedTake(t.outbound, out, s.outbound, sent, i); }
    case RelayBack(i) => if i < |t.inbound| { MatchedTake(t.inbound, back, s.inbound, burnt, i); }
    case _ =>
  }

  /** The balances told from the requests accepted and the messages taken. */
  ghost predicate Accounted(c: Setup, t: State, minted: nat, sent: seq<Message>, burnt: seq<Message>,
                            out: seq<Message>, back: seq<Message>) {
    && t.minted == minted
    && t.locked == Sum(sent) - SumIf(out, Bouncing(c)) - SumIf(back, Unlocking(c))
    && t.balance == minted - t.locked
    && t.supply == SumIf(out, Landing(c)) + SumIf(back, Returning(c)) - Sum(burnt)
    && t.stranded == SumIf(back, Lost(c))
  }

  /**
    On every run of a new bridge: what is locked is what was asked in the accepted sends, less what
    the relayer gave back for sends to the zero address and unlocked for approved recipients; the
    public supply is what landed there or was refunded, less what was asked in the accepted burns;
    and what was burned for anyone else is stranded.
   */
  lemma {:induction false} LedgerExact(c: Setup, status: Status, es: seq<Event>)
    ensures var s := Initial(status);
            Accounted(c, Play(c, s, es), MintedIn(es), Sent(c, s, es), Burnt(c, s, es), TakenOut(c, s, es), TakenBack(c, s, es))
  {
    if es == [] {
    } else {
      var n, s := |es| - 1, Initial(status);
      LedgerExact(c, status, es[..n]);
      PlaySnoc(c, s, es);
      hide Play;
      EntryAccounted(c, Play(c, s, es[..n]), es[n], MintedIn(es[..n]), Sent(c, s, es[..n]), Burnt(c, s, es[..n]),
                     TakenOut(c, s, es[..n]), TakenBack(c, s, es[..n]));
    }
  }

  lemma EntryAccounted(c: Setup, t: State, e: Event, minted: nat, sent: seq<Message>, burnt: seq<Message>,
                       out: seq<Message>, back: seq<Message>)
    requires Accounted(c, t, minted, sent, burnt, out, back)
    ensures Accounted(c, Step(c, t, e).0,
                      minted + (if e.Mint? then e.amount else 0),
                      sent + (if e.Send? && Step(c, t, e).1 == Done then [Message(e.to, e.amount)] else []),
                      burnt + (if e.Burn? && Step(c, t, e).1 == Done then [Message(e.to, e.amount)] else []),
                      out + (if e.RelayOut? && e.index < |t.outbound| then [t.outbound[e.index]] else []),
                      back + (if e.RelayBack? && e.index < |t.inbound| then [t.inbound[e.index]] else []))
  {
    hide SumIf, RemoveAt;
    assert sent + [] == sent && burnt + [] == burnt && out + [] == out && back + [] == back;
    match e
    case Send(to, a) => SumSnoc(sent, Any, Message(to, a));
    case Burn(to, a, refused) => SumSnoc(burnt, Any, Message(to, a));
    case RelayOut(i) =>
      if i < |t.outbound| {
        SumSnoc(out, Bouncing(c), t.outbound[i]);
        SumSnoc(out, Landing(c), t.outbound[i]);
      }
    case RelayBack(i) =>
      if i < |t.inbound| {
        SumSnoc(back, Unlocking(c), t.inbound[i]);
        SumSnoc(back, Returning(c), t.inbound[i]);
        SumSnoc(back, Lost(c), t.inbound[i]);
      }
    case _ =>
  }

  // -------------------------------------------------------------- the status

  /** The last freeze or unfreeze asked for was a freeze. */
  predicate FreezeLast(es: seq<Event>) {
    es != [] &&
    var e := es[|es| - 1];
    e.Freeze? || (!e.Unfreeze? && FreezeLast(es[..|es| - 1]))
  }

  /** A deployed token stands frozen from a freeze to the next unfreeze; any other status stays as it was. */
  lemma {:induction false} StatusExact(c: Setup, status: Status, es: seq<Event>)
    requires status != Frozen
    ensures Play(c, Initial(status), es).status == if status == Deployed && FreezeLast(es) then Frozen else status
    ensures Play(c, Initial(status), es).saved == status
  {
    if es == [] {
    } else {
      StatusExact(c, status, es[..|es| - 1]);
      PlaySnoc(c, Initial(status), es);
    }
  }

  /** On every run a send is accepted exactly when the token is live and the amount asked is there. */
  lemma SendAcceptedExactly(c: Setup, es: seq<Event>, to: string, a: nat)
    ensures var s := Initial(Deployed);
            Answer(c, s, es + [Send(to, a)]) == Done <==>
            !FreezeLast(es) && a + Sum(Sent(c, s, es)) <=
              MintedIn(es) + SumIf(TakenOut(c, s, es), Bouncing(c)) + SumIf(TakenBack(c, s, es), Unlocking(c))
  {
    var s, all := Initial(Deployed), es + [Send(to, a)];
    assert all[..|all| - 1] == es;
    StatusExact(c, Deployed, es);
    LedgerExact(c, Deployed, es);
    hide Play, Sent, TakenOut, TakenBack;
  }
}
