/**
  The parallel phase on a clock: slot i starts at `i * stagger`, file k of the queue takes `d[k]`,
  and the event loop always serves an await that is due first.  Which of several awaits due at the
  same time goes first, and each exit code, are arbitrary.
 */
module TimedPhase {
  import opened Scheduler
  import opened ListScheduling

  datatype Clocked = Clocked(s: State, due: seq<nat>, starts: seq<nat>)

  /** Slot to serve next, with the exit code of its child if it was running one. */
  datatype Turn = Turn(slot: nat, code: ExitCode)

  function Start(c: Setup, stagger: nat): Clocked {
    Clocked(Initial(c), seq(c.workers, i requires 0 <= i < c.workers => i * stagger), [])
  }

  ghost predicate Wf(c: Setup, d: seq<nat>, t: Clocked) {
    && |d| == |c.queue|
    && Inv(c, t.s) && NoneAwake(t.s)
    && |t.due| == c.workers && |t.starts| == |t.s.children|
  }

  /** The slot has an await pending and no other pending await is due earlier. */
  ghost predicate DueFirst(c: Setup, t: Clocked, i: nat)
    requires |t.due| == |t.s.phase| == c.workers
  {
    i < c.workers && t.s.phase[i] != Finished &&
    forall j :: 0 <= j < c.workers && t.s.phase[j] != Finished ==> t.due[i] <= t.due[j]
  }

  function EventOf(d: seq<nat>, t: Clocked, turn: Turn): Event
    requires turn.slot < |t.s.phase|
    requires t.s.phase[turn.slot].Running? ==> t.s.phase[turn.slot].child.fileIndex < |d|
  {
    if t.s.phase[turn.slot].Running? then Closed(turn.slot, turn.code, d[t.s.phase[turn.slot].child.fileIndex])
    else Woken(turn.slot)
  }

  lemma EventOk(c: Setup, d: seq<nat>, t: Clocked, turn: Turn)
    requires Wf(c, d, t) && DueFirst(c, t, turn.slot)
    ensures t.s.phase[turn.slot].Running? ==> t.s.phase[turn.slot].child.fileIndex < |d|
    ensures Enabled(c, t.s, EventOf(d, t, turn))
  {
    assert RunsIn(c, t.s, turn.slot);
  }

  /** Unless all slots have returned, some await is due first: the clock can always go on. */
  lemma {:induction false} SomeoneIsDue(c: Setup, t: Clocked, i: nat) returns (j: nat)
    requires |t.due| == |t.s.phase| == c.workers && i < c.workers && t.s.phase[i] != Finished
    ensures DueFirst(c, t, j) && t.due[j] <= t.due[i]
    decreases t.due[i]
  {
    j := i;
    if !DueFirst(c, t, i) {
      var k :| 0 <= k < c.workers && t.s.phase[k] != Finished && t.due[k] < t.due[i];
      j := SomeoneIsDue(c, t, k);
    }
  }

  ghost function Advance(c: Setup, d: seq<nat>, t: Clocked, turn: Turn): Clocked
    requires Wf(c, d, t) && DueFirst(c, t, turn.slot)
  {
    EventOk(c, d, t, turn);
    var i := turn.slot;
    var s' := Step(c, t.s, EventOf(d, t, turn));
    if |s'.children| > |t.s.children| then
      Clocked(s', t.due[i := t.due[i] + d[|t.s.children|]], t.starts + [t.due[i]])
    else
      Clocked(s', t.due, t.starts)
  }

  function SlotsOf(children: seq<Child>): (a: seq<nat>)
    ensures |a| == |children|
    ensures forall k :: 0 <= k < |a| ==> a[k] == children[k].slot
  {
    seq(|children|, k requires 0 <= k < |children| => children[k].slot)
  }

  /** The run so far is a list schedule, and each slot's clock is its stagger plus its load. */
  ghost predicate OnSchedule(m: nat, stagger: nat, d: seq<nat>, t: Clocked) {
    var n, a := |t.s.children|, SlotsOf(t.s.children);
    && n <= |d| && |t.due| == m
    && IsListSchedule(m, stagger, d[..n], a, t.starts)
    && forall i: nat :: i < m ==> t.due[i] == FreeAt(stagger, d[..n], a, i)
  }

  lemma StartOnSchedule(c: Setup, stagger: nat, d: seq<nat>)
    requires |d| == |c.queue|
    ensures Wf(c, d, Start(c, stagger)) && OnSchedule(c.workers, stagger, d, Start(c, stagger))
  {
    InitialInv(c);
  }

  /** A step dispatches one file, and only while every slot is still pending, or none. */
  lemma DispatchMeansAllPending(c: Setup, s: State, e: Event)
    requires Inv(c, s) && Enabled(c, s, e)
    ensures var after := Step(c, s, e).children;
            after == s.children ||
            (|after| == |s.children| + 1 && after[..|s.children|] == s.children && after[|s.children|].slot == e.slot &&
             forall i :: 0 <= i < c.workers ==> s.phase[i] != Finished)
  {
    CountAll(s.phase, IsFinished);
  }

  lemma AdvanceWf(c: Setup, d: seq<nat>, t: Clocked, turn: Turn)
    requires Wf(c, d, t) && DueFirst(c, t, turn.slot)
    ensures Wf(c, d, Advance(c, d, t, turn))
  {
    hide Step, CustodyOk, RunsOk, BooksOk;
    EventOk(c, d, t, turn);
    var e := EventOf(d, t, turn);
    StepInv(c, t.s, e);
    StepAwake(c, t.s, e);
    DispatchMeansAllPending(c, t.s, e);
  }

  lemma ScheduleExtends(m: nat, stagger: nat, d: seq<nat>, a: seq<nat>, starts: seq<nat>, i: nat, x: nat, start: nat)
    requires IsListSchedule(m, stagger, d, a, starts) && i < m
    requires start == FreeAt(stagger, d, a, i)
    requires forall j: nat :: j < m ==> start <= FreeAt(stagger, d, a, j)
    ensures IsListSchedule(m, stagger, d + [x], a + [i], starts + [start])
    ensures forall j: nat :: j < m ==>
              FreeAt(stagger, d + [x], a + [i], j) == FreeAt(stagger, d, a, j) + if j == i then x else 0
  {
    var n, d', a', starts' := |d|, d + [x], a + [i], starts + [start];
    assert d'[..n] == d && a'[..n] == a;
    forall k: nat | k < n + 1
      ensures StartsEarliest(m, stagger, d', a', starts', k)
    {
      if k < n {
        assert StartsEarliest(m, stagger, d, a, starts, k);
        assert d'[..k] == d[..k] && a'[..k] == a[..k];
      }
    }
  }

  /** One dispatch on a slot that is due no later than any other. */
  lemma DispatchOnSchedule(m: nat, stagger: nat, d: seq<nat>, t: Clocked, i: nat, t': Clocked)
    requires OnSchedule(m, stagger, d, t) && i < m && |t.s.children| < |d|
    requires forall j :: 0 <= j < m ==> t.due[i] <= t.due[j]
    requires |t'.s.children| == |t.s.children| + 1
    requires t'.s.children[..|t.s.children|] == t.s.children && t'.s.children[|t.s.children|].slot == i
    requires t'.starts == t.starts + [t.due[i]]
    requires t'.due == t.due[i := t.due[i] + d[|t.s.children|]]
    ensures OnSchedule(m, stagger, d, t')
  {
    var n, a := |t.s.children|, SlotsOf(t.s.children);
    forall j: nat | j < m
      ensures t.due[i] <= FreeAt(stagger, d[..n], a, j)
    {
      assert t.due[j] == FreeAt(stagger, d[..n], a, j);
    }
    ScheduleExtends(m, stagger, d[..n], a, t.starts, i, d[n], t.due[i]);
    assert d[..n] + [d[n]] == d[..n + 1];
    assert SlotsOf(t'.s.children) == a + [i];
  }

  lemma IdleOnSchedule(m: nat, stagger: nat, d: seq<nat>, t: Clocked, t': Clocked)
    requires OnSchedule(m, stagger, d, t)
    requires t'.s.children == t.s.children && t'.starts == t.starts && t'.due == t.due
    ensures OnSchedule(m, stagger, d, t')
  {
  }

  lemma AdvanceOnSchedule(c: Setup, stagger: nat, d: seq<nat>, t: Clocked, turn: Turn)
    requires Wf(c, d, t) && DueFirst(c, t, turn.slot) && OnSchedule(c.workers, stagger, d, t)
    ensures OnSchedule(c.workers, stagger, d, Advance(c, d, t, turn))
  {
    hide Step, OnSchedule, CustodyOk, RunsOk, BooksOk;
    EventOk(c, d, t, turn);
    AdvanceWf(c, d, t, turn);
    var t' := Advance(c, d, t, turn);
    DispatchMeansAllPending(c, t.s, EventOf(d, t, turn));
    if |t'.s.children| > |t.s.children| {
      DispatchOnSchedule(c.workers, stagger, d, t, turn.slot, t');
    } else {
      IdleOnSchedule(c.workers, stagger, d, t, t');
    }
  }

  /** Each turn of `turns` serves an await that is due first. */
  ghost predicate Timely(c: Setup, d: seq<nat>, t: Clocked, turns: seq<Turn>)
    decreases |turns|
  {
    turns == [] ||
    (CanServe(c, d, t, turns[0]) && Timely(c, d, Advance(c, d, t, turns[0]), turns[1..]))
  }

  ghost predicate CanServe(c: Setup, d: seq<nat>, t: Clocked, turn: Turn) {
    Wf(c, d, t) && DueFirst(c, t, turn.slot)
  }

  ghost function RunFrom(c: Setup, d: seq<nat>, t: Clocked, turns: seq<Turn>): Clocked
    requires Timely(c, d, t, turns)
    decreases |turns|
  {
    if turns == [] then t else RunFrom(c, d, Advance(c, d, t, turns[0]), turns[1..])
  }

  lemma {:induction false} RunOnSchedule(c: Setup, stagger: nat, d: seq<nat>, t: Clocked, turns: seq<Turn>)
    requires Timely(c, d, t, turns) && Wf(c, d, t) && OnSchedule(c.workers, stagger, d, t)
    ensures Wf(c, d, RunFrom(c, d, t, turns)) && OnSchedule(c.workers, stagger, d, RunFrom(c, d, t, turns))
    decreases |turns|
  {
    if turns == [] {
    } else {
      hide OnSchedule, Advance, Inv;
      AdvanceWf(c, d, t, turns[0]);
      AdvanceOnSchedule(c, stagger, d, t, turns[0]);
      RunOnSchedule(c, stagger, d, Advance(c, d, t, turns[0]), turns[1..]);
    }
  }

  /** When file k of the run ends, or will end if it is still running. */
  function EndOf(d: seq<nat>, t: Clocked, k: nat): nat
    requires k < |t.starts| <= |d|
  {
    t.starts[k] + d[k]
  }
}
