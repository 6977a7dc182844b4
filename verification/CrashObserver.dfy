/** Watching a service for a crash loop: probe, count confirmed crashes, restart, check delivery. */
module CrashObserver {
  import opened Text

  /** What a restart comes to: it fails, the service never answers again in time, or it does. */
  datatype Recovery = RestartFailed | NeverAnswered | Answered

  /**
    What iteration i of the loop would see: the clock at its start, whether probe j finds the
    service alive, how a restart would go, and whether the delivery check succeeds; the elapsed time
    is read once when a crash is counted and again, after the restart, when the delivery is seen.
   */
  datatype World = World(
    now: nat -> nat,
    alive: (nat, nat) -> bool,
    recovery: nat -> Recovery,
    delivery: nat -> bool,
    crashStamp: nat -> nat,
    deliveryStamp: nat -> nat)

  datatype Options = Options(end: nat, confirmProbes: nat, crashLoopConfirm: int)

  datatype State = State(
    prevAlive: bool,
    crashCount: nat,
    restarts: nat,
    delivered: bool,
    firstCrashAt: Option<nat>,
    deliveredAt: Option<nat>)

  datatype Exit = Healthy | LoopProven | Deadline

  datatype Observation = Observation(state: State, exit: Exit, iterations: nat)

  /** The pause between iterations takes time. */
  ghost predicate Ticks(w: World) {
    forall i: nat :: w.now(i) < w.now(i + 1)
  }

  const START := State(true, 0, 0, false, None, None)

  /** All the confirmation probes of iteration i fail. */
  predicate Down(o: Options, w: World, i: nat) {
    forall j: nat :: j < o.confirmProbes ==> !w.alive(i, j)
  }

  function Iterate(o: Options, w: World, i: nat, s: State): State {
    var down := Down(o, w, i);
    var crashed := s.prevAlive && down;
    var arrived := !s.delivered && w.delivery(i);
    State(
      !down || w.recovery(i) == Answered,
      s.crashCount + (if crashed then 1 else 0),
      s.restarts + (if down && w.recovery(i) != RestartFailed then 1 else 0),
      s.delivered || w.delivery(i),
      if crashed && s.firstCrashAt == None then Some(w.crashStamp(i)) else s.firstCrashAt,
      if arrived then Some(w.deliveryStamp(i)) else s.deliveredAt)
  }

  /** The exit taken at the end of an iteration, if any. */
  function ExitTest(o: Options, s: State): Option<Exit> {
    if s.delivered && s.crashCount == 0 then Some(Healthy)
    else if s.crashCount >= o.crashLoopConfirm then Some(LoopProven)
    else None
  }

  function Run(o: Options, w: World, i: nat, s: State): Observation
    requires Ticks(w)
    decreases o.end - w.now(i)
  {
    if w.now(i) >= o.end then Observation(s, Deadline, i)
    else
      var s' := Iterate(o, w, i, s);
      match ExitTest(o, s')
      case Some(e) => Observation(s', e, i + 1)
      case None => Run(o, w, i + 1, s')
  }

  method ConfirmedDown(o: Options, w: World, i: nat) returns (down: bool)
    ensures down == Down(o, w, i)
  {
    for j := 0 to o.confirmProbes
      invariant forall k: nat :: k < j ==> !w.alive(i, k)
    {
      if w.alive(i, j) { return false; }
    }
    down := true;
  }

  method ObserveRelayerCrashLoop(o: Options, w: World) returns (r: Observation)
    requires Ticks(w)
    ensures r == Run(o, w, 0, START)
  {
    var prevAlive, crashCount, restarts, delivered := true, 0, 0, false;
    var firstCrashAt: Option<nat>, deliveredAt: Option<nat> := None, None;
    var i := 0;
    while w.now(i) < o.end
      invariant crashCount >= 0 && restarts >= 0
      invariant Run(o, w, 0, START) == Run(o, w, i, State(prevAlive, crashCount, restarts, delivered, firstCrashAt, deliveredAt))
      decreases o.end - w.now(i)
    {
      ghost var before := State(prevAlive, crashCount, restarts, delivered, firstCrashAt, deliveredAt);
      var down := ConfirmedDown(o, w, i);
      var alive := !down;
      if prevAlive && down {
        crashCount := crashCount + 1;
        if firstCrashAt == None { firstCrashAt := Some(w.crashStamp(i)); }
      }
      prevAlive := alive;
      if down && w.recovery(i) != RestartFailed {
        restarts := restarts + 1;
        if w.recovery(i) == Answered { prevAlive := true; }
      }
      if !delivered && w.delivery(i) {
        delivered := true;
        deliveredAt := Some(w.deliveryStamp(i));
      }
      assert State(prevAlive, crashCount, restarts, delivered, firstCrashAt, deliveredAt) == Iterate(o, w, i, before);
      if delivered && crashCount == 0 {
        return Observation(State(prevAlive, crashCount, restarts, delivered, firstCrashAt, deliveredAt), Healthy, i + 1);
      }
      if crashCount >= o.crashLoopConfirm {
        return Observation(State(prevAlive, crashCount, restarts, delivered, firstCrashAt, deliveredAt), LoopProven, i + 1);
      }
      i := i + 1;
    }
    r := Observation(State(prevAlive, crashCount, restarts, delivered, firstCrashAt, deliveredAt), Deadline, i);
  }

  // ------------------------------------------------- what the counters count

  /** The service was seen alive in iteration i, by a probe or by answering after a restart. */
  predicate SeenAlive(o: Options, w: World, i: nat) {
    !Down(o, w, i) || w.recovery(i) == Answered
  }

  /** A confirmed crash: down on every probe, and alive when last seen. */
  predicate CrashAt(o: Options, w: World, i: nat) {
    Down(o, w, i) && (i == 0 || SeenAlive(o, w, i - 1))
  }

  predicate RestartAt(o: Options, w: World, i: nat) {
    Down(o, w, i) && w.recovery(i) != RestartFailed
  }

  /** The iterations among the first n at which a crash is counted. */
  function Crashes(o: Options, w: World, n: nat): seq<nat> {
    if n == 0 then [] else Crashes(o, w, n - 1) + if CrashAt(o, w, n - 1) then [n - 1] else []
  }

  function Restarts(o: Options, w: World, n: nat): seq<nat> {
    if n == 0 then [] else Restarts(o, w, n - 1) + if RestartAt(o, w, n - 1) then [n - 1] else []
  }

  function FirstDelivery(w: World, n: nat): Option<nat> {
    if n == 0 then None
    else if FirstDelivery(w, n - 1).Some? then FirstDelivery(w, n - 1)
    else if w.delivery(n - 1) then Some(n - 1) else None
  }

  /** The state after n iterations, told from what was observed rather than step by step. */
  function Told(o: Options, w: World, n: nat): State {
    var crashes, first := Crashes(o, w, n), FirstDelivery(w, n);
    State(
      n == 0 || SeenAlive(o, w, n - 1),
      |crashes|,
      |Restarts(o, w, n)|,
      first.Some?,
      if crashes == [] then None else Some(w.crashStamp(crashes[0])),
      if first.Some? then Some(w.deliveryStamp(first.value)) else None)
  }

  lemma IterateTold(o: Options, w: World, n: nat)
    ensures Iterate(o, w, n, Told(o, w, n)) == Told(o, w, n + 1)
  {
    assert Crashes(o, w, n + 1) == Crashes(o, w, n) + if CrashAt(o, w, n) then [n] else [];
    assert Restarts(o, w, n + 1) == Restarts(o, w, n) + if RestartAt(o, w, n) then [n] else [];
  }

  lemma {:induction false} RunTold(o: Options, w: World, i: nat)
    requires Ticks(w)
    ensures var r := Run(o, w, i, Told(o, w, i));
            r.iterations >= i && r.state == Told(o, w, r.iterations)
    decreases o.end - w.now(i)
  {
    if w.now(i) < o.end {
      IterateTold(o, w, i);
      if ExitTest(o, Told(o, w, i + 1)) == None {
        RunTold(o, w, i + 1);
      }
    }
  }

  /** Why the run stopped, and that it could not have stopped before. */
  lemma {:induction false} RunStops(o: Options, w: World, i: nat, s: State)
    requires Ticks(w)
    ensures var r := Run(o, w, i, s);
            && (r.exit == Deadline ==> w.now(r.iterations) >= o.end)
            && (r.exit != Deadline ==> ExitTest(o, r.state) == Some(r.exit))
            && (r.exit == Deadline && r.iterations > i ==> ExitTest(o, r.state) == None)
            && r.iterations >= i
    decreases o.end - w.now(i)
  {
    if w.now(i) < o.end {
      var s' := Iterate(o, w, i, s);
      if ExitTest(o, s') == None {
        RunStops(o, w, i + 1, s');
      }
    }
  }

  lemma {:induction false} CapKept(o: Options, w: World, i: nat, s: State)
    requires Ticks(w) && s.crashCount < o.crashLoopConfirm
    ensures Run(o, w, i, s).state.crashCount <= o.crashLoopConfirm
    decreases o.end - w.now(i)
  {
    if w.now(i) < o.end {
      var s' := Iterate(o, w, i, s);
      if ExitTest(o, s') == None {
        CapKept(o, w, i + 1, s');
      }
    }
  }

  /**
    The observation tells the truth: its counters are the confirmed crashes and issued restarts of
    the iterations it made, its time stamps are present exactly when the counter or flag is set, and
    it stopped for exactly the reason it had: healthy, loop proven, or out of time.
   */
  lemma ObservationExact(o: Options, w: World)
    requires Ticks(w)
    ensures var r := Run(o, w, 0, START);
            && r.state == Told(o, w, r.iterations)
            && (r.state.firstCrashAt == None <==> r.state.crashCount == 0)
            && (r.state.deliveredAt == None <==> !r.state.delivered)
            && (r.exit == Healthy ==> r.state.delivered && r.state.crashCount == 0)
            && (r.exit == LoopProven ==> r.state.crashCount >= o.crashLoopConfirm && !(r.state.delivered && r.state.crashCount == 0))
            && (r.exit == Deadline ==> w.now(r.iterations) >= o.end)
            && (r.exit == Deadline && r.iterations > 0 ==>
                  r.state.crashCount < o.crashLoopConfirm && !(r.state.delivered && r.state.crashCount == 0))
  {
    RunTold(o, w, 0);
    RunStops(o, w, 0, START);
    assert Told(o, w, 0) == START;
  }

  /** With a threshold of at least one, no more crashes are counted than the threshold asks for. */
  lemma CrashCountCapped(o: Options, w: World)
    requires Ticks(w) && o.crashLoopConfirm >= 1
    ensures Run(o, w, 0, START).state.crashCount <= o.crashLoopConfirm
  {
    CapKept(o, w, 0, START);
  }

  lemma {:induction false} CrashesAre(o: Options, w: World, n: nat, k: nat)
    requires k < |Crashes(o, w, n)|
    ensures Crashes(o, w, n)[k] < n && CrashAt(o, w, Crashes(o, w, n)[k])
    ensures k > 0 ==> Crashes(o, w, n)[k - 1] < Crashes(o, w, n)[k]
  {
    var before := Crashes(o, w, n - 1);
    if k < |before| {
      CrashesAre(o, w, n - 1, k);
    } else if k > 0 {
      CrashesAre(o, w, n - 1, k - 1);
    }
  }

  /**
    Each counted crash rests on `confirmProbes` consecutive failed probes, and between any two the
    service was seen alive.
   */
  lemma CrashesConfirmedAndSeparated(o: Options, w: World, n: nat, k: nat)
    requires k < |Crashes(o, w, n)|
    ensures var c := Crashes(o, w, n)[k];
            && (forall j: nat :: j < o.confirmProbes ==> !w.alive(c, j))
            && (k > 0 ==> exists a :: Crashes(o, w, n)[k - 1] <= a < c && SeenAlive(o, w, a))
  {
    CrashesAre(o, w, n, k);
    if k > 0 {
      assert SeenAlive(o, w, Crashes(o, w, n)[k] - 1);
    }
  }

  // -------------------------------------------------- the counters, on probes

  /** All of iteration i's confirmation probes failed. */
  ghost predicate AllProbesFailed(o: Options, w: World, i: nat) {
    forall j: nat :: j < o.confirmProbes ==> !w.alive(i, j)
  }

  lemma {:induction false} CrashesMembers(o: Options, w: World, n: nat, i: nat)
    ensures i in Crashes(o, w, n) <==>
            i < n && AllProbesFailed(o, w, i) && (i > 0 && AllProbesFailed(o, w, i - 1) ==> w.recovery(i - 1) == Answered)
    ensures |Crashes(o, w, n)| <= n
  {
    if n == 0 {
    } else {
      CrashesMembers(o, w, n - 1, i);
    }
  }

  lemma {:induction false} RestartsMembers(o: Options, w: World, n: nat, i: nat)
    ensures i in Restarts(o, w, n) <==> i < n && AllProbesFailed(o, w, i) && w.recovery(i) != RestartFailed
    ensures forall x, y :: 0 <= x < y < |Restarts(o, w, n)| ==> Restarts(o, w, n)[x] < Restarts(o, w, n)[y] < n
    ensures Restarts(o, w, n) != [] ==> Restarts(o, w, n)[|Restarts(o, w, n)| - 1] < n
  {
    if n == 0 {
    } else {
      RestartsMembers(o, w, n - 1, i);
    }
  }

  lemma {:induction false} FirstDeliveryIs(w: World, n: nat, i: nat)
    ensures FirstDelivery(w, n) == Some(i) <==> i < n && w.delivery(i) && forall j: nat :: j < i ==> !w.delivery(j)
    ensures FirstDelivery(w, n) == None <==> forall j: nat :: j < n ==> !w.delivery(j)
  {
    if n == 0 {
    } else {
      FirstDeliveryIs(w, n - 1, i);
      if FirstDelivery(w, n - 1).Some? { FirstDeliveryIs(w, n - 1, FirstDelivery(w, n - 1).value); }
    }
  }

  /** The run is over at the start of iteration n: it is too late, delivery without a crash, or enough crashes. */
  predicate OverAt(o: Options, w: World, n: nat) {
    || w.now(n) >= o.end
    || (n > 0 && FirstDelivery(w, n).Some? && Crashes(o, w, n) == [])
    || (n > 0 && |Crashes(o, w, n)| >= o.crashLoopConfirm)
  }

  lemma {:induction false} RunsOn(o: Options, w: World, i: nat, n: nat)
    requires Ticks(w) && i <= n < Run(o, w, i, Told(o, w, i)).iterations
    ensures !(n > i && OverAt(o, w, n)) && w.now(n) < o.end
    decreases o.end - w.now(i)
  {
    if w.now(i) < o.end {
      IterateTold(o, w, i);
      if ExitTest(o, Told(o, w, i + 1)) == None && n > i { RunsOn(o, w, i + 1, n); }
    }
  }

  /** The observation makes iterations until the first moment at which the run is over, and no more. */
  lemma StopsAtFirst(o: Options, w: World)
    requires Ticks(w)
    ensures var n := Run(o, w, 0, START).iterations;
            OverAt(o, w, n) && forall m: nat :: m < n ==> !OverAt(o, w, m)
  {
    ObservationExact(o, w);
    assert Told(o, w, 0) == START;
    forall m: nat | m < Run(o, w, 0, START).iterations
      ensures !OverAt(o, w, m)
    {
      RunsOn(o, w, 0, m);
    }
  }

  /** The observation itself: which iterations it counts, and when it saw the first crash and the delivery. */
  lemma StampsExactly(o: Options, w: World, i: nat)
    requires Ticks(w)
    ensures var r := Run(o, w, 0, START);
            var n := r.iterations;
            && r.state.crashCount == |Crashes(o, w, n)| && r.state.restarts == |Restarts(o, w, n)|
            && (r.state.delivered <==> exists j: nat :: j < n && w.delivery(j))
            && (i < n && w.delivery(i) && (forall j: nat :: j < i ==> !w.delivery(j)) ==>
                  r.state.deliveredAt == Some(w.deliveryStamp(i)))
            && (i in Crashes(o, w, n) && (forall j: nat :: j < i ==> j !in Crashes(o, w, n)) ==>
                  r.state.firstCrashAt == Some(w.crashStamp(i)))
  {
    ObservationExact(o, w);
    var n := Run(o, w, 0, START).iterations;
    FirstDeliveryIs(w, n, i);
    if FirstDelivery(w, n).Some? { FirstDeliveryIs(w, n, FirstDelivery(w, n).value); }
    var cs := Crashes(o, w, n);
    if i in cs && forall j: nat :: j < i ==> j !in cs {
      var k :| 0 <= k < |cs| && cs[k] == i;
      CrashesAre(o, w, n, k);
      assert forall x :: 0 <= x < |cs| ==> cs[x] in cs;
      assert k == 0;
    }
  }
}
