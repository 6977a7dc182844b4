/** What holds of every run of the parallel phase, whatever the interleaving, exit codes and durations. */
module SchedulerRuns {
  import opened Text
  import opened Scheduler

  predicate AllFinished(s: State) {
    forall i :: 0 <= i < |s.phase| ==> s.phase[i] == Finished
  }

  predicate Reachable(c: Setup, es: seq<Event>) {
    Shape(c, Initial(c)) && Playable(c, Initial(c), es)
  }

  function After(c: Setup, es: seq<Event>): State
    requires Reachable(c, es)
  {
    Play(c, Initial(c), es)
  }

  lemma ReachableInv(c: Setup, es: seq<Event>)
    requires Reachable(c, es)
    ensures Inv(c, After(c, es)) && NoneAwake(After(c, es))
  {
    InitialInv(c);
    PlayInv(c, Initial(c), es);
  }

  // --------------------------------------------------------- report suffixes

  lemma SuffixInjective(slot: nat, run: nat, slot': nat, run': nat)
    requires ReportSuffix(slot, run) == ReportSuffix(slot', run')
    ensures slot == slot' && run == run'
  {
    var a, b, a', b' := Decimal(slot), Decimal(run), Decimal(slot'), Decimal(run');
    var t := a + "-" + b;
    assert t == a' + "-" + b';
    assert t[|a|] == '-' && forall i :: 0 <= i < |a| ==> t[i] == a[i] != '-';
    assert t[|a'|] == '-' && forall i :: 0 <= i < |a'| ==> t[i] == a'[i] != '-';
    assert a == t[..|a|] == a' && b == t[|a| + 1..] == b';
    DecimalInjective(slot, slot');
    DecimalInjective(run, run');
  }

  /** No two children ever share a report suffix, so no report overwrites another. */
  lemma SuffixesDistinct(c: Setup, es: seq<Event>, j: nat, k: nat)
    requires Reachable(c, es) && j < k < |After(c, es).children|
    ensures After(c, es).children[j].suffix != After(c, es).children[k].suffix
  {
    ReachableInv(c, es);
    var x, y := After(c, es).children[j], After(c, es).children[k];
    if x.suffix == y.suffix {
      SuffixInjective(x.slot, x.run, y.slot, y.run);
    }
  }

  // ------------------------------------------------------------ dispatching

  function FilesOf(children: seq<Child>): (fs: seq<string>)
    ensures |fs| == |children|
    ensures forall k :: 0 <= k < |fs| ==> fs[k] == children[k].file
  {
    seq(|children|, k requires 0 <= k < |children| => children[k].file)
  }

  /** In every reachable state the dispatched files are a prefix of the queue, of the length the progress line shows. */
  lemma DispatchedIsPrefix(c: Setup, es: seq<Event>)
    requires Reachable(c, es)
    ensures var s := After(c, es);
            var shown := if s.queuePos <= |c.queue| then s.queuePos else |c.queue|;
            FilesOf(s.children) == c.queue[..shown]
  {
    ReachableInv(c, es);
  }

  // ------------------------------------------------- events and their children

  lemma {:induction false} PlaySnoc(c: Setup, s: State, es: seq<Event>)
    requires Shape(c, s) && Playable(c, s, es) && es != []
    ensures var n := |es| - 1;
            && Playable(c, s, es[..n]) && Enabled(c, Play(c, s, es[..n]), es[n])
            && Play(c, s, es) == Step(c, Play(c, s, es[..n]), es[n])
    decreases |es|
  {
    var n := |es| - 1;
    if n == 0 {
      assert es[1..] == [];
    } else {
      hide Step;
      PlaySnoc(c, Step(c, s, es[0]), es[1..]);
      assert es[1..][..n - 1] == es[..n][1..];
    }
  }

  lemma AfterSnoc(c: Setup, es: seq<Event>)
    requires Reachable(c, es) && es != []
    ensures var n := |es| - 1;
            && Reachable(c, es[..n]) && Enabled(c, After(c, es[..n]), es[n])
            && After(c, es) == Step(c, After(c, es[..n]), es[n])
  {
    PlaySnoc(c, Initial(c), es);
  }

  lemma {:induction false} PlayableSnoc(c: Setup, s: State, es: seq<Event>, e: Event)
    requires Shape(c, s) && Playable(c, s, es)
    ensures Playable(c, s, es + [e]) <==> Enabled(c, Play(c, s, es), e)
    decreases |es|
  {
    if es == [] {
      assert [e][1..] == [];
    } else {
      hide Step, Enabled;
      assert (es + [e])[1..] == es[1..] + [e];
      PlayableSnoc(c, Step(c, s, es[0]), es[1..], e);
    }
  }

  lemma {:induction false} StaggeringExactly(c: Setup, es: seq<Event>, i: nat)
    requires Reachable(c, es) && i < c.workers
    ensures After(c, es).phase[i] == Staggering <==> Woken(i) !in es
  {
    if es == [] {
    } else {
      var n := |es| - 1;
      AfterSnoc(c, es);
      StaggeringExactly(c, es[..n], i);
      assert es == es[..n] + [es[n]];
    }
  }

  /**
    What can happen next in a run: the stagger of any slot ends, once, and any child that is running
    closes, at any time and with any code.
   */
  lemma CanHappenExactly(c: Setup, es: seq<Event>, e: Event)
    requires Reachable(c, es)
    ensures Reachable(c, es + [e]) <==>
            e.slot < c.workers && if e.Woken? then e !in es else After(c, es).phase[e.slot].Running?
  {
    PlayableSnoc(c, Initial(c), es, e);
    if e.slot < c.workers { StaggeringExactly(c, es, e.slot); }
  }

  /** Event `j` of the run is the end of the child that ran file `k`. */
  predicate Ends(c: Setup, es: seq<Event>, j: nat, k: nat) {
    j < |es| && es[j].Closed? && es[j].slot < c.workers && Reachable(c, es[..j]) &&
    var p := After(c, es[..j]).phase[es[j].slot]; p.Running? && p.child.fileIndex == k
  }

  /** The positions of the `Closed` events, in order. */
  function Closings(es: seq<Event>): (js: seq<nat>)
    ensures forall x :: 0 <= x < |js| ==> js[x] < |es| && es[js[x]].Closed?
    ensures forall x, y :: 0 <= x < y < |js| ==> js[x] < js[y]
    ensures forall j: nat :: j < |es| && es[j].Closed? ==> j in js
  {
    if es == [] then []
    else
      var n := |es| - 1;
      Closings(es[..n]) + if es[n].Closed? then [n] else []
  }

  /** Entry `x` of the log says what event `j` said of the child it ended. */
  predicate Logged(c: Setup, es: seq<Event>, x: Exit, j: nat) {
    j < |es| && es[j] == Closed(x.child.slot, x.code, x.ms) && Ends(c, es, j, x.child.fileIndex)
  }

  lemma LoggedEarlier(c: Setup, es: seq<Event>, n: nat, x: Exit, j: nat)
    requires n <= |es| && Logged(c, es[..n], x, j)
    ensures Logged(c, es, x, j)
  {
    assert es[..n][..j] == es[..j];
  }

  lemma LastClosed(c: Setup, s: State, e: Event)
    requires Inv(c, s) && Enabled(c, s, e)
    ensures Step(c, s, e).exits ==
            s.exits + match e case Woken(_) => [] case Closed(i, code, ms) => [Exit(s.phase[i].child, code, ms)]
    ensures e.Closed? ==> s.phase[e.slot].child.slot == e.slot
  {
    if e.Closed? { assert RunsIn(c, s, e.slot); }
  }

  ghost predicate AllLogged(c: Setup, es: seq<Event>, exits: seq<Exit>, js: seq<nat>) {
    |exits| == |js| && forall x :: 0 <= x < |exits| ==> Logged(c, es, exits[x], js[x])
  }

  lemma LoggedOn(c: Setup, es: seq<Event>, exits: seq<Exit>, js: seq<nat>)
    requires es != [] && AllLogged(c, es[..|es| - 1], exits, js)
    ensures AllLogged(c, es, exits, js)
  {
    hide Logged;
    forall k | 0 <= k < |exits|
      ensures Logged(c, es, exits[k], js[k])
    {
      LoggedEarlier(c, es, |es| - 1, exits[k], js[k]);
    }
  }

  lemma LastLogged(c: Setup, es: seq<Event>)
    requires Reachable(c, es) && es != [] && es[|es| - 1].Closed?
    ensures var n := |es| - 1;
            Reachable(c, es[..n]) && Enabled(c, After(c, es[..n]), es[n]) &&
            Logged(c, es, Exit(After(c, es[..n]).phase[es[n].slot].child, es[n].code, es[n].ms), n)
  {
    AfterSnoc(c, es);
    ReachableInv(c, es[..|es| - 1]);
    LastClosed(c, After(c, es[..|es| - 1]), es[|es| - 1]);
  }

  /** The children close in the order of the `Closed` events, each with the slot, code and time of its event. */
  lemma {:induction false} ClosedInOrder(c: Setup, es: seq<Event>)
    requires Reachable(c, es)
    ensures AllLogged(c, es, After(c, es).exits, Closings(es))
  {
    if es == [] {
    } else {
      hide Inv, Playable, Play, Step, Logged;
      var n := |es| - 1;
      AfterSnoc(c, es);
      ReachableInv(c, es[..n]);
      ClosedInOrder(c, es[..n]);
      LastClosed(c, After(c, es[..n]), es[n]);
      LoggedOn(c, es, After(c, es[..n]).exits, Closings(es[..n]));
      if es[n].Closed? { LastLogged(c, es); }
    }
  }

  // -------------------------------------------------------------- accounting

  predicate LoggedOnce(s: State, k: nat, code: ExitCode) {
    exists x :: 0 <= x < |s.exits| && s.exits[x].child.fileIndex == k && s.exits[x].code == code
                && forall y :: 0 <= y < |s.exits| && y != x ==> s.exits[y].child.fileIndex != k
  }

  ghost predicate LoggedExactlyOnce(s: State, k: nat) {
    exists code :: LoggedOnce(s, k, code)
  }

  /** One event of the run ended a child that ran file `k`, and it reported `code`. */
  ghost predicate RanOnce(c: Setup, es: seq<Event>, k: nat, code: ExitCode) {
    exists j: nat :: Ends(c, es, j, k) && es[j].code == code && forall i: nat :: Ends(c, es, i, k) ==> i == j
  }

  ghost predicate RanExactlyOnce(c: Setup, es: seq<Event>, k: nat) {
    exists code :: RanOnce(c, es, k, code)
  }

  lemma EndsLogged(c: Setup, es: seq<Event>, j: nat, k: nat) returns (x: nat)
    requires Reachable(c, es) && Ends(c, es, j, k)
    ensures x < |After(c, es).exits| == |Closings(es)| && Closings(es)[x] == j
    ensures Logged(c, es, After(c, es).exits[x], j) && After(c, es).exits[x].child.fileIndex == k
  {
    ClosedInOrder(c, es);
    assert j in Closings(es);
    x :| 0 <= x < |Closings(es)| && Closings(es)[x] == j;
  }

  lemma RanLogged(c: Setup, es: seq<Event>, k: nat, code: ExitCode)
    requires Reachable(c, es) && RanOnce(c, es, k, code)
    ensures LoggedOnce(After(c, es), k, code)
  {
    ClosedInOrder(c, es);
    hide After, Reachable, Closings, Ends;
    var exits, js := After(c, es).exits, Closings(es);
    var j: nat :| Ends(c, es, j, k) && es[j].code == code && forall i: nat :: Ends(c, es, i, k) ==> i == j;
    var x := EndsLogged(c, es, j, k);
    forall y | 0 <= y < |exits| && y != x
      ensures exits[y].child.fileIndex != k
    {
      assert Logged(c, es, exits[y], js[y]) && js[y] != js[x];
    }
  }

  lemma LoggedRan(c: Setup, es: seq<Event>, k: nat, code: ExitCode)
    requires Reachable(c, es) && LoggedOnce(After(c, es), k, code)
    ensures RanOnce(c, es, k, code)
  {
    ClosedInOrder(c, es);
    hide After, Reachable, Closings, Ends;
    var exits, js := After(c, es).exits, Closings(es);
    var x :| 0 <= x < |exits| && exits[x].child.fileIndex == k && exits[x].code == code
             && forall y :: 0 <= y < |exits| && y != x ==> exits[y].child.fileIndex != k;
    assert Logged(c, es, exits[x], js[x]);
    forall i: nat | Ends(c, es, i, k)
      ensures i == js[x]
    {
      var y := EndsLogged(c, es, i, k);
    }
  }

  function SumCompleted(st: seq<Stats>): nat {
    if st == [] then 0 else SumCompleted(st[..|st| - 1]) + st[|st| - 1].filesCompleted
  }

  function SumBy(exits: seq<Exit>, n: nat): nat {
    if n == 0 then 0 else SumBy(exits, n - 1) + CompletedBy(exits, n - 1)
  }

  lemma {:induction false} SumByEmpty(n: nat)
    ensures SumBy([], n) == 0
  {
    if n == 0 {
    } else {
      SumByEmpty(n - 1);
    }
  }

  lemma {:induction false} SumBySnoc(exits: seq<Exit>, n: nat)
    requires exits != []
    ensures var l := |exits| - 1;
            SumBy(exits, n) == SumBy(exits[..l], n) + if exits[l].child.slot < n then 1 else 0
  {
    if n == 0 {
    } else {
      SumBySnoc(exits, n - 1);
    }
  }

  lemma {:induction false} SumByCounts(exits: seq<Exit>, n: nat)
    requires forall x :: 0 <= x < |exits| ==> exits[x].child.slot < n
    ensures SumBy(exits, n) == |exits|
  {
    if exits == [] {
      SumByEmpty(n);
    } else {
      SumBySnoc(exits, n);
      SumByCounts(exits[..|exits| - 1], n);
    }
  }

  lemma {:induction false} SumCompletedIsSumBy(exits: seq<Exit>, st: seq<Stats>)
    requires forall i :: 0 <= i < |st| ==> st[i].filesCompleted == CompletedBy(exits, i)
    ensures SumCompleted(st) == SumBy(exits, |st|)
  {
    if st == [] {
    } else {
      SumCompletedIsSumBy(exits, st[..|st| - 1]);
    }
  }

  /** At any moment the slots' counters add up to the number of children that have closed. */
  lemma CountersAddUp(c: Setup, es: seq<Event>)
    requires Reachable(c, es)
    ensures SumCompleted(After(c, es).slotStats) == |Closings(es)|
  {
    ReachableInv(c, es);
    ClosedInOrder(c, es);
    var s := After(c, es);
    SumCompletedIsSumBy(s.exits, s.slotStats);
    SumByCounts(s.exits, c.workers);
  }

  function CountOf(es: seq<Event>, i: nat): nat {
    if es == [] then 0
    else CountOf(es[..|es| - 1], i) + if es[|es| - 1].Closed? && es[|es| - 1].slot == i then 1 else 0
  }

  function MsOf(es: seq<Event>, i: nat): nat {
    if es == [] then 0
    else MsOf(es[..|es| - 1], i) + if es[|es| - 1].Closed? && es[|es| - 1].slot == i then es[|es| - 1].ms else 0
  }

  lemma StepTotals(c: Setup, s: State, e: Event, i: nat)
    requires Shape(c, s) && Enabled(c, s, e) && i < c.workers
    ensures var st, mine := s.slotStats[i], e.Closed? && e.slot == i;
            && Step(c, s, e).slotStats[i] ==
               Stats(st.filesCompleted + if mine then 1 else 0, st.totalMs + if mine then e.ms else 0)
            && Step(c, s, e).runIndex[i] == s.runIndex[i] + if mine then 1 else 0
  {
  }

  /** A slot's statistics are the number and the total time of the children it saw close. */
  lemma {:induction false} TotalsExact(c: Setup, es: seq<Event>, i: nat)
    requires Reachable(c, es) && i < c.workers
    ensures After(c, es).slotStats[i] == Stats(CountOf(es, i), MsOf(es, i))
    ensures After(c, es).runIndex[i] == CountOf(es, i)
  {
    if es == [] {
    } else {
      hide Step;
      var n := |es| - 1;
      AfterSnoc(c, es);
      TotalsExact(c, es[..n], i);
      StepTotals(c, After(c, es[..n]), es[n], i);
    }
  }

  lemma {:induction false} FailuresAmongMember(exits: seq<Exit>, f: Failure)
    ensures f in FailuresAmong(exits) <==>
            exists x :: 0 <= x < |exits| && Failed(exits[x].code) &&
                        f == Failure(exits[x].child.file, exits[x].child.slot, exits[x].child.fileIndex)
  {
    if exits == [] {
    } else {
      var n := |exits| - 1;
      FailuresAmongMember(exits[..n], f);
      assert forall x :: 0 <= x < n ==> exits[..n][x] == exits[x];
      if x :| 0 <= x < |exits| && Failed(exits[x].code) &&
              f == Failure(exits[x].child.file, exits[x].child.slot, exits[x].child.fileIndex) {
        assert x == n || exits[..n][x] == exits[x];
      }
    }
  }

  lemma {:induction false} NoFailures(exits: seq<Exit>)
    ensures FailuresAmong(exits) == [] <==> forall x :: 0 <= x < |exits| ==> !Failed(exits[x].code)
  {
    if exits == [] {
    } else {
      NoFailures(exits[..|exits| - 1]);
    }
  }

  lemma AllClosed(c: Setup, s: State, k: nat)
    requires Inv(c, s) && AllFinished(s) && k < |s.children|
    ensures LoggedExactlyOnce(s, k)
  {
    assert Closedness(s, k);
    var x :| 0 <= x < |s.exits| && s.exits[x].child.fileIndex == k;
    assert LoggedOnce(s, k, s.exits[x].code);
  }

  lemma FinishedTallies(c: Setup, s: State)
    requires Inv(c, s) && AllFinished(s)
    ensures |s.exits| == |s.children|
    ensures !s.bailFlag ==> s.queuePos == |s.children| + c.workers
  {
    CountAll(s.phase, IsRunning);
    CountAll(s.phase, IsFinished);
  }

  /** A run that ends without bailing ran every file exactly once, and left the cursor one past the end for every slot. */
  lemma CompleteRun(c: Setup, es: seq<Event>)
    requires Reachable(c, es) && c.workers >= 1
    requires AllFinished(After(c, es)) && !After(c, es).bailFlag
    ensures var s := After(c, es);
            && FilesOf(s.children) == c.queue
            && |Closings(es)| == |c.queue|
            && (forall k: nat :: k < |c.queue| ==> RanExactlyOnce(c, es, k))
            && s.queuePos == |c.queue| + c.workers
            && SumCompleted(s.slotStats) == |c.queue|
  {
    ReachableInv(c, es);
    ClosedInOrder(c, es);
    var s := After(c, es);
    FinishedTallies(c, s);
    DispatchedIsPrefix(c, es);
    CountersAddUp(c, es);
    forall k: nat | k < |c.queue|
      ensures RanExactlyOnce(c, es, k)
    {
      AllClosed(c, s, k);
      var code :| LoggedOnce(s, k, code);
      LoggedRan(c, es, k, code);
    }
  }

  /** An event of the run reported a code other than 0. */
  predicate SawFailure(es: seq<Event>) {
    exists j :: 0 <= j < |es| && es[j].Closed? && es[j].code != Code(0)
  }

  /** The entry for file `k` in the failure list, if event `j` ended its child. */
  function Entry(c: Setup, es: seq<Event>, j: nat, k: nat): Failure
    requires j < |es| && k < |c.queue|
  {
    Failure(c.queue[k], es[j].slot, k)
  }

  lemma FailureLogged(c: Setup, es: seq<Event>, f: Failure) returns (j: nat)
    requires Reachable(c, es) && f in After(c, es).failures
    ensures f.fileIndex < |c.queue| && Ends(c, es, j, f.fileIndex) && es[j].code != Code(0)
    ensures f == Entry(c, es, j, f.fileIndex)
  {
    ReachableInv(c, es);
    ClosedInOrder(c, es);
    var exits := After(c, es).exits;
    FailuresAmongMember(exits, f);
    var x :| 0 <= x < |exits| && Failed(exits[x].code) &&
             f == Failure(exits[x].child.file, exits[x].child.slot, exits[x].child.fileIndex);
    assert Spawned(After(c, es), exits[x].child);
    j := Closings(es)[x];
    assert Logged(c, es, exits[x], j);
  }

  /**
    At any moment a file is listed as failed, with its name and slot, exactly when the event that
    ended its child reported a code other than 0.
   */
  lemma FailuresExact(c: Setup, es: seq<Event>, k: nat, j: nat)
    requires Reachable(c, es) && k < |c.queue| && Ends(c, es, j, k)
    ensures var failures := After(c, es).failures;
            && (es[j].code != Code(0) <==> Entry(c, es, j, k) in failures)
            && (forall f :: f in failures && f.fileIndex == k ==> f == Entry(c, es, j, k))
  {
    ReachableInv(c, es);
    var s := After(c, es);
    var x := EndsLogged(c, es, j, k);
    assert Spawned(s, s.exits[x].child);
    FailuresAmongMember(s.exits, Entry(c, es, j, k));
    forall f | f in s.failures && f.fileIndex == k
      ensures f == Entry(c, es, j, k) && es[j].code != Code(0)
    {
      var i := FailureLogged(c, es, f);
      var y := EndsLogged(c, es, i, k);
      assert s.exits[y].child.fileIndex == s.exits[x].child.fileIndex;
    }
  }

  /** A file whose child has not ended is not listed. */
  lemma OnlyEndedFail(c: Setup, es: seq<Event>, f: Failure)
    requires Reachable(c, es) && f in After(c, es).failures
    ensures exists j :: Ends(c, es, j, f.fileIndex)
  {
    var j := FailureLogged(c, es, f);
  }

  lemma SawFailureLogged(c: Setup, es: seq<Event>)
    requires Reachable(c, es)
    ensures After(c, es).failures != [] <==> SawFailure(es)
  {
    ReachableInv(c, es);
    ClosedInOrder(c, es);
    var exits, js := After(c, es).exits, Closings(es);
    NoFailures(exits);
    if x :| 0 <= x < |exits| && Failed(exits[x].code) {
      assert Logged(c, es, exits[x], js[x]);
    }
    if j :| 0 <= j < |es| && es[j].Closed? && es[j].code != Code(0) {
      assert j in js;
      var x :| 0 <= x < |js| && js[x] == j;
      assert Logged(c, es, exits[x], js[x]);
    }
  }

  /** The bail flag is set exactly when `--bail` was given and a child has failed. */
  lemma BailExact(c: Setup, es: seq<Event>)
    requires Reachable(c, es)
    ensures After(c, es).bailFlag <==> c.bail && SawFailure(es)
  {
    ReachableInv(c, es);
    SawFailureLogged(c, es);
  }

  /**
    What every step of every run does next, told from the events alone: the slot of the last event
    takes the next file of the queue, unless there is none left or a failure has called a bail; then
    it returns.  No other slot is touched.
   */
  lemma NextFile(c: Setup, es: seq<Event>)
    requires Reachable(c, es) && es != []
    ensures var n := |es| - 1;
            Reachable(c, es[..n]) && es[n].slot < c.workers &&
            var s, t, i := After(c, es[..n]), After(c, es), es[n].slot;
            var next, run := |s.children|, CountOf(es, i);
            if (c.bail && SawFailure(es)) || next >= |c.queue|
            then t.children == s.children && t.phase == s.phase[i := Finished]
            else var child := Child(i, run, next, c.queue[next], Decimal(i) + "-" + Decimal(run));
                 t.children == s.children + [child] && t.phase == s.phase[i := Running(child)]
  {
    var n := |es| - 1;
    AfterSnoc(c, es);
    ReachableInv(c, es[..n]);
    BailExact(c, es);
    TotalsExact(c, es, es[n].slot);
  }

  // ------------------------------------------------------------- the verdict

  /** Every file of the queue was run exactly once and exited with 0. */
  ghost predicate EverythingPassed(c: Setup, es: seq<Event>) {
    forall k: nat :: k < |c.queue| ==> RanOnce(c, es, k, Code(0))
  }

  /** With at least one slot, a finished phase has no failures exactly when every file ran once and exited with 0. */
  lemma GreenMeansPassed(c: Setup, es: seq<Event>)
    requires Reachable(c, es) && c.workers >= 1 && AllFinished(After(c, es))
    ensures After(c, es).failures == [] <==> EverythingPassed(c, es)
  {
    ReachableInv(c, es);
    var s := After(c, es);
    NoFailures(s.exits);
    FinishedTallies(c, s);
    if s.failures == [] {
      forall k: nat | k < |c.queue|
        ensures RanOnce(c, es, k, Code(0))
      {
        AllClosed(c, s, k);
        var code :| LoggedOnce(s, k, code);
        var x :| 0 <= x < |s.exits| && s.exits[x].child.fileIndex == k && s.exits[x].code == code;
        LoggedRan(c, es, k, Code(0));
      }
    } else {
      var x :| 0 <= x < |s.exits| && Failed(s.exits[x].code);
      assert Spawned(s, s.exits[x].child);
      var k := s.exits[x].child.fileIndex;
      if RanOnce(c, es, k, Code(0)) { RanLogged(c, es, k, Code(0)); }
    }
  }

  /**
    The phase reports success only if every file ran and passed, on every run, exactly when there
    is at least one slot or nothing to run.  With `PARALLEL_WORKERS=0` it reports success having
    run nothing.
   */
  lemma VerdictSoundExactly(c: Setup)
    ensures (forall es :: Reachable(c, es) && AllFinished(After(c, es)) && After(c, es).failures == []
               ==> EverythingPassed(c, es))
            <==> (c.workers >= 1 || c.queue == [])
  {
    if c.workers >= 1 {
      forall es | Reachable(c, es) && AllFinished(After(c, es)) && After(c, es).failures == []
        ensures EverythingPassed(c, es)
      {
        GreenMeansPassed(c, es);
      }
    } else if c.queue != [] {
      assert Reachable(c, []) && AllFinished(After(c, []));
      assert !RanOnce(c, [], 0, Code(0));
    }
  }

  // -------------------------------------------------------------------- bail

  predicate BailOk(c: Setup, s: State) {
    s.bailFlag ==> Count(s.phase, IsRunning) < c.workers
  }

  lemma StepBail(c: Setup, s: State, e: Event)
    requires Shape(c, s) && Enabled(c, s, e) && BailOk(c, s)
    ensures BailOk(c, Step(c, s, e))
    ensures s.bailFlag ==> Step(c, s, e).bailFlag
    ensures s.bailFlag ==> Step(c, s, e).children == s.children && Step(c, s, e).queuePos == s.queuePos
  {
    var i := e.slot;
    match e
    case Woken(_) =>
      CountUpdate(s.phase, IsRunning, i, PullNext(c, s, i).phase[i]);
    case Closed(_, code, ms) =>
      var t := Record(c, s, i, code, ms);
      CountUpdate(s.phase, IsRunning, i, Awake);
      CountUpdate(t.phase, IsRunning, i, PullNext(c, t, i).phase[i]);
      CountAll(s.phase, IsRunning);
  }

  lemma {:induction false} PlayBail(c: Setup, s: State, es: seq<Event>)
    requires Shape(c, s) && Playable(c, s, es) && BailOk(c, s)
    ensures BailOk(c, Play(c, s, es))
    ensures s.bailFlag ==> Play(c, s, es).bailFlag
    ensures s.bailFlag ==> Play(c, s, es).children == s.children && Play(c, s, es).queuePos == s.queuePos
    decreases |es|
  {
    if es == [] {
    } else {
      StepBail(c, s, es[0]);
      PlayBail(c, Step(c, s, es[0]), es[1..]);
    }
  }

  lemma {:induction false} PlayCloses(c: Setup, s: State, es: seq<Event>)
    requires Shape(c, s) && Playable(c, s, es)
    ensures |Play(c, s, es).exits| == |s.exits| + |Closings(es)|
  {
    if es == [] {
    } else {
      PlaySnoc(c, s, es);
      PlayCloses(c, s, es[..|es| - 1]);
    }
  }

  /**
    Once a failure has called a bail, whatever happens next dispatches nothing more and closes at
    most `workers - 1` further children.
   */
  lemma BailStops(c: Setup, es: seq<Event>, later: seq<Event>)
    requires Reachable(c, es) && Playable(c, After(c, es), later)
    requires c.bail && SawFailure(es)
    ensures var s, t := After(c, es), Play(c, After(c, es), later);
            && t.children == s.children && t.queuePos == s.queuePos
            && |Closings(later)| <= c.workers - 1
  {
    ReachableInv(c, es);
    BailExact(c, es);
    PlayBail(c, Initial(c), es);
    PlayBail(c, After(c, es), later);
    PlayInv(c, After(c, es), later);
    PlayCloses(c, After(c, es), later);
  }

  // ---------------------------------------------------------------- progress

  lemma StepCounts(c: Setup, s: State, e: Event)
    requires Shape(c, s) && Enabled(c, s, e)
    ensures |Step(c, s, e).exits| - Count(Step(c, s, e).phase, IsStaggering)
            == |s.exits| - Count(s.phase, IsStaggering) + 1
  {
    var i := e.slot;
    match e
    case Woken(_) =>
      CountUpdate(s.phase, IsStaggering, i, PullNext(c, s, i).phase[i]);
    case Closed(_, code, ms) =>
      var t := Record(c, s, i, code, ms);
      CountUpdate(s.phase, IsStaggering, i, Awake);
      CountUpdate(t.phase, IsStaggering, i, PullNext(c, t, i).phase[i]);
  }

  lemma {:induction false} PlayCounts(c: Setup, s: State, es: seq<Event>)
    requires Shape(c, s) && Playable(c, s, es)
    ensures |Play(c, s, es).exits| - Count(Play(c, s, es).phase, IsStaggering)
            == |s.exits| - Count(s.phase, IsStaggering) + |es|
    decreases |es|
  {
    if es == [] {
    } else {
      StepCounts(c, s, es[0]);
      PlayCounts(c, Step(c, s, es[0]), es[1..]);
    }
  }

  /** Every run takes at most one step per slot and one per file, and can go on until all slots have returned. */
  lemma EveryRunEnds(c: Setup, es: seq<Event>)
    requires Reachable(c, es)
    ensures |es| <= c.workers + |c.queue|
    ensures AllFinished(After(c, es)) || exists e :: Enabled(c, After(c, es), e)
  {
    ReachableInv(c, es);
    InitialInv(c);
    PlayCounts(c, Initial(c), es);
    var s := After(c, es);
    CountAll(s.phase, IsStaggering);
    if !AllFinished(s) {
      var i :| 0 <= i < |s.phase| && s.phase[i] != Finished;
      assert Enabled(c, s, Woken(i)) || Enabled(c, s, Closed(i, Signalled, 0));
    }
  }
}
