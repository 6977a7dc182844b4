/** Makespan of the clocked phase, and of the phase run on a longest-first queue. */
module LongestFirstQueue {
  import opened ListScheduling
  import opened Scheduler
  import opened TimedPhase
  import opened QueueSort
  import Runs = SchedulerRuns

  lemma ClockedSchedule(c: Setup, stagger: nat, d: seq<nat>, turns: seq<Turn>)
    requires |d| == |c.queue| && Timely(c, d, Start(c, stagger), turns)
    ensures var t := RunFrom(c, d, Start(c, stagger), turns);
            OnSchedule(c.workers, stagger, d, t) && |t.starts| == |t.s.children| <= |d|
  {
    StartOnSchedule(c, stagger, d);
    RunOnSchedule(c, stagger, d, Start(c, stagger), turns);
  }

  lemma {:induction false} ClockedPlays(c: Setup, d: seq<nat>, t: Clocked, turns: seq<Turn>) returns (es: seq<Event>)
    requires Timely(c, d, t, turns) && Shape(c, t.s)
    ensures |es| == |turns| && Playable(c, t.s, es) && Play(c, t.s, es) == RunFrom(c, d, t, turns).s
    decreases |turns|
  {
    if turns == [] {
      es := [];
    } else {
      EventOk(c, d, t, turns[0]);
      var e := EventOf(d, t, turns[0]);
      var rest := ClockedPlays(c, d, Advance(c, d, t, turns[0]), turns[1..]);
      es := [e] + rest;
      assert es[1..] == rest;
    }
  }

  /** Every clocked run is one of the interleavings, so all that holds of those holds of it. */
  lemma ClockedRunIsARun(c: Setup, stagger: nat, d: seq<nat>, turns: seq<Turn>)
    requires |d| == |c.queue| && Timely(c, d, Start(c, stagger), turns)
    ensures exists es :: |es| == |turns| && Runs.Reachable(c, es)
                         && Runs.After(c, es) == RunFrom(c, d, Start(c, stagger), turns).s
  {
    var es := ClockedPlays(c, d, Start(c, stagger), turns);
    assert Runs.Reachable(c, es);
  }

  /**
    Whatever the queue order, durations, exit codes, bail and tie-breaking, each file k that is
    dispatched ends by a time C with 2mC <= 2(total) + 2(m-1)(longest) + s*m*(m-1).
   */
  lemma ClockedMakespan(c: Setup, stagger: nat, d: seq<nat>, turns: seq<Turn>, longest: nat, k: nat)
    requires |d| == |c.queue| && Timely(c, d, Start(c, stagger), turns)
    requires forall j :: 0 <= j < |d| ==> d[j] <= longest
    requires k < |RunFrom(c, d, Start(c, stagger), turns).starts| <= |d|
    ensures var m, end := c.workers, EndOf(d, RunFrom(c, d, Start(c, stagger), turns), k);
            2 * (m * end) <= 2 * Sum(d) + 2 * ((m - 1) * longest) + stagger * (m * (m - 1))
  {
    hide RunFrom, Timely;
    ClockedSchedule(c, stagger, d, turns);
    var t := RunFrom(c, d, Start(c, stagger), turns);
    PrefixMakespan(c.workers, stagger, d, |t.s.children|, SlotsOf(t.s.children), t.starts, longest, k);
  }

  lemma PrefixMakespan(m: nat, s: nat, d: seq<nat>, n: nat, a: seq<nat>, starts: seq<nat>, longest: nat, k: nat)
    requires n <= |d| && IsListSchedule(m, s, d[..n], a, starts) && k < n
    requires forall j :: 0 <= j < |d| ==> d[j] <= longest
    ensures 2 * (m * (starts[k] + d[k])) <= 2 * Sum(d) + 2 * ((m - 1) * longest) + s * (m * (m - 1))
  {
    WorkConservingBound(m, s, d[..n], a, starts, longest, k);
    SumPrefix(d, n);
  }

  /** Index of the last file that went to slot `i`, or -1. */
  function LastOn(a: seq<nat>, i: nat): (r: int)
    ensures -1 <= r < |a| && (r >= 0 ==> a[r] == i)
    ensures forall k :: r < k < |a| ==> a[k] != i
  {
    if a == [] then -1 else if a[|a| - 1] == i then |a| - 1 else LastOn(a[..|a| - 1], i)
  }

  lemma {:induction false} LastFileOnSlot(m: nat, s: nat, d: seq<nat>, a: seq<nat>, starts: seq<nat>, i: nat)
    requires IsListSchedule(m, s, d, a, starts) && i < m
    ensures var l := LastOn(a, i); FreeAt(s, d, a, i) == if l < 0 then i * s else starts[l] + d[l]
  {
    if d == [] {
    } else {
      var n := |d| - 1;
      if a[n] == i {
        assert StartsEarliest(m, s, d, a, starts, n);
        assert FreeAt(s, d, a, i) == starts[n] + d[n];
      } else {
        forall k: nat | k < n
          ensures StartsEarliest(m, s, d[..n], a[..n], starts[..n], k)
        {
          assert StartsEarliest(m, s, d, a, starts, k);
          assert d[..n][..k] == d[..k] && a[..n][..k] == a[..k];
        }
        LastFileOnSlot(m, s, d[..n], a[..n], starts[..n], i);
      }
    }
  }

  /** The last file slot `i` ran, or -1. */
  function LastRun(t: Clocked, i: nat): (r: int)
    ensures -1 <= r < |t.s.children|
  {
    LastOn(SlotsOf(t.s.children), i)
  }

  /** A slot's clock stands at the end of its last file or, if it has run none, at its stagger. */
  lemma SlotReturns(c: Setup, stagger: nat, d: seq<nat>, turns: seq<Turn>, i: nat)
    requires |d| == |c.queue| && Timely(c, d, Start(c, stagger), turns) && i < c.workers
    ensures var t := RunFrom(c, d, Start(c, stagger), turns);
            |t.starts| == |t.s.children| <= |d| && |t.due| == c.workers &&
            t.due[i] == if LastRun(t, i) < 0 then i * stagger else EndOf(d, t, LastRun(t, i))
  {
    hide RunFrom, Timely;
    ClockedSchedule(c, stagger, d, turns);
    var t := RunFrom(c, d, Start(c, stagger), turns);
    var n, a := |t.s.children|, SlotsOf(t.s.children);
    assert t.due[i] == FreeAt(stagger, d[..n], a, i);
    LastFileOnSlot(c.workers, stagger, d[..n], a, t.starts, i);
  }

  /** Time `x` is later than the end of every file of the run. */
  predicate OutlastsWork(d: seq<nat>, t: Clocked, x: nat)
    requires |t.starts| <= |d|
  {
    forall k :: 0 <= k < |t.starts| ==> EndOf(d, t, k) < x
  }

  /** Some slot returns after all files have ended, exactly when the last slot's stagger is that long. */
  ghost predicate StaggerDecides(m: nat, stagger: nat, d: seq<nat>, t: Clocked) {
    && |t.starts| <= |d| && |t.due| == m
    && ((exists i: nat :: i < m && OutlastsWork(d, t, t.due[i])) <==>
        m >= 1 && OutlastsWork(d, t, (m - 1) * stagger))
  }

  lemma MultiplesGrow(i: nat, n: nat, stagger: nat)
    requires i <= n
    ensures i * stagger <= n * stagger
  {
  }

  /**
    The phase ends when its last slot returns.  That is later than the end of the last file exactly
    when the stagger of the last slot is over later: such a slot found the queue empty.
   */
  lemma StaggerOutlastsExactly(c: Setup, stagger: nat, d: seq<nat>, turns: seq<Turn>)
    requires |d| == |c.queue| && Timely(c, d, Start(c, stagger), turns)
    ensures StaggerDecides(c.workers, stagger, d, RunFrom(c, d, Start(c, stagger), turns))
  {
    hide RunFrom, Timely, LastRun;
    ClockedSchedule(c, stagger, d, turns);
    var m, t := c.workers, RunFrom(c, d, Start(c, stagger), turns);
    if i: nat :| i < m && OutlastsWork(d, t, t.due[i]) {
      SlotReturns(c, stagger, d, turns, i);
      MultiplesGrow(i, m - 1, stagger);
    }
    if m >= 1 && OutlastsWork(d, t, (m - 1) * stagger) {
      var last: nat := m - 1;
      assert t.due[last] == FreeAt(stagger, d[..|t.s.children|], SlotsOf(t.s.children), last);
      assert OutlastsWork(d, t, t.due[last]);
    }
  }

  /** A slot that finds the queue empty returns, and its clock stands still. */
  lemma EmptyQueueTurn(c: Setup, d: seq<nat>, t: Clocked, turn: Turn)
    requires CanServe(c, d, t, turn) && !t.s.bailFlag && t.s.queuePos >= |c.queue| && turn.code == Code(0)
    ensures var r := Advance(c, d, t, turn);
            && Wf(c, d, r) && r.due == t.due && r.starts == t.starts && !r.s.bailFlag && r.s.queuePos == t.s.queuePos + 1
            && |t.s.phase| == c.workers && r.s.phase == t.s.phase[turn.slot := Finished]
  {
    hide CustodyOk, RunsOk, BooksOk, ReportSuffix;
    AdvanceWf(c, d, t, turn);
  }

  lemma FirstFileTurn(c: Setup, stagger: nat, d: seq<nat>, turn: Turn)
    requires |d| == |c.queue| == 1 && c.workers == 2 && turn == Turn(0, Code(0)) && d[0] < stagger
    ensures var t := Start(c, stagger);
            CanServe(c, d, t, turn) &&
            var r := Advance(c, d, t, turn);
            && Wf(c, d, r) && r.due == [d[0], stagger] && r.starts == [0] && !r.s.bailFlag && r.s.queuePos == 1
            && |r.s.phase| == 2 && r.s.phase[0].Running? && r.s.phase[1] == Staggering
  {
    hide CustodyOk, RunsOk, BooksOk, ReportSuffix;
    StartOnSchedule(c, stagger, d);
    AdvanceWf(c, d, Start(c, stagger), turn);
  }

  /** Two slots and one short file: the phase lasts until the second slot's stagger is over. */
  lemma StaggerOutlasts(file: string, stagger: nat, duration: nat) returns (turns: seq<Turn>)
    requires duration < stagger
    ensures var c, d := Setup([file], 2, false), [duration];
            && Timely(c, d, Start(c, stagger), turns)
            && var t := RunFrom(c, d, Start(c, stagger), turns);
               Runs.AllFinished(t.s) && |t.starts| == 1 && EndOf(d, t, 0) == duration && t.due == [duration, stagger]
  {
    hide Inv, Advance, Timely, RunFrom;
    var c, d := Setup([file], 2, false), [duration];
    var first, second, t0 := Turn(0, Code(0)), Turn(1, Code(0)), Start(c, stagger);
    FirstFileTurn(c, stagger, d, first);
    var t1 := Advance(c, d, t0, first);
    EmptyQueueTurn(c, d, t1, first);
    var t2 := Advance(c, d, t1, first);
    EmptyQueueTurn(c, d, t2, second);
    turns := [first, first, second];
    ThreeTurns(c, d, t0, first, first, second);
  }

  lemma ThreeTurns(c: Setup, d: seq<nat>, t: Clocked, x: Turn, y: Turn, z: Turn)
    requires CanServe(c, d, t, x) && CanServe(c, d, Advance(c, d, t, x), y)
    requires CanServe(c, d, Advance(c, d, Advance(c, d, t, x), y), z)
    ensures Timely(c, d, t, [x, y, z])
    ensures RunFrom(c, d, t, [x, y, z]) == Advance(c, d, Advance(c, d, Advance(c, d, t, x), y), z)
  {
    assert [x, y, z][1..] == [y, z] && [y, z][1..] == [z] && [z][1..] == [];
    var t1 := Advance(c, d, t, x);
    var t2 := Advance(c, d, t1, y);
    assert Timely(c, d, Advance(c, d, t2, z), []);
    assert Timely(c, d, t2, [z]) && RunFrom(c, d, t2, [z]) == Advance(c, d, t2, z);
    assert Timely(c, d, t1, [y, z]) && RunFrom(c, d, t1, [y, z]) == RunFrom(c, d, t2, [z]);
  }

  lemma {:induction false} PrefixFinishes(d: seq<nat>, best: seq<nat>, m: nat, opt: nat, n: nat)
    requires |best| == |d| && FinishesBy(d, best, m, opt) && n <= |d|
    ensures FinishesBy(d[..n], best[..n], m, opt)
  {
    forall i: nat | i < m
      ensures Load(d[..n], best[..n], i) <= opt
    {
      LoadPrefix(d, best, n, i);
    }
  }

  /** Descending durations, no stagger: within 4/3 of any placement of the queue's files. */
  lemma ClockedLongestFirst(c: Setup, d: seq<nat>, turns: seq<Turn>, best: seq<nat>, opt: nat, k: nat)
    requires |d| == |c.queue| && Timely(c, d, Start(c, 0), turns) && Descending(d)
    requires |best| == |d| && FinishesBy(d, best, c.workers, opt)
    requires k < |RunFrom(c, d, Start(c, 0), turns).starts| <= |d|
    ensures var m, end := c.workers, EndOf(d, RunFrom(c, d, Start(c, 0), turns), k);
            3 * (m * end) <= (4 * m - 1) * opt
  {
    hide RunFrom, Timely;
    ClockedSchedule(c, 0, d, turns);
    var t := RunFrom(c, d, Start(c, 0), turns);
    PrefixLongestFirst(c.workers, d, |t.s.children|, SlotsOf(t.s.children), t.starts, best, opt, k);
  }

  lemma PrefixLongestFirst(m: nat, d: seq<nat>, n: nat, a: seq<nat>, starts: seq<nat>, best: seq<nat>, opt: nat, k: nat)
    requires n <= |d| && IsListSchedule(m, 0, d[..n], a, starts) && k < n && Descending(d)
    requires |best| == |d| && FinishesBy(d, best, m, opt)
    ensures 3 * (m * (starts[k] + d[k])) <= (4 * m - 1) * opt
  {
    PrefixFinishes(d, best, m, opt, n);
    LongestFirstBound(m, d[..n], a, starts, k, best[..n], opt);
  }

  // ----------------------------------- placements of the files before sorting

  function TimeOf(hints: map<string, nat>, file: string): nat {
    if Basename(file) in hints then hints[Basename(file)] else 0
  }

  function Durations(files: seq<string>, hints: map<string, nat>): (d: seq<nat>)
    ensures |d| == |files| && forall k :: 0 <= k < |d| ==> d[k] == TimeOf(hints, files[k])
  {
    seq(|files|, k requires 0 <= k < |files| => TimeOf(hints, files[k]))
  }

  type Job = (string, nat)

  function JobKey(hints: map<string, nat>): Job -> Hint {
    (j: Job) => HintOf(hints, j.0)
  }

  function Files(jobs: seq<Job>): (fs: seq<string>)
    ensures |fs| == |jobs| && forall k :: 0 <= k < |fs| ==> fs[k] == jobs[k].0
  {
    seq(|jobs|, k requires 0 <= k < |jobs| => jobs[k].0)
  }

  function Slots(jobs: seq<Job>): (a: seq<nat>)
    ensures |a| == |jobs| && forall k :: 0 <= k < |a| ==> a[k] == jobs[k].1
  {
    seq(|jobs|, k requires 0 <= k < |jobs| => jobs[k].1)
  }

  function JobTimes(jobs: seq<Job>, hints: map<string, nat>): (d: seq<nat>)
    ensures |d| == |jobs| && forall k :: 0 <= k < |d| ==> d[k] == TimeOf(hints, jobs[k].0)
  {
    seq(|jobs|, k requires 0 <= k < |jobs| => TimeOf(hints, jobs[k].0))
  }

  function JobLoad(jobs: seq<Job>, hints: map<string, nat>, i: nat): nat {
    Load(JobTimes(jobs, hints), Slots(jobs), i)
  }

  lemma JobLoadSnoc(jobs: seq<Job>, hints: map<string, nat>, i: nat)
    requires jobs != []
    ensures var n := |jobs| - 1;
            JobLoad(jobs, hints, i) == JobLoad(jobs[..n], hints, i) + if jobs[n].1 == i then TimeOf(hints, jobs[n].0) else 0
  {
    var n := |jobs| - 1;
    assert JobTimes(jobs, hints)[..n] == JobTimes(jobs[..n], hints) && Slots(jobs)[..n] == Slots(jobs[..n]);
  }

  lemma {:induction false} JobLoadCons(jobs: seq<Job>, hints: map<string, nat>, i: nat)
    requires jobs != []
    ensures JobLoad(jobs, hints, i) == JobLoad(jobs[..1], hints, i) + JobLoad(jobs[1..], hints, i)
    decreases |jobs|
  {
    var n := |jobs| - 1;
    if n == 0 {
      assert jobs[..1] == jobs && jobs[1..] == [];
    } else {
      hide JobLoad;
      JobLoadSnoc(jobs, hints, i);
      JobLoadCons(jobs[..n], hints, i);
      assert jobs[..n][..1] == jobs[..1] && jobs[..n][1..] == jobs[1..][..n - 1] && jobs[1..][n - 1] == jobs[n];
      JobLoadSnoc(jobs[1..], hints, i);
    }
  }

  lemma {:induction false} InsertKeepsLoad(x: Job, jobs: seq<Job>, hints: map<string, nat>, i: nat)
    ensures JobLoad(Insert(x, jobs, JobKey(hints)), hints, i) == JobLoad([x], hints, i) + JobLoad(jobs, hints, i)
  {
    var key := JobKey(hints);
    if jobs == [] || !Longer(key(jobs[0]), key(x)) {
      JobLoadCons([x] + jobs, hints, i);
      assert ([x] + jobs)[..1] == [x] && ([x] + jobs)[1..] == jobs;
    } else {
      var rest := Insert(x, jobs[1..], key);
      InsertKeepsLoad(x, jobs[1..], hints, i);
      JobLoadCons([jobs[0]] + rest, hints, i);
      assert ([jobs[0]] + rest)[..1] == [jobs[0]] && ([jobs[0]] + rest)[1..] == rest;
      JobLoadCons(jobs, hints, i);
      assert jobs[..1] == [jobs[0]];
    }
  }

  lemma {:induction false} SortKeepsLoad(jobs: seq<Job>, hints: map<string, nat>, i: nat)
    ensures JobLoad(Sort(jobs, JobKey(hints)), hints, i) == JobLoad(jobs, hints, i)
  {
    if jobs == [] {
    } else {
      SortKeepsLoad(jobs[1..], hints, i);
      InsertKeepsLoad(jobs[0], Sort(jobs[1..], JobKey(hints)), hints, i);
      JobLoadCons(jobs, hints, i);
      assert jobs[..1] == [jobs[0]];
    }
  }

  lemma {:induction false} InsertCarriesFiles(x: Job, jobs: seq<Job>, hints: map<string, nat>)
    ensures Files(Insert(x, jobs, JobKey(hints))) == Insert(x.0, Files(jobs), FileKey(hints))
  {
    if !(jobs == [] || !Longer(JobKey(hints)(jobs[0]), JobKey(hints)(x))) {
      InsertCarriesFiles(x, jobs[1..], hints);
      assert Files(jobs)[1..] == Files(jobs[1..]);
    }
  }

  lemma {:induction false} SortCarriesFiles(jobs: seq<Job>, hints: map<string, nat>)
    ensures Files(Sort(jobs, JobKey(hints))) == LongestFirst(Files(jobs), hints)
  {
    if jobs == [] {
    } else {
      SortCarriesFiles(jobs[1..], hints);
      assert Files(jobs)[1..] == Files(jobs[1..]);
      InsertCarriesFiles(jobs[0], Sort(jobs[1..], JobKey(hints)), hints);
    }
  }

  /**
    The parallel phase on a longest-first queue with an exact hint for every file and no stagger:
    if some assignment `place` of the files to the m slots finishes by `opt`, every file of every
    run ends by a time C with 3mC <= (4m-1)*opt.
   */
  lemma LongestFirstWithinFourThirds(
      files: seq<string>, hints: map<string, nat>, workers: nat, bail: bool, turns: seq<Turn>,
      place: seq<nat>, opt: nat, k: nat)
    requires forall f :: f in files ==> Basename(f) in hints
    requires |place| == |files| && FinishesBy(Durations(files, hints), place, workers, opt)
    requires var c := Setup(LongestFirst(files, hints), workers, bail);
             var d := Durations(c.queue, hints);
             && Timely(c, d, Start(c, 0), turns)
             && k < |RunFrom(c, d, Start(c, 0), turns).starts| <= |d|
    ensures var c := Setup(LongestFirst(files, hints), workers, bail);
            var d := Durations(c.queue, hints);
            3 * (workers * EndOf(d, RunFrom(c, d, Start(c, 0), turns), k)) <= (4 * workers - 1) * opt
  {
    var c := Setup(LongestFirst(files, hints), workers, bail);
    var best := SortedPlacement(files, hints, workers, place, opt);
    SortedDurationsDescend(files, hints);
    ClockedLongestFirst(c, Durations(c.queue, hints), turns, best, opt, k);
  }

  /** A placement of the files is a placement of the sorted queue with the same loads. */
  lemma SortedPlacement(files: seq<string>, hints: map<string, nat>, workers: nat, place: seq<nat>, opt: nat)
      returns (best: seq<nat>)
    requires |place| == |files| && FinishesBy(Durations(files, hints), place, workers, opt)
    ensures |best| == |LongestFirst(files, hints)|
    ensures FinishesBy(Durations(LongestFirst(files, hints), hints), best, workers, opt)
  {
    hide Sort, Load;
    var d := Durations(LongestFirst(files, hints), hints);
    var jobs := seq(|files|, j requires 0 <= j < |files| => (files[j], place[j]));
    var sorted := Sort(jobs, JobKey(hints));
    assert Files(jobs) == files && Slots(jobs) == place && JobTimes(jobs, hints) == Durations(files, hints);
    SortCarriesFiles(jobs, hints);
    SortPermutes(jobs, JobKey(hints));
    assert JobTimes(sorted, hints) == d;
    best := Slots(sorted);
    forall j | 0 <= j < |sorted|
      ensures best[j] < workers
    {
      assert sorted[j] in multiset(sorted);
      assert sorted[j] in jobs;
    }
    forall i: nat | i < workers
      ensures Load(d, best, i) <= opt
    {
      SortKeepsLoad(jobs, hints, i);
      assert Load(Durations(files, hints), place, i) <= opt;
    }
  }

  lemma SortedDurationsDescend(files: seq<string>, hints: map<string, nat>)
    requires forall f :: f in files ==> Basename(f) in hints
    ensures Descending(Durations(LongestFirst(files, hints), hints))
  {
    var queue := LongestFirst(files, hints);
    var d := Durations(queue, hints);
    SortOrdered(files, FileKey(hints));
    SortPermutes(files, FileKey(hints));
    forall k | 0 <= k < |queue|
      ensures Basename(queue[k]) in hints
    {
      assert queue[k] in multiset(queue);
    }
    forall i, j | 0 <= i <= j < |d|
      ensures d[j] <= d[i]
    {
      if i < j { assert !Longer(HintOf(hints, queue[j]), HintOf(hints, queue[i])); }
    }
  }
}
