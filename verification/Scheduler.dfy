/**
  The parallel phase of the runner: `workers` slots share one cursor over the queue.  A slot runs
  without interruption from one `await` to the next, so a step of the system is the code between
  two awaits of one slot; which slot goes next, each child's exit code and its duration are the
  environment's choice.
 */
module Scheduler {
  import opened Text

  /** What the `close` event of a child reports; a child killed by a signal has a null code. */
  datatype ExitCode = Code(value: int) | Signalled

  predicate Failed(code: ExitCode) {
    code != Code(0)
  }

  datatype Setup = Setup(queue: seq<string>, workers: nat, bail: bool)

  /** A spawned test process, with the loop variables its slot holds while it waits. */
  datatype Child = Child(slot: nat, run: nat, fileIndex: nat, file: string, suffix: string)

  /** Where a slot is: waiting out its stagger, between two awaits, waiting for a child, or returned. */
  datatype Phase = Staggering | Awake | Running(child: Child) | Finished

  datatype Stats = Stats(filesCompleted: nat, totalMs: nat)

  datatype Failure = Failure(file: string, slot: nat, fileIndex: nat)

  datatype Exit = Exit(child: Child, code: ExitCode, ms: nat)

  /** The closure variables, one phase and run index per slot, and the children spawned and closed so far. */
  datatype State = State(
    queuePos: nat,
    bailFlag: bool,
    failures: seq<Failure>,
    slotStats: seq<Stats>,
    runIndex: seq<nat>,
    phase: seq<Phase>,
    children: seq<Child>,
    exits: seq<Exit>)

  datatype Event = Woken(slot: nat) | Closed(slot: nat, code: ExitCode, ms: nat)

  /** The value of MOCHA_REPORT_SUFFIX. */
  function ReportSuffix(slot: nat, run: nat): string {
    Decimal(slot) + "-" + Decimal(run)
  }

  function Initial(c: Setup): State {
    State(0, false, [], seq(c.workers, i => Stats(0, 0)), seq(c.workers, i => 0),
          seq(c.workers, i => Staggering), [], [])
  }

  predicate Shape(c: Setup, s: State) {
    |s.slotStats| == |s.runIndex| == |s.phase| == c.workers
  }

  predicate Enabled(c: Setup, s: State, e: Event)
    requires Shape(c, s)
  {
    e.slot < c.workers &&
    match e
    case Woken(i) => s.phase[i] == Staggering
    case Closed(i, _, _) => s.phase[i].Running?
  }

  /** From the head of the `while` loop to the next await, or to the end of the slot. */
  function PullNext(c: Setup, s: State, i: nat): State
    requires Shape(c, s) && i < c.workers
  {
    if s.bailFlag then s.(phase := s.phase[i := Finished])
    else if s.queuePos >= |c.queue| then s.(queuePos := s.queuePos + 1, phase := s.phase[i := Finished])
    else
      var run := s.runIndex[i];
      var child := Child(i, run, s.queuePos, c.queue[s.queuePos], ReportSuffix(i, run));
      s.(queuePos := s.queuePos + 1, phase := s.phase[i := Running(child)], children := s.children + [child])
  }

  /** The bookkeeping after a child has closed, up to the failure test. */
  function Record(c: Setup, s: State, i: nat, code: ExitCode, ms: nat): State
    requires Shape(c, s) && i < c.workers && s.phase[i].Running?
  {
    var child := s.phase[i].child;
    var st := s.slotStats[i];
    s.(slotStats := s.slotStats[i := Stats(st.filesCompleted + 1, st.totalMs + ms)],
       runIndex := s.runIndex[i := s.runIndex[i] + 1],
       failures := if Failed(code) then s.failures + [Failure(child.file, i, child.fileIndex)] else s.failures,
       bailFlag := s.bailFlag || (Failed(code) && c.bail),
       phase := s.phase[i := Awake],
       exits := s.exits + [Exit(child, code, ms)])
  }

  function Step(c: Setup, s: State, e: Event): State
    requires Shape(c, s) && Enabled(c, s, e)
  {
    match e
    case Woken(i) => PullNext(c, s, i)
    case Closed(i, code, ms) => PullNext(c, Record(c, s, i, code, ms), i)
  }

  /** Every event of `es` can happen when its turn comes. */
  predicate Playable(c: Setup, s: State, es: seq<Event>)
    requires Shape(c, s)
    decreases |es|
  {
    es == [] || (Enabled(c, s, es[0]) && Playable(c, Step(c, s, es[0]), es[1..]))
  }

  function Play(c: Setup, s: State, es: seq<Event>): (r: State)
    requires Shape(c, s) && Playable(c, s, es)
    ensures Shape(c, r)
    decreases |es|
  {
    if es == [] then s else Play(c, Step(c, s, es[0]), es[1..])
  }

  // -------------------------------------------------------------- invariants

  function Count(ps: seq<Phase>, p: Phase -> bool): nat {
    if ps == [] then 0
    else Count(ps[..|ps| - 1], p) + if p(ps[|ps| - 1]) then 1 else 0
  }

  predicate IsRunning(p: Phase) { p.Running? }
  predicate IsFinished(p: Phase) { p.Finished? }
  predicate IsStaggering(p: Phase) { p.Staggering? }

  lemma {:induction false} CountUpdate(ps: seq<Phase>, p: Phase -> bool, i: nat, q: Phase)
    requires i < |ps|
    ensures Count(ps[i := q], p) == Count(ps, p) - (if p(ps[i]) then 1 else 0) + if p(q) then 1 else 0
  {
    var n := |ps| - 1;
    if i == n {
      assert ps[i := q][..n] == ps[..n];
    } else {
      assert ps[i := q][..n] == ps[..n][i := q];
      CountUpdate(ps[..n], p, i, q);
    }
  }

  lemma {:induction false} CountAll(ps: seq<Phase>, p: Phase -> bool)
    ensures Count(ps, p) <= |ps|
    ensures Count(ps, p) == |ps| <==> forall i :: 0 <= i < |ps| ==> p(ps[i])
    ensures Count(ps, p) == 0 <==> forall i :: 0 <= i < |ps| ==> !p(ps[i])
  {
    if ps == [] {
    } else {
      CountAll(ps[..|ps| - 1], p);
    }
  }

  /** The children are the queue's first files, in queue order; the cursor counts them and the slots that ran dry. */
  predicate DispatchOk(c: Setup, s: State) {
    && |s.children| == (if s.queuePos <= |c.queue| then s.queuePos else |c.queue|)
    && (forall k :: 0 <= k < |s.children| ==>
          && s.children[k].slot < c.workers
          && s.children[k].fileIndex == k
          && s.children[k].file == c.queue[k]
          && s.children[k].suffix == ReportSuffix(s.children[k].slot, s.children[k].run))
    && s.queuePos <= |s.children| + Count(s.phase, IsFinished)
    && (!s.bailFlag ==> s.queuePos == |s.children| + Count(s.phase, IsFinished))
  }

  predicate Closedness(s: State, k: nat) {
    exists x :: 0 <= x < |s.exits| && s.exits[x].child.fileIndex == k
  }

  predicate Spawned(s: State, child: Child) {
    child.fileIndex < |s.children| && s.children[child.fileIndex] == child
  }

  predicate RunsIn(c: Setup, s: State, i: nat)
    requires Shape(c, s) && i < c.workers
  {
    s.phase[i].Running? ==>
      var child := s.phase[i].child;
      && Spawned(s, child)
      && child.slot == i && child.run == s.runIndex[i]
  }

  /** Every spawned child is held by its slot or has closed once, and never both. */
  predicate CustodyOk(c: Setup, s: State)
    requires Shape(c, s)
  {
    && (forall i :: 0 <= i < c.workers ==> RunsIn(c, s, i))
    && (forall x :: 0 <= x < |s.exits| ==>
          && Spawned(s, s.exits[x].child)
          && s.exits[x].child.slot < c.workers
          && s.exits[x].child.run < s.runIndex[s.exits[x].child.slot])
    && (forall x, y :: 0 <= x < y < |s.exits| ==> s.exits[x].child.fileIndex != s.exits[y].child.fileIndex)
    && (forall k :: 0 <= k < |s.children| ==>
          && s.children[k].slot < c.workers
          && (s.phase[s.children[k].slot] == Running(s.children[k]) || Closedness(s, k)))
    && |s.exits| + Count(s.phase, IsRunning) == |s.children|
  }

  /** A slot's runs are numbered upwards. */
  predicate RunsOk(s: State) {
    forall j, k :: 0 <= j < k < |s.children| && s.children[j].slot == s.children[k].slot ==>
      s.children[j].run < s.children[k].run
  }

  function CompletedBy(exits: seq<Exit>, i: nat): nat {
    if exits == [] then 0
    else CompletedBy(exits[..|exits| - 1], i) + if exits[|exits| - 1].child.slot == i then 1 else 0
  }

  function BusyMs(exits: seq<Exit>, i: nat): nat {
    if exits == [] then 0
    else BusyMs(exits[..|exits| - 1], i) + if exits[|exits| - 1].child.slot == i then exits[|exits| - 1].ms else 0
  }

  function FailuresAmong(exits: seq<Exit>): seq<Failure> {
    if exits == [] then []
    else
      var e := exits[|exits| - 1];
      FailuresAmong(exits[..|exits| - 1]) +
      if Failed(e.code) then [Failure(e.child.file, e.child.slot, e.child.fileIndex)] else []
  }

  /** Statistics, failure list and bail flag agree with the exits observed so far. */
  predicate BooksOk(c: Setup, s: State)
    requires Shape(c, s)
  {
    && (forall i :: 0 <= i < c.workers ==> s.runIndex[i] == s.slotStats[i].filesCompleted)
    && (forall i :: 0 <= i < c.workers ==> s.slotStats[i] == Stats(CompletedBy(s.exits, i), BusyMs(s.exits, i)))
    && s.failures == FailuresAmong(s.exits)
    && s.bailFlag == (c.bail && s.failures != [])
  }

  predicate Inv(c: Setup, s: State) {
    && Shape(c, s)
    && DispatchOk(c, s)
    && CustodyOk(c, s)
    && RunsOk(s)
    && BooksOk(c, s)
  }

  predicate NoneAwake(s: State) {
    forall i :: 0 <= i < |s.phase| ==> s.phase[i] != Awake
  }

  lemma InitialInv(c: Setup)
    ensures Inv(c, Initial(c)) && NoneAwake(Initial(c))
    ensures Count(Initial(c).phase, IsStaggering) == c.workers
  {
    CountAll(Initial(c).phase, IsRunning);
    CountAll(Initial(c).phase, IsFinished);
    CountAll(Initial(c).phase, IsStaggering);
  }

  lemma RecordCustody(c: Setup, s: State, i: nat, code: ExitCode, ms: nat)
    requires Inv(c, s) && i < c.workers && s.phase[i].Running?
    ensures CustodyOk(c, Record(c, s, i, code, ms)) && s.phase[i].child.slot == i
  {
    hide RunsOk, BooksOk, Failed, ReportSuffix;
    var t := Record(c, s, i, code, ms);
    CountUpdate(s.phase, IsRunning, i, Awake);
    var child := s.phase[i].child;
    assert RunsIn(c, s, i);
    forall j | 0 <= j < c.workers
      ensures RunsIn(c, t, j)
    {
      assert RunsIn(c, s, j);
    }
    assert forall x :: 0 <= x < |s.exits| ==> s.exits[x].child != child;
    assert t.exits[|s.exits|].child == child;
    forall k | 0 <= k < |t.children|
      ensures t.phase[t.children[k].slot] == Running(t.children[k]) || Closedness(t, k)
    {
      if Closedness(s, k) {
        var x :| 0 <= x < |s.exits| && s.exits[x].child.fileIndex == k;
        assert t.exits[x] == s.exits[x];
      } else if s.children[k].slot == i {
        assert t.exits[|s.exits|].child.fileIndex == k;
      }
    }
  }

  lemma RecordInv(c: Setup, s: State, i: nat, code: ExitCode, ms: nat)
    requires Inv(c, s) && i < c.workers && s.phase[i].Running?
    ensures Inv(c, Record(c, s, i, code, ms))
  {
    hide CustodyOk, Failed;
    CountUpdate(s.phase, IsFinished, i, Awake);
    RecordCustody(c, s, i, code, ms);
    var t := Record(c, s, i, code, ms);
    assert t.exits[..|t.exits| - 1] == s.exits;
  }

  lemma PullNextCustody(c: Setup, s: State, i: nat)
    requires Inv(c, s) && i < c.workers && (s.phase[i].Awake? || s.phase[i].Staggering?)
    ensures CustodyOk(c, PullNext(c, s, i))
  {
    hide RunsOk, BooksOk, ReportSuffix;
    var t := PullNext(c, s, i);
    CountUpdate(s.phase, IsRunning, i, t.phase[i]);
    forall j | 0 <= j < c.workers
      ensures RunsIn(c, t, j)
    {
      assert RunsIn(c, s, j);
    }
    forall k | 0 <= k < |s.children|
      ensures t.phase[t.children[k].slot] == Running(t.children[k]) || Closedness(t, k)
    {
      if Closedness(s, k) {
        var x :| 0 <= x < |s.exits| && s.exits[x].child.fileIndex == k;
        assert t.exits[x] == s.exits[x];
      }
    }
  }

  lemma PullNextRuns(c: Setup, s: State, i: nat)
    requires Inv(c, s) && i < c.workers && (s.phase[i].Awake? || s.phase[i].Staggering?)
    ensures RunsOk(PullNext(c, s, i))
  {
    hide BooksOk, ReportSuffix;
    forall k | 0 <= k < |s.children| && s.children[k].slot == i
      ensures s.children[k].run < s.runIndex[i]
    {
      assert Closedness(s, k);
      var x :| 0 <= x < |s.exits| && s.exits[x].child.fileIndex == k;
      assert Spawned(s, s.exits[x].child);
    }
  }

  lemma PullNextInv(c: Setup, s: State, i: nat)
    requires Inv(c, s) && i < c.workers && (s.phase[i].Awake? || s.phase[i].Staggering?)
    ensures Inv(c, PullNext(c, s, i))
  {
    hide CustodyOk, RunsOk;
    CountUpdate(s.phase, IsFinished, i, PullNext(c, s, i).phase[i]);
    PullNextCustody(c, s, i);
    PullNextRuns(c, s, i);
  }

  lemma StepInv(c: Setup, s: State, e: Event)
    requires Inv(c, s) && Enabled(c, s, e)
    ensures Inv(c, Step(c, s, e))
  {
    match e
    case Woken(i) =>
      PullNextInv(c, s, i);
    case Closed(i, code, ms) =>
      RecordInv(c, s, i, code, ms);
      var t := Record(c, s, i, code, ms);
      assert t.phase[i] == Awake;
      PullNextInv(c, t, i);
  }

  /** Between two steps every slot is at an await or has returned. */
  lemma StepAwake(c: Setup, s: State, e: Event)
    requires Shape(c, s) && Enabled(c, s, e) && NoneAwake(s)
    ensures NoneAwake(Step(c, s, e))
  {
  }

  lemma {:induction false} PlayInv(c: Setup, s: State, es: seq<Event>)
    requires Inv(c, s) && Playable(c, s, es)
    ensures Inv(c, Play(c, s, es))
    ensures NoneAwake(s) ==> NoneAwake(Play(c, s, es))
    decreases |es|
  {
    if es == [] {
    } else {
      StepInv(c, s, es[0]);
      if NoneAwake(s) { StepAwake(c, s, es[0]); }
      PlayInv(c, Step(c, s, es[0]), es[1..]);
    }
  }
}
