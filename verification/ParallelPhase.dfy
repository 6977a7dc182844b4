/** The parallel phase as the object that mutates its closure variables, one method per resumed await. */
module ParallelPhase {
  import opened Scheduler

  class Phases {
    const queue: seq<string>
    const workers: nat
    const flags: seq<string>

    var queuePos: nat
    var bailFlag: bool
    var failures: seq<Failure>
    var slotStats: seq<Stats>
    var runIndex: seq<nat>
    var phase: seq<Phase>
    var children: seq<Child>
    var exits: seq<Exit>

    ghost function Config(): Setup {
      Setup(queue, workers, "--bail" in flags)
    }

    ghost function View(): State
      reads this
    {
      State(queuePos, bailFlag, failures, slotStats, runIndex, phase, children, exits)
    }

    ghost predicate Valid()
      reads this
    {
      Shape(Config(), View())
    }

    constructor (queue: seq<string>, workers: nat, flags: seq<string>)
      ensures this.queue == queue && this.workers == workers && this.flags == flags
      ensures Valid() && View() == Initial(Config())
    {
      this.queue, this.workers, this.flags := queue, workers, flags;
      queuePos, bailFlag, failures := 0, false, [];
      slotStats := seq(workers, i => Stats(0, 0));
      runIndex := seq(workers, i => 0);
      phase := seq(workers, i => Staggering);
      children, exits := [], [];
    }

    /** The slot's stagger timer fires. */
    method StaggerElapsed(i: nat)
      requires Valid() && Enabled(Config(), View(), Woken(i))
      modifies this
      ensures Valid() && View() == Step(Config(), old(View()), Woken(i))
    {
      TakeNext(i);
    }

    /** The slot's child closes: update the statistics, note a failure, bail or go round the loop. */
    method ChildClosed(i: nat, code: ExitCode, ms: nat)
      requires Valid() && Enabled(Config(), View(), Closed(i, code, ms))
      modifies this
      ensures Valid() && View() == Step(Config(), old(View()), Closed(i, code, ms))
    {
      var child := phase[i].child;
      var st := slotStats[i];
      slotStats := slotStats[i := Stats(st.filesCompleted + 1, st.totalMs + ms)];
      runIndex := runIndex[i := runIndex[i] + 1];
      exits := exits + [Exit(child, code, ms)];
      phase := phase[i := Awake];
      if Failed(code) {
        failures := failures + [Failure(child.file, i, child.fileIndex)];
        if "--bail" in flags {
          bailFlag := true;
          phase := phase[i := Finished];
          return;
        }
      }
      TakeNext(i);
    }

    /** The head of the loop: test the bail flag, post-increment the cursor, spawn the file or leave. */
    method TakeNext(i: nat)
      requires Valid() && i < workers
      modifies this`queuePos, this`phase, this`children
      ensures Valid() && View() == PullNext(Config(), old(View()), i)
    {
      if bailFlag {
        phase := phase[i := Finished];
        return;
      }
      var fileIndex := queuePos;
      queuePos := queuePos + 1;
      if fileIndex >= |queue| {
        phase := phase[i := Finished];
        return;
      }
      var child := Child(i, runIndex[i], fileIndex, queue[fileIndex], ReportSuffix(i, runIndex[i]));
      children := children + [child];
      phase := phase[i := Running(child)];
    }

    /** Feeds a whole sequence of events, in order. */
    method Drive(es: seq<Event>)
      requires Valid() && Playable(Config(), View(), es)
      modifies this
      ensures Valid() && View() == Play(Config(), old(View()), es)
    {
      var k := 0;
      while k < |es|
        invariant k <= |es| && Valid() && Playable(Config(), View(), es[k..])
        invariant Play(Config(), View(), es[k..]) == Play(Config(), old(View()), es)
      {
        assert es[k..][1..] == es[k + 1..];
        match es[k] {
          case Woken(i) => StaggerElapsed(i);
          case Closed(i, code, ms) => ChildClosed(i, code, ms);
        }
        k := k + 1;
      }
    }
  }
}
