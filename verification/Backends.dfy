/** Spreading parallel workers over the configured backends by worker id modulo their number. */
module Backends {
  import opened Text
  import opened Arithmetic

  /** The backend a process talks to: node A when none is configured, the first when it has no worker id. */
  function TargetNode(available: seq<string>, workerId: Option<nat>): string {
    if available == [] then "A"
    else match workerId
      case Some(id) => available[id % |available|]
      case None => available[0]
  }

  /** How many of the workers 0..workers talk to `node`. */
  function LoadOf(available: seq<string>, workers: nat, node: string): nat {
    if workers == 0 then 0
    else LoadOf(available, workers - 1, node) + if TargetNode(available, Some(workers - 1)) == node then 1 else 0
  }

  ghost predicate Distinct(available: seq<string>) {
    forall i, j :: 0 <= i < j < |available| ==> available[i] != available[j]
  }

  lemma {:induction false} LoadExact(available: seq<string>, workers: nat, b: nat)
    requires Distinct(available) && b < |available|
    ensures LoadOf(available, workers, available[b]) ==
            workers / |available| + if b < workers % |available| then 1 else 0
  {
    if workers == 0 {
    } else {
      var w := workers - 1;
      LoadExact(available, w, b);
      Successor(w, |available|);
    }
  }

  /** `Math.ceil(workers / backends)`, the figure in the uneven-load warning. */
  function WarnedMaximum(workers: nat, backends: nat): nat
    requires backends >= 1
  {
    (workers + backends - 1) / backends
  }

  lemma CeilingExact(workers: nat, backends: nat)
    requires backends >= 1
    ensures WarnedMaximum(workers, backends) == workers / backends + if workers % backends > 0 then 1 else 0
  {
    var q, r := workers / backends, workers % backends;
    assert workers == q * backends + r;
    if r == 0 {
      DivModUnique(workers + backends - 1, backends, q, backends - 1);
    } else {
      assert (q + 1) * backends == q * backends + backends;
      DivModUnique(workers + backends - 1, backends, q + 1, r - 1);
    }
  }

  /** No backend serves fewer than floor(W/B) or more than the warned ceil(W/B) workers, and the first serves exactly that many. */
  lemma WarningIsTight(available: seq<string>, workers: nat, b: nat)
    requires Distinct(available) && b < |available|
    ensures workers / |available| <= LoadOf(available, workers, available[b]) <= WarnedMaximum(workers, |available|)
    ensures LoadOf(available, workers, available[0]) == WarnedMaximum(workers, |available|)
  {
    LoadExact(available, workers, b);
    LoadExact(available, workers, 0);
    CeilingExact(workers, |available|);
  }

  /** Without a worker id a process talks to the first backend, like worker 0; with no backend, to node A. */
  lemma DefaultBackend(available: seq<string>, workerId: Option<nat>)
    ensures available == [] ==> TargetNode(available, workerId) == "A"
    ensures available != [] ==> TargetNode(available, None) == available[0] == TargetNode(available, Some(0))
  {
  }
}
