/**
  List scheduling on identical slots, as sequences of numbers: `d[k]` is the duration of the
  k-th file taken from the queue and `a[k]` the slot that took it.  The two makespan bounds
  proved here are those of R. L. Graham, "Bounds on Multiprocessing Timing Anomalies" (1969).
 */
module ListScheduling {
  import opened Arithmetic

  function Sum(d: seq<nat>): nat {
    if d == [] then 0 else Sum(d[..|d| - 1]) + d[|d| - 1]
  }

  /** Time slot `i` spends on the files it was given. */
  function Load(d: seq<nat>, a: seq<nat>, i: nat): nat
    requires |d| == |a|
  {
    if d == [] then 0
    else
      var n := |d| - 1;
      Load(d[..n], a[..n], i) + if a[n] == i then d[n] else 0
  }

  /** Loads of slots 0..m added up. */
  function TotalLoad(d: seq<nat>, a: seq<nat>, m: nat): nat
    requires |d| == |a|
  {
    if m == 0 then 0 else TotalLoad(d, a, m - 1) + Load(d, a, m - 1)
  }

  function Triangle(m: nat): nat {
    if m == 0 then 0 else Triangle(m - 1) + (m - 1)
  }

  ghost predicate Placed(a: seq<nat>, m: nat) {
    forall k :: 0 <= k < |a| ==> a[k] < m
  }

  /** Every slot of the placement `a` finishes by `opt`. */
  ghost predicate FinishesBy(d: seq<nat>, a: seq<nat>, m: nat, opt: nat)
    requires |d| == |a|
  {
    Placed(a, m) && forall i: nat :: i < m ==> Load(d, a, i) <= opt
  }

  /** When slot `i` is next free after the files in `d`, having started at `i * s`. */
  function FreeAt(s: nat, d: seq<nat>, a: seq<nat>, i: nat): nat
    requires |d| == |a|
  {
    i * s + Load(d, a, i)
  }

  /**
    `a` and `starts` are what a shared queue yields: file k starts on a slot that is free no
    later than any other slot.  Ties may be broken in any way.
   */
  ghost predicate IsListSchedule(m: nat, s: nat, d: seq<nat>, a: seq<nat>, starts: seq<nat>) {
    && |d| == |a| == |starts|
    && Placed(a, m)
    && forall k: nat :: k < |d| ==> StartsEarliest(m, s, d, a, starts, k)
  }

  ghost predicate StartsEarliest(m: nat, s: nat, d: seq<nat>, a: seq<nat>, starts: seq<nat>, k: nat)
    requires |d| == |a| == |starts| && k < |d|
  {
    && starts[k] == FreeAt(s, d[..k], a[..k], a[k])
    && forall i: nat :: i < m ==> starts[k] <= FreeAt(s, d[..k], a[..k], i)
  }

  // ---------------------------------------------------------------- counting

  lemma {:induction false} TotalLoadSnoc(d: seq<nat>, a: seq<nat>, m: nat)
    requires |d| == |a| > 0
    ensures var n := |d| - 1;
            TotalLoad(d, a, m) == TotalLoad(d[..n], a[..n], m) + if a[n] < m then d[n] else 0
  {
    if m == 0 {
    } else {
      TotalLoadSnoc(d, a, m - 1);
    }
  }

  lemma {:induction false} TotalLoadEmpty(m: nat)
    ensures TotalLoad([], [], m) == 0
  {
    if m == 0 {
    } else {
      TotalLoadEmpty(m - 1);
    }
  }

  /** Work is conserved: the slots' loads add up to the durations. */
  lemma {:induction false} LoadsAddUp(d: seq<nat>, a: seq<nat>, m: nat)
    requires |d| == |a| && Placed(a, m)
    ensures TotalLoad(d, a, m) == Sum(d)
  {
    if d == [] {
      TotalLoadEmpty(m);
    } else {
      var n := |d| - 1;
      TotalLoadSnoc(d, a, m);
      LoadsAddUp(d[..n], a[..n], m);
    }
  }

  lemma {:induction false} TotalAtMost(d: seq<nat>, a: seq<nat>, m: nat, bound: nat)
    requires |d| == |a|
    requires forall i: nat :: i < m ==> Load(d, a, i) <= bound
    ensures TotalLoad(d, a, m) <= m * bound
  {
    if m == 0 {
    } else {
      TotalAtMost(d, a, m - 1, bound);
    }
  }

  lemma {:induction false} TotalAtLeast(d: seq<nat>, a: seq<nat>, m: nat, bound: nat)
    requires |d| == |a|
    requires forall i: nat :: i < m ==> bound <= Load(d, a, i)
    ensures m * bound <= TotalLoad(d, a, m)
  {
    if m == 0 {
    } else {
      TotalAtLeast(d, a, m - 1, bound);
    }
  }

  lemma {:induction false} StaggeredTotal(s: nat, d: seq<nat>, a: seq<nat>, m: nat, t: nat)
    requires |d| == |a|
    requires forall i: nat :: i < m ==> t <= FreeAt(s, d, a, i)
    ensures m * t <= s * Triangle(m) + TotalLoad(d, a, m)
  {
    if m == 0 {
    } else {
      StaggeredTotal(s, d, a, m - 1, t);
      assert t <= FreeAt(s, d, a, m - 1);
      assert m * t == (m - 1) * t + t;
      assert s * Triangle(m) == s * Triangle(m - 1) + (m - 1) * s;
    }
  }

  lemma {:induction false} TriangleClosed(m: nat)
    ensures 2 * Triangle(m) == m * (m - 1)
  {
    if m == 0 {
    } else {
      TriangleClosed(m - 1);
      assert m * (m - 1) == (m - 1) * (m - 2) + 2 * (m - 1);
    }
  }

  lemma {:induction false} LoadPrefix(d: seq<nat>, a: seq<nat>, n: nat, i: nat)
    requires |d| == |a| && n <= |d|
    ensures Load(d[..n], a[..n], i) <= Load(d, a, i)
    decreases |d|
  {
    if n == |d| {
      assert d[..n] == d && a[..n] == a;
    } else {
      var l := |d| - 1;
      LoadPrefix(d[..l], a[..l], n, i);
      assert d[..l][..n] == d[..n] && a[..l][..n] == a[..n];
    }
  }

  lemma {:induction false} LoadHoldsEach(d: seq<nat>, a: seq<nat>, k: nat)
    requires |d| == |a| && k < |d|
    ensures d[k] <= Load(d, a, a[k])
  {
    assert d[..k + 1][..k] == d[..k] && a[..k + 1][..k] == a[..k];
    assert d[k] <= Load(d[..k + 1], a[..k + 1], a[k]);
    LoadPrefix(d, a, k + 1, a[k]);
  }

  lemma {:induction false} SumPrefix(d: seq<nat>, n: nat)
    requires n <= |d|
    ensures Sum(d[..n]) <= Sum(d)
    decreases |d|
  {
    if n == |d| {
      assert d[..n] == d;
    } else {
      SumPrefix(d[..|d| - 1], n);
      assert d[..|d| - 1][..n] == d[..n];
    }
  }

  // ------------------------------------------------- the work-conserving bound

  /** m times the start of file k is at most the stagger plus all the work taken before it. */
  lemma StartBound(m: nat, s: nat, d: seq<nat>, a: seq<nat>, starts: seq<nat>, k: nat)
    requires IsListSchedule(m, s, d, a, starts) && k < |d|
    ensures m * starts[k] <= s * Triangle(m) + Sum(d[..k])
  {
    assert StartsEarliest(m, s, d, a, starts, k);
    StaggeredTotal(s, d[..k], a[..k], m, starts[k]);
    LoadsAddUp(d[..k], a[..k], m);
  }

  /**
    Any queue order, any durations, any tie-breaking: every file ends by a time C with
    2mC <= 2(total work) + 2(m-1)(longest file) + s*m*(m-1).
   */
  lemma WorkConservingBound(m: nat, s: nat, d: seq<nat>, a: seq<nat>, starts: seq<nat>, longest: nat, k: nat)
    requires IsListSchedule(m, s, d, a, starts) && k < |d|
    requires forall j :: 0 <= j < |d| ==> d[j] <= longest
    ensures 2 * (m * (starts[k] + d[k])) <= 2 * Sum(d) + 2 * ((m - 1) * longest) + s * (m * (m - 1))
  {
    StartBound(m, s, d, a, starts, k);
    SumPrefix(d, k + 1);
    assert d[..k + 1][..k] == d[..k];
    TriangleClosed(m);
    assert a[k] < m;
    EndArithmetic(m, s, starts[k], d[k], longest, Triangle(m), Sum(d[..k]), Sum(d));
  }

  lemma EndArithmetic(m: nat, s: nat, start: nat, x: nat, longest: nat, tri: nat, before: nat, work: nat)
    requires m > 0 && x <= longest && before + x <= work
    requires m * start <= s * tri + before && 2 * tri == m * (m - 1)
    ensures 2 * (m * (start + x)) <= 2 * work + 2 * ((m - 1) * longest) + s * (m * (m - 1))
  {
    var others := m - 1;
    assert m * (start + x) == m * start + x + others * x;
    assert others * x <= others * longest;
    assert s * (2 * tri) == 2 * (s * tri);
  }

  // ----------------------------------------------------------- longest first

  ghost predicate Descending(d: seq<nat>) {
    forall j, k :: 0 <= j <= k < |d| ==> d[k] <= d[j]
  }

  /** A file counts double when it cannot share a slot with one of length `x` within `opt`. */
  function Weights(d: seq<nat>, x: nat, opt: nat): (w: seq<nat>)
    ensures |w| == |d|
    ensures forall j :: 0 <= j < |d| ==> w[j] == if d[j] + x > opt then 2 else 1
  {
    seq(|d|, j requires 0 <= j < |d| => if d[j] + x > opt then 2 else 1)
  }

  /** When three shortest files overflow `opt`, a slot that finishes by `opt` has weight at most 2. */
  lemma {:induction false} OptimalSlotIsLight(d: seq<nat>, a: seq<nat>, i: nat, x: nat, opt: nat)
    requires |d| == |a|
    requires forall j :: 0 <= j < |d| ==> x <= d[j]
    requires 3 * x > opt
    ensures var c, load := Load(Weights(d, x, opt), a, i), Load(d, a, i);
            && (c == 1 ==> x <= load)
            && (c == 2 ==> load + x > opt)
            && (c >= 3 ==> load > opt)
  {
    if d == [] {
    } else {
      var n := |d| - 1;
      OptimalSlotIsLight(d[..n], a[..n], i, x, opt);
      assert Weights(d, x, opt)[..n] == Weights(d[..n], x, opt);
    }
  }

  /** A slot that cannot take another file of length `x` within `opt` has weight at least 2. */
  lemma {:induction false} FullSlotIsHeavy(d: seq<nat>, a: seq<nat>, i: nat, x: nat, opt: nat)
    requires |d| == |a|
    ensures var c, load := Load(Weights(d, x, opt), a, i), Load(d, a, i);
            && (c == 0 ==> load == 0)
            && (c == 1 ==> load + x <= opt)
  {
    if d == [] {
    } else {
      var n := |d| - 1;
      FullSlotIsHeavy(d[..n], a[..n], i, x, opt);
      assert Weights(d, x, opt)[..n] == Weights(d[..n], x, opt);
    }
  }

  /**
    If three files of the shortest length `d[k]` already overflow `opt`, longest-first is optimal:
    file k ends by `opt`.  Otherwise counting weights gives 2m <= W(d[..k]) < W(d[..k+1]) <= 2m.
   */
  lemma FewFilesPerSlot(m: nat, d: seq<nat>, a: seq<nat>, starts: seq<nat>, k: nat, best: seq<nat>, opt: nat)
    requires IsListSchedule(m, 0, d, a, starts) && k < |d| && Descending(d)
    requires |best| == |d| && FinishesBy(d, best, m, opt)
    requires 3 * d[k] > opt
    ensures starts[k] + d[k] <= opt
  {
    var x := d[k];
    if starts[k] + x > opt {
      assert x <= opt by { LoadHoldsEach(d, best, k); assert best[k] < m; }
      assert StartsEarliest(m, 0, d, a, starts, k);
      var before, upTo := d[..k], d[..k + 1];
      var w := Weights(upTo, x, opt);
      forall i: nat | i < m
        ensures 2 <= Load(Weights(before, x, opt), a[..k], i)
      {
        assert starts[k] <= FreeAt(0, before, a[..k], i) == Load(before, a[..k], i);
        FullSlotIsHeavy(before, a[..k], i, x, opt);
      }
      TotalAtLeast(Weights(before, x, opt), a[..k], m, 2);
      LoadsAddUp(Weights(before, x, opt), a[..k], m);
      assert w[..k] == Weights(before, x, opt);
      forall i: nat {:trigger Load(w, best[..k + 1], i)} | i < m
        ensures Load(w, best[..k + 1], i) <= 2
      {
        LoadPrefix(d, best, k + 1, i);
        OptimalSlotIsLight(upTo, best[..k + 1], i, x, opt);
      }
      TotalAtMost(w, best[..k + 1], m, 2);
      LoadsAddUp(w, best[..k + 1], m);
      assert false;
    }
  }

  lemma OptimalCarriesAll(d: seq<nat>, best: seq<nat>, m: nat, opt: nat)
    requires |best| == |d| && FinishesBy(d, best, m, opt)
    ensures Sum(d) <= m * opt
  {
    LoadsAddUp(d, best, m);
    TotalAtMost(d, best, m, opt);
  }

  /**
    Longest-first without stagger is within 4/3 - 1/(3m) of any placement of the same files:
    every file ends by a time C with 3mC <= (4m-1)*opt.
   */
  lemma LongestFirstBound(m: nat, d: seq<nat>, a: seq<nat>, starts: seq<nat>, k: nat, best: seq<nat>, opt: nat)
    requires IsListSchedule(m, 0, d, a, starts) && k < |d| && Descending(d)
    requires |best| == |d| && FinishesBy(d, best, m, opt)
    ensures 3 * (m * (starts[k] + d[k])) <= (4 * m - 1) * opt
  {
    assert a[k] < m;
    if 3 * d[k] > opt {
      FewFilesPerSlot(m, d, a, starts, k, best, opt);
      OptimalArithmetic(m, starts[k] + d[k], opt);
    } else {
      StartBound(m, 0, d, a, starts, k);
      SumPrefix(d, k + 1);
      assert d[..k + 1][..k] == d[..k];
      OptimalCarriesAll(d, best, m, opt);
      ShortTailArithmetic(m, starts[k], d[k], opt);
    }
  }

  lemma OptimalArithmetic(m: nat, end: nat, opt: nat)
    requires m > 0 && end <= opt
    ensures 3 * (m * end) <= (4 * m - 1) * opt
  {
    var gap, others := opt - end, m - 1;
    assert m * opt == m * end + m * gap;
    assert (4 * m - 1) * opt == 3 * (m * opt) + others * opt;
  }

  lemma ShortTailArithmetic(m: nat, start: nat, x: nat, opt: nat)
    requires m > 0 && 3 * x <= opt && m * start + x <= m * opt
    ensures 3 * (m * (start + x)) <= (4 * m - 1) * opt
  {
    var others := m - 1;
    assert m * (start + x) == m * start + x + others * x;
    assert others * (3 * x) <= others * opt;
    assert (4 * m - 1) * opt == 3 * (m * opt) + others * opt;
  }

  // ------------------------------------------------------------ the long tail

  function Ones(n: nat): (d: seq<nat>)
    ensures |d| == n && forall k :: 0 <= k < n ==> d[k] == 1
  {
    seq(n, k => 1)
  }

  function RoundRobin(n: nat, m: nat): (a: seq<nat>)
    requires m >= 1
    ensures |a| == n && forall k :: 0 <= k < n ==> a[k] == k % m
  {
    seq(n, k requires k >= 0 => k % m)
  }

  lemma LoadLast(d: seq<nat>, a: seq<nat>, i: nat)
    requires |d| == |a| > 0
    ensures var n := |d| - 1; Load(d, a, i) == Load(d[..n], a[..n], i) + if a[n] == i then d[n] else 0
  {
  }

  lemma {:induction false} RoundRobinLoad(n: nat, m: nat, i: nat)
    requires m >= 1
    ensures Load(Ones(n), RoundRobin(n, m), i) == if i >= m then 0 else n / m + if i < n % m then 1 else 0
  {
    if n == 0 {
    } else {
      hide Load;
      RoundRobinLoad(n - 1, m, i);
      Successor(n - 1, m);
      assert Ones(n)[..n - 1] == Ones(n - 1) && RoundRobin(n, m)[..n - 1] == RoundRobin(n - 1, m);
      LoadLast(Ones(n), RoundRobin(n, m), i);
    }
  }

  /** m(m-1) files of length 1, then one of length m. */
  function LongFileLast(m: nat): seq<nat> {
    Ones(m * (m - 1)) + [m]
  }

  lemma ShortFilesFirst(m: nat) returns (a: seq<nat>, starts: seq<nat>)
    requires m >= 1
    ensures IsListSchedule(m, 0, LongFileLast(m), a, starts)
    ensures starts[m * (m - 1)] == m - 1
  {
    var n, d := m * (m - 1), LongFileLast(m);
    a, starts := RoundRobin(n, m) + [0], seq(n + 1, k requires k >= 0 => k / m);
    DivModUnique(n, m, m - 1, 0);
    forall k: nat | k <= n
      ensures a[k] < m && StartsEarliest(m, 0, d, a, starts, k)
    {
      assert d[..k] == Ones(k) && a[..k] == RoundRobin(k, m);
      forall i: nat | i < m
        ensures FreeAt(0, d[..k], a[..k], i) == k / m + if i < k % m then 1 else 0
      {
        RoundRobinLoad(k, m, i);
      }
    }
  }

  lemma LongFileAlone(m: nat) returns (best: seq<nat>)
    requires m >= 1
    ensures |best| == |LongFileLast(m)| && FinishesBy(LongFileLast(m), best, m, m)
  {
    var n, d := m * (m - 1), LongFileLast(m);
    if m == 1 {
      best := [0];
      assert d[..0] == [];
    } else {
      best := RoundRobin(n, m - 1) + [m - 1];
      DivModUnique(n, m - 1, m, 0);
      assert d[..n] == Ones(n) && best[..n] == RoundRobin(n, m - 1);
      forall i: nat | i < m
        ensures Load(d, best, i) <= m
      {
        RoundRobinLoad(n, m - 1, i);
      }
    }
  }

  lemma {:induction false} SumOnes(n: nat)
    ensures Sum(Ones(n)) == n
  {
    if n == 0 {
    } else {
      SumOnes(n - 1);
      assert Ones(n)[..n - 1] == Ones(n - 1);
    }
  }

  /**
    Why the queue is sorted: with the long file last, a phase that could finish by m may end only
    at 2m-1, nearly double, for every number m of slots; and the work-conserving bound is attained.
   */
  lemma LongTail(m: nat) returns (a: seq<nat>, starts: seq<nat>, best: seq<nat>)
    requires m >= 1
    ensures var d, n := LongFileLast(m), m * (m - 1);
            && IsListSchedule(m, 0, d, a, starts) && starts[n] + d[n] == 2 * m - 1
            && |best| == |d| && FinishesBy(d, best, m, m)
            && m * (starts[n] + d[n]) == Sum(d) + (m - 1) * m
  {
    a, starts := ShortFilesFirst(m);
    best := LongFileAlone(m);
    var n := m * (m - 1);
    SumOnes(n);
    assert LongFileLast(m)[..n] == Ones(n);
    assert m * (2 * m - 1) == n + m + (m - 1) * m;
  }

  // ------------------------------------------------- the 4/3 bound is attained

  /** The load of a slot that takes just the files p and q. */
  lemma {:induction false} LoadOfTwo(d: seq<nat>, a: seq<nat>, i: nat, p: nat, q: nat)
    requires |d| == |a| && p < q
    requires forall k :: 0 <= k < |a| ==> (a[k] == i <==> k == p || k == q)
    ensures Load(d, a, i) == (if p < |d| then d[p] else 0) + if q < |d| then d[q] else 0
  {
    if d == [] {
    } else {
      LoadOfTwo(d[..|d| - 1], a[..|d| - 1], i, p, q);
    }
  }

  /** 2m+1 files: 2m-1, 2m-1, 2m-2, 2m-2, ..., m+1, m+1, m, m, m. */
  function PairedFiles(m: nat): (d: seq<nat>)
    requires m >= 1
    ensures |d| == 2 * m + 1 && d[2 * m] == m && forall k :: 0 <= k < 2 * m ==> d[k] == 2 * m - 1 - k / 2
  {
    seq(2 * m + 1, k requires 0 <= k <= 2 * m => if k < 2 * m then 2 * m - 1 - k / 2 else m)
  }

  /** The queue takes the slots forwards, then backwards, then slot 0. */
  function ThereAndBack(m: nat): (a: seq<nat>)
    requires m >= 1
    ensures |a| == 2 * m + 1 && a[2 * m] == 0
    ensures forall k :: 0 <= k < 2 * m ==> a[k] == if k < m then k else 2 * m - 1 - k
  {
    seq(2 * m + 1, k requires 0 <= k <= 2 * m => if k < m then k else if k < 2 * m then 2 * m - 1 - k else 0)
  }

  lemma ThereAndBackLoad(m: nat, k: nat, i: nat)
    requires m >= 1 && i < m && k <= 2 * m
    ensures var d := PairedFiles(m);
            Load(d[..k], ThereAndBack(m)[..k], i) ==
            (if i < k then d[i] else 0) + if 2 * m - 1 - i < k then d[2 * m - 1 - i] else 0
  {
    LoadOfTwo(PairedFiles(m)[..k], ThereAndBack(m)[..k], i, i, 2 * m - 1 - i);
  }

  lemma HalvesOfOdd(m: nat, i: nat)
    requires i < 2 * m
    ensures i / 2 + (2 * m - 1 - i) / 2 == m - 1
  {
  }

  function ThereAndBackStarts(m: nat): (starts: seq<nat>)
    requires m >= 1
    ensures |starts| == 2 * m + 1 && starts[2 * m] == 3 * m - 1
    ensures forall k :: 0 <= k < 2 * m ==> starts[k] == if k < m then 0 else 2 * m - 1 - (2 * m - 1 - k) / 2
  {
    seq(2 * m + 1, k requires 0 <= k <= 2 * m =>
      if k < m then 0 else if k < 2 * m then 2 * m - 1 - (2 * m - 1 - k) / 2 else 3 * m - 1)
  }

  /** The files in pairs that add up to 3m, and the three of length m together. */
  function InPairs(m: nat): (a: seq<nat>)
    requires m >= 1
    ensures |a| == 2 * m + 1
    ensures forall k :: 0 <= k <= 2 * m ==>
              a[k] == if k < m - 1 then k else if k < 2 * m - 2 then 2 * m - 3 - k else m - 1
  {
    seq(2 * m + 1, k requires 0 <= k <= 2 * m =>
      if k < m - 1 then k else if k < 2 * m - 2 then 2 * m - 3 - k else m - 1)
  }

  lemma InPairsLoad(m: nat, i: nat)
    requires m >= 1 && i < m
    ensures Load(PairedFiles(m), InPairs(m), i) == 3 * m
  {
    var d, a := PairedFiles(m), InPairs(m);
    if i < m - 1 {
      LoadOfTwo(d, a, i, i, 2 * m - 3 - i);
      HalvesOfOdd(m - 1, i);
    } else {
      var n := 2 * m;
      LoadOfTwo(d[..n], a[..n], i, n - 2, n - 1);
    }
  }

  /**
    The factor 4/3 - 1/(3m) is exact: for every number m of slots there are files, longest first,
    that end at 4m-1 although they can be placed to finish by 3m.
   */
  lemma LongestFirstTight(m: nat) returns (d: seq<nat>, a: seq<nat>, starts: seq<nat>, best: seq<nat>)
    requires m >= 1
    ensures |d| == 2 * m + 1 && Descending(d) && IsListSchedule(m, 0, d, a, starts)
    ensures |best| == |d| && FinishesBy(d, best, m, 3 * m)
    ensures starts[2 * m] + d[2 * m] == 4 * m - 1
    ensures 3 * (m * (starts[2 * m] + d[2 * m])) == (4 * m - 1) * (3 * m)
  {
    d, a, starts, best := PairedFiles(m), ThereAndBack(m), ThereAndBackStarts(m), InPairs(m);
    forall k: nat | k < |d|
      ensures StartsEarliest(m, 0, d, a, starts, k)
    {
      forall i: nat | i < m
        ensures starts[k] <= FreeAt(0, d[..k], a[..k], i)
      {
        ThereAndBackLoad(m, k, i);
        HalvesOfOdd(m, i);
      }
      ThereAndBackLoad(m, k, a[k]);
      HalvesOfOdd(m, a[k]);
    }
    forall i: nat | i < m
      ensures Load(d, best, i) <= 3 * m
    {
      InPairsLoad(m, i);
    }
    var n := 4 * m - 1;
    assert 3 * (m * n) == n * (3 * m);
  }
}
