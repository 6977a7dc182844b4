/** Ordering the queue by last run's durations, longest first, unknown files at the front. */
module QueueSort {
  import opened Text

  /** A duration hint; `None` is the Infinity given to a file without one. */
  type Hint = Option<nat>

  predicate Longer(x: Hint, y: Hint) {
    match (x, y)
    case (None, _) => y.Some?
    case (Some(_), None) => false
    case (Some(a), Some(b)) => a > b
  }

  /** `path.basename`: the part after the last slash, trailing slashes ignored. */
  function Basename(p: string): (b: string)
    ensures '/' !in b
  {
    if p != "" && p[|p| - 1] == '/' then Basename(p[..|p| - 1]) else AfterSlash(p)
  }

  function AfterSlash(p: string): (b: string)
    ensures '/' !in b
  {
    if p == "" || p[|p| - 1] == '/' then "" else AfterSlash(p[..|p| - 1]) + [p[|p| - 1]]
  }

  function HintOf(hints: map<string, nat>, file: string): Hint {
    if Basename(file) in hints then Some(hints[Basename(file)]) else None
  }

  function FileKey(hints: map<string, nat>): string -> Hint {
    file => HintOf(hints, file)
  }

  function Insert<T>(x: T, xs: seq<T>, key: T -> Hint): seq<T> {
    if xs == [] || !Longer(key(xs[0]), key(x)) then [x] + xs
    else [xs[0]] + Insert(x, xs[1..], key)
  }

  /** A stable sort, longest first. */
  function Sort<T>(xs: seq<T>, key: T -> Hint): seq<T> {
    if xs == [] then [] else Insert(xs[0], Sort(xs[1..], key), key)
  }

  function LongestFirst(files: seq<string>, hints: map<string, nat>): seq<string> {
    Sort(files, FileKey(hints))
  }

  ghost predicate Ordered<T>(xs: seq<T>, key: T -> Hint) {
    forall i, j :: 0 <= i < j < |xs| ==> !Longer(key(xs[j]), key(xs[i]))
  }

  /** The elements whose hint is `v`, in order. */
  function WithHint<T>(xs: seq<T>, key: T -> Hint, v: Hint): seq<T> {
    if xs == [] then []
    else (if key(xs[0]) == v then [xs[0]] else []) + WithHint(xs[1..], key, v)
  }

  /** The same elements, and those with equal hints in the same order. */
  ghost predicate StablyPermutes<T(!new)>(xs: seq<T>, ys: seq<T>, key: T -> Hint) {
    forall v :: WithHint(xs, key, v) == WithHint(ys, key, v)
  }

  lemma {:induction false} InsertMembers<T>(x: T, xs: seq<T>, key: T -> Hint)
    ensures multiset(Insert(x, xs, key)) == multiset([x] + xs)
  {
    if !(xs == [] || !Longer(key(xs[0]), key(x))) {
      InsertMembers(x, xs[1..], key);
      assert [x] + xs == [x] + [xs[0]] + xs[1..];
      assert xs == [xs[0]] + xs[1..];
    }
  }

  lemma {:induction false} InsertOrdered<T>(x: T, xs: seq<T>, key: T -> Hint)
    requires Ordered(xs, key)
    ensures Ordered(Insert(x, xs, key), key)
  {
    if !(xs == [] || !Longer(key(xs[0]), key(x))) {
      var rest := Insert(x, xs[1..], key);
      InsertOrdered(x, xs[1..], key);
      InsertMembers(x, xs[1..], key);
      forall j | 0 <= j < |rest|
        ensures !Longer(key(rest[j]), key(xs[0]))
      {
        assert rest[j] in multiset(rest);
        assert rest[j] == x || rest[j] in xs[1..];
      }
    }
  }

  lemma WithHintCons<T>(x: T, xs: seq<T>, key: T -> Hint, v: Hint)
    ensures WithHint([x] + xs, key, v) == if key(x) == v then [x] + WithHint(xs, key, v) else WithHint(xs, key, v)
  {
    assert ([x] + xs)[1..] == xs;
  }

  lemma {:induction false} InsertStable<T>(x: T, xs: seq<T>, key: T -> Hint, v: Hint)
    ensures WithHint(Insert(x, xs, key), key, v) == WithHint([x] + xs, key, v)
  {
    if !(xs == [] || !Longer(key(xs[0]), key(x))) {
      InsertStable(x, xs[1..], key, v);
      WithHintCons(x, xs, key, v);
      WithHintCons(x, xs[1..], key, v);
      WithHintCons(xs[0], Insert(x, xs[1..], key), key, v);
    }
  }

  lemma {:induction false} SortStable<T>(xs: seq<T>, key: T -> Hint, v: Hint)
    ensures WithHint(Sort(xs, key), key, v) == WithHint(xs, key, v)
  {
    if xs == [] {
    } else {
      SortStable(xs[1..], key, v);
      InsertStable(xs[0], Sort(xs[1..], key), key, v);
      WithHintCons(xs[0], Sort(xs[1..], key), key, v);
    }
  }

  lemma {:induction false} SortOrdered<T>(xs: seq<T>, key: T -> Hint)
    ensures Ordered(Sort(xs, key), key)
  {
    if xs == [] {
    } else {
      SortOrdered(xs[1..], key);
      InsertOrdered(xs[0], Sort(xs[1..], key), key);
    }
  }

  lemma {:induction false} SortPermutes<T>(xs: seq<T>, key: T -> Hint)
    ensures multiset(Sort(xs, key)) == multiset(xs) && |Sort(xs, key)| == |xs|
  {
    if xs == [] {
    } else {
      SortPermutes(xs[1..], key);
      InsertMembers(xs[0], Sort(xs[1..], key), key);
      assert xs == [xs[0]] + xs[1..];
      assert |Sort(xs, key)| == |multiset(Sort(xs, key))|;
    }
  }

  lemma {:induction false} WithHintFirst<T>(xs: seq<T>, key: T -> Hint, v: Hint)
    ensures WithHint(xs, key, v) != [] ==> exists i :: 0 <= i < |xs| && key(xs[i]) == v
  {
    if xs != [] && key(xs[0]) != v {
      WithHintFirst(xs[1..], key, v);
      if WithHint(xs, key, v) != [] {
        var i :| 0 <= i < |xs[1..]| && key(xs[1..][i]) == v;
        assert key(xs[i + 1]) == v;
      }
    }
  }

  lemma HeadsAgree<T(!new)>(xs: seq<T>, ys: seq<T>, key: T -> Hint)
    requires Ordered(xs, key) && Ordered(ys, key) && StablyPermutes(xs, ys, key) && xs != []
    ensures ys != [] && xs[0] == ys[0]
  {
    var v := key(xs[0]);
    assert WithHint(xs, key, v)[0] == xs[0];
    WithHintFirst(ys, key, v);
    var w := key(ys[0]);
    assert WithHint(ys, key, w)[0] == ys[0];
    WithHintFirst(xs, key, w);
  }

  lemma {:induction false} OrderedIsUnique<T(!new)>(xs: seq<T>, ys: seq<T>, key: T -> Hint)
    requires Ordered(xs, key) && Ordered(ys, key) && StablyPermutes(xs, ys, key)
    ensures xs == ys
  {
    if xs == [] {
      if ys != [] { HeadsAgree(ys, xs, key); }
    } else {
      HeadsAgree(xs, ys, key);
      forall v
        ensures WithHint(xs[1..], key, v) == WithHint(ys[1..], key, v)
      {
        assert WithHint(xs, key, v) == WithHint(ys, key, v);
        var head := if key(xs[0]) == v then [xs[0]] else [];
        var restX, restY := WithHint(xs[1..], key, v), WithHint(ys[1..], key, v);
        assert head + restX == head + restY;
        assert (head + restX)[|head|..] == restX && (head + restY)[|head|..] == restY;
      }
      OrderedIsUnique(xs[1..], ys[1..], key);
    }
  }

  /**
    The queue is the only list that holds the files longest first, unknown files before all
    others, and files of equal hint in their original order.
   */
  lemma LongestFirstExactly(files: seq<string>, hints: map<string, nat>, queue: seq<string>)
    ensures queue == LongestFirst(files, hints) <==>
            Ordered(queue, FileKey(hints)) && StablyPermutes(files, queue, FileKey(hints))
  {
    var key := FileKey(hints);
    SortOrdered(files, key);
    forall v { SortStable(files, key, v); }
    if Ordered(queue, key) && StablyPermutes(files, queue, key) {
      OrderedIsUnique(LongestFirst(files, hints), queue, key);
    }
  }

  lemma UnknownGoFirst(files: seq<string>, hints: map<string, nat>, i: nat, j: nat)
    requires i < |LongestFirst(files, hints)| && j < |LongestFirst(files, hints)|
    requires var q := LongestFirst(files, hints); HintOf(hints, q[i]).None? && HintOf(hints, q[j]).Some?
    ensures i < j
  {
    SortOrdered(files, FileKey(hints));
  }

  // ------------------------------------------------------ on paths and names

  lemma {:induction false} AfterSlashSnoc(pre: string, name: string)
    requires '/' !in name
    ensures AfterSlash(pre + name) == AfterSlash(pre) + name
  {
    if name == "" {
      assert pre + name == pre;
    } else {
      var n := |name| - 1;
      assert (pre + name)[..|pre + name| - 1] == pre + name[..n];
      AfterSlashSnoc(pre, name[..n]);
      assert name == name[..n] + [name[n]];
    }
  }

  lemma {:induction false} TrailingSlashes(p: string, slashes: string)
    requires forall c :: c in slashes ==> c == '/'
    ensures Basename(p + slashes) == Basename(p)
  {
    if slashes == "" {
      assert p + slashes == p;
    } else {
      var n := |slashes| - 1;
      assert slashes[n] in slashes && forall c :: c in slashes[..n] ==> c in slashes;
      assert (p + slashes)[..|p + slashes| - 1] == p + slashes[..n];
      TrailingSlashes(p, slashes[..n]);
    }
  }

  /** `path` ends in the segment `name`, perhaps with slashes after it. */
  ghost predicate Names(path: string, name: string) {
    && name != "" && '/' !in name
    && exists dir: string, slashes: string ::
         (forall c :: c in slashes ==> c == '/') && (dir == "" || dir[|dir| - 1] == '/') && path == dir + name + slashes
  }

  /** The last segment of a path is its basename, whatever directory it is in. */
  lemma BasenameExactly(path: string, name: string)
    requires Names(path, name)
    ensures Basename(path) == name
  {
    var dir: string, slashes: string :|
      (forall c :: c in slashes ==> c == '/') && (dir == "" || dir[|dir| - 1] == '/') && path == dir + name + slashes;
    TrailingSlashes(dir + name, slashes);
    assert (dir + name)[|dir + name| - 1] == name[|name| - 1];
    AfterSlashSnoc(dir, name);
    assert "" + name == name;
  }

  /**
    The queue by file names: of two paths, the one whose name has the longer hint stands first, and
    one whose name has no hint stands before all that have one.
   */
  lemma LongerNameFirst(files: seq<string>, hints: map<string, nat>, i: nat, j: nat, x: string, y: string)
    requires i < |LongestFirst(files, hints)| && j < |LongestFirst(files, hints)|
    requires Names(LongestFirst(files, hints)[i], x) && Names(LongestFirst(files, hints)[j], y)
    requires y in hints && (x in hints ==> hints[x] > hints[y])
    ensures i < j
  {
    BasenameExactly(LongestFirst(files, hints)[i], x);
    BasenameExactly(LongestFirst(files, hints)[j], y);
    SortOrdered(files, FileKey(hints));
  }
}
