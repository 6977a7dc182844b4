/** Hardhat flags: dropping duplicate `--bail` and `--grep` flags. */
module Flags {
  import opened Text

  // ---------------------------------------------------------- the rewriting

  function LastIndex(xs: seq<string>, x: string): (p: int)
    ensures -1 <= p < |xs| && (p >= 0 ==> xs[p] == x)
  {
    if xs == [] then -1
    else if xs[|xs| - 1] == x then |xs| - 1
    else LastIndex(xs[..|xs| - 1], x)
  }

  /** `out.splice(prev, 2)` at the last `--grep`, if there is one. */
  function CutLastGrep(out: seq<string>): seq<string> {
    var prev := LastIndex(out, "--grep");
    if prev == -1 then out else Splice2(out, prev)
  }

  function Splice2(out: seq<string>, at: nat): seq<string>
    requires at < |out|
  {
    out[..at] + if at + 2 <= |out| then out[at + 2..] else []
  }

  function DedupeFrom(fs: seq<string>, out: seq<string>): seq<string>
    decreases |fs|
  {
    if fs == [] then out
    else if fs[0] == "--bail" then
      DedupeFrom(fs[1..], if "--bail" in out then out else out + ["--bail"])
    else if fs[0] == "--grep" then
      if |fs| > 1 then DedupeFrom(fs[2..], CutLastGrep(out) + ["--grep", fs[1]])
      else CutLastGrep(out) + ["--grep"]
    else DedupeFrom(fs[1..], out + [fs[0]])
  }

  function Dedupe(fs: seq<string>): seq<string> {
    DedupeFrom(fs, [])
  }

  method DedupeFlags(extraFlags: seq<string>) returns (out: seq<string>)
    ensures out == Dedupe(extraFlags)
  {
    out := [];
    var i := 0;
    ghost var all := Dedupe(extraFlags);
    assert extraFlags[0..] == extraFlags;
    while i < |extraFlags|
      invariant i <= |extraFlags|
      invariant DedupeFrom(extraFlags[i..], out) == all
    {
      DedupeUnfold(extraFlags, i, out);
      var flag := extraFlags[i];
      if flag == "--bail" {
        if "--bail" !in out { out := out + ["--bail"]; }
      } else if flag == "--grep" {
        out := CutLastGrep(out);
        assert i + 1 < |extraFlags| ==> (out + ["--grep"]) + [extraFlags[i + 1]] == out + ["--grep", extraFlags[i + 1]];
        out := out + ["--grep"];
        if i + 1 < |extraFlags| {
          i := i + 1;
          out := out + [extraFlags[i]];
        }
      } else {
        out := out + [flag];
      }
      i := i + 1;
    }
    assert extraFlags[i..] == [];
  }

  /** What is still to come at flag `i`. */
  lemma DedupeUnfold(fs: seq<string>, i: nat, out: seq<string>)
    requires i < |fs|
    ensures DedupeFrom(fs[i..], out) ==
            if fs[i] == "--bail" then DedupeFrom(fs[i + 1..], if "--bail" in out then out else out + ["--bail"])
            else if fs[i] == "--grep" then
              if i + 1 < |fs| then DedupeFrom(fs[i + 2..], CutLastGrep(out) + ["--grep", fs[i + 1]])
              else DedupeFrom(fs[i + 1..], CutLastGrep(out) + ["--grep"])
            else DedupeFrom(fs[i + 1..], out + [fs[i]])
  {
    var rest := fs[i..];
    assert rest[1..] == fs[i + 1..];
    if i + 1 < |fs| {
      assert rest[2..] == fs[i + 2..];
    } else {
      assert fs[i + 1..] == [];
    }
  }

  // ------------------------------------------------------------ its meaning

  /** One command-line option: `--grep` takes the next word, if any, as its pattern. */
  datatype Item = Bail | Grep(pattern: Option<string>) | Other(flag: string)

  function Items(fs: seq<string>): seq<Item>
    decreases |fs|
  {
    if fs == [] then []
    else if fs[0] == "--bail" then [Bail] + Items(fs[1..])
    else if fs[0] == "--grep" then
      if |fs| > 1 then [Grep(Some(fs[1]))] + Items(fs[2..]) else [Grep(None)]
    else [Other(fs[0])] + Items(fs[1..])
  }

  function RenderItem(x: Item): (ws: seq<string>)
    ensures 1 <= |ws| <= 2
  {
    match x
    case Bail => ["--bail"]
    case Grep(Some(p)) => ["--grep", p]
    case Grep(None) => ["--grep"]
    case Other(f) => [f]
  }

  function Render(xs: seq<Item>): seq<string> {
    if xs == [] then [] else RenderItem(xs[0]) + Render(xs[1..])
  }

  function GrepCount(xs: seq<Item>): nat {
    if xs == [] then 0 else (if xs[0].Grep? then 1 else 0) + GrepCount(xs[1..])
  }

  /** What is left of option `x`, given what follows it and whether a `--bail` came before. */
  function Kept(x: Item, rest: seq<Item>, bailSeen: bool): (k: seq<Item>)
    ensures k == [] || k == [x]
  {
    match x
    case Bail => if bailSeen then [] else [x]
    case Grep(_) => if GrepCount(rest) > 0 then [] else [x]
    case Other(_) => [x]
  }

  /** The first `--bail`, the last `--grep`, and every other flag, each where it stands. */
  function Intended(xs: seq<Item>, bailSeen: bool): seq<Item> {
    if xs == [] then []
    else Kept(xs[0], xs[1..], bailSeen) + Intended(xs[1..], bailSeen || xs[0].Bail?)
  }

  /** The pattern in force: that of the last `--grep`. */
  function Pattern(xs: seq<Item>): Option<Item> {
    if xs == [] then None
    else if xs[|xs| - 1].Grep? then Some(xs[|xs| - 1])
    else Pattern(xs[..|xs| - 1])
  }

  function Others(xs: seq<Item>): seq<Item> {
    if xs == [] then []
    else (if xs[0].Other? then [xs[0]] else []) + Others(xs[1..])
  }

  predicate Reserved(w: string) {
    w == "--bail" || w == "--grep"
  }

  /** No pattern is itself `--bail` or `--grep`. */
  predicate PatternsOk(xs: seq<Item>) {
    forall i :: 0 <= i < |xs| ==>
      match xs[i]
      case Grep(Some(p)) => !Reserved(p)
      case Other(f) => !Reserved(f)
      case _ => true
  }

  predicate OthersOk(xs: seq<Item>) {
    forall x :: x in xs && x.Other? ==> !Reserved(x.flag)
  }

  /** Only the very last option can be a `--grep` without a pattern. */
  predicate PatternsGiven(xs: seq<Item>) {
    Grep(None) !in xs
  }

  lemma ItemsUnfold(fs: seq<string>)
    requires fs != []
    ensures var n := |RenderItem(Items(fs)[0])|; n <= |fs| && Items(fs) == [Items(fs)[0]] + Items(fs[n..])
    ensures Items(fs)[0] == Grep(None) ==> fs == ["--grep"] && fs[1..] == []
  {
    if fs[0] == "--grep" && |fs| == 1 {
      assert fs[1..] == [];
    }
  }

  /** The first option's rendering is how the flags begin. */
  lemma FirstItem(fs: seq<string>)
    requires fs != []
    ensures var ws := RenderItem(Items(fs)[0]); |ws| <= |fs| && fs == ws + fs[|ws|..]
  {
    if fs[0] == "--grep" && |fs| > 1 {
      assert fs[..2] == ["--grep", fs[1]];
    } else {
      assert fs[..1] == [fs[0]];
    }
  }

  lemma {:induction false} RenderItems(fs: seq<string>)
    ensures Render(Items(fs)) == fs
    decreases |fs|
  {
    if fs == [] {
    } else {
      ItemsUnfold(fs);
      FirstItem(fs);
      var x, rest := Items(fs)[0], fs[|RenderItem(Items(fs)[0])|..];
      RenderItems(rest);
      assert ([x] + Items(rest))[1..] == Items(rest);
    }
  }

  lemma {:induction false} RenderConcat(xs: seq<Item>, ys: seq<Item>)
    ensures Render(xs + ys) == Render(xs) + Render(ys)
  {
    if xs == [] {
      assert xs + ys == ys;
    } else {
      RenderConcat(xs[1..], ys);
      assert (xs + ys)[0] == xs[0] && (xs + ys)[1..] == xs[1..] + ys;
      Associative(RenderItem(xs[0]), Render(xs[1..]), Render(ys));
    }
  }

  lemma {:induction false} RenderHasBail(xs: seq<Item>)
    requires OthersOk(xs)
    ensures "--bail" in Render(xs) <==> Bail in xs || Grep(Some("--bail")) in xs
  {
    if xs == [] {
    } else {
      RenderHasBail(xs[1..]);
      assert xs == [xs[0]] + xs[1..];
    }
  }

  function DropGreps(xs: seq<Item>): seq<Item> {
    if xs == [] then [] else (if xs[0].Grep? then [] else [xs[0]]) + DropGreps(xs[1..])
  }

  lemma {:induction false} LastIndexConcat(a: seq<string>, b: seq<string>, x: string)
    ensures LastIndex(a + b, x) == if LastIndex(b, x) >= 0 then |a| + LastIndex(b, x) else LastIndex(a, x)
    decreases |b|
  {
    if b == [] {
      assert a + b == a;
    } else {
      assert (a + b)[..|a + b| - 1] == a + b[..|b| - 1];
      LastIndexConcat(a, b[..|b| - 1], x);
    }
  }

  lemma {:induction false} NoGrepNoIndex(xs: seq<Item>)
    requires OthersOk(xs) && GrepCount(xs) == 0
    ensures LastIndex(Render(xs), "--grep") == -1 && DropGreps(xs) == xs
  {
    if xs == [] {
    } else {
      NoGrepNoIndex(xs[1..]);
      LastIndexConcat(RenderItem(xs[0]), Render(xs[1..]), "--grep");
    }
  }

  lemma {:induction false} CutGrep(xs: seq<Item>)
    requires OthersOk(xs) && PatternsGiven(xs) && GrepCount(xs) <= 1 && Grep(Some("--grep")) !in xs
    ensures CutLastGrep(Render(xs)) == Render(DropGreps(xs))
  {
    if xs == [] {
    } else {
      if xs[0].Grep? {
        NoGrepNoIndex(xs[1..]);
        assert DropGreps(xs) == [] + xs[1..] == xs[1..];
        CutAtHead(RenderItem(xs[0]), Render(xs[1..]));
      } else {
        CutGrep(xs[1..]);
        CutInTail(RenderItem(xs[0]), Render(xs[1..]));
        RenderConcat([xs[0]], DropGreps(xs[1..]));
        assert [xs[0]][1..] == [] && RenderItem(xs[0]) + [] == RenderItem(xs[0]);
      }
    }
  }

  lemma CutAtHead(h: seq<string>, t: seq<string>)
    requires |h| == 2 && h[0] == "--grep" && h[1] != "--grep" && LastIndex(t, "--grep") == -1
    ensures CutLastGrep(h + t) == t
  {
    LastIndexConcat(h, t, "--grep");
    assert h[..1] == ["--grep"];
    assert (h + t)[2..] == t && [] + t == t;
  }

  lemma CutInTail(h: seq<string>, t: seq<string>)
    requires LastIndex(h, "--grep") == -1
    ensures CutLastGrep(h + t) == h + CutLastGrep(t)
  {
    hide LastIndex, Splice2;
    LastIndexConcat(h, t, "--grep");
    if LastIndex(t, "--grep") >= 0 {
      SpliceInTail(h, t, LastIndex(t, "--grep"));
    }
  }

  lemma SpliceInTail(h: seq<string>, t: seq<string>, p: nat)
    requires p < |t|
    ensures Splice2(h + t, |h| + p) == h + Splice2(t, p)
  {
    assert (h + t)[..|h| + p] == h + t[..p];
    if p + 2 <= |t| {
      assert (h + t)[|h| + p + 2..] == t[p + 2..];
    }
  }

  // How each reading of an option list splits over concatenation.

  lemma {:induction false} GrepCountConcat(xs: seq<Item>, ys: seq<Item>)
    ensures GrepCount(xs + ys) == GrepCount(xs) + GrepCount(ys)
  {
    if xs == [] {
      assert xs + ys == ys;
    } else {
      GrepCountConcat(xs[1..], ys);
      assert (xs + ys)[1..] == xs[1..] + ys;
    }
  }

  lemma {:induction false} DropGrepsConcat(xs: seq<Item>, ys: seq<Item>)
    ensures DropGreps(xs + ys) == DropGreps(xs) + DropGreps(ys)
  {
    if xs == [] {
      assert xs + ys == ys;
    } else {
      DropGrepsConcat(xs[1..], ys);
      assert (xs + ys)[0] == xs[0] && (xs + ys)[1..] == xs[1..] + ys;
      Associative(if xs[0].Grep? then [] else [xs[0]], DropGreps(xs[1..]), DropGreps(ys));
    }
  }

  lemma {:induction false} OthersConcat(xs: seq<Item>, ys: seq<Item>)
    ensures Others(xs + ys) == Others(xs) + Others(ys)
  {
    if xs == [] {
      assert xs + ys == ys;
    } else {
      OthersConcat(xs[1..], ys);
      assert (xs + ys)[0] == xs[0] && (xs + ys)[1..] == xs[1..] + ys;
      Associative(if xs[0].Other? then [xs[0]] else [], Others(xs[1..]), Others(ys));
    }
  }

  lemma {:induction false} PatternConcat(xs: seq<Item>, ys: seq<Item>)
    ensures Pattern(xs + ys) == if GrepCount(ys) > 0 then Pattern(ys) else Pattern(xs)
    decreases |ys|
  {
    if ys == [] {
      assert xs + ys == xs;
    } else {
      var n := |ys| - 1;
      assert (xs + ys)[..|xs + ys| - 1] == xs + ys[..n];
      PatternConcat(xs, ys[..n]);
      GrepCountConcat(ys[..n], [ys[n]]);
      assert ys[..n] + [ys[n]] == ys && [ys[n]][1..] == [];
    }
  }

  lemma {:induction false} IntendedKeepsKinds(xs: seq<Item>, seen: bool)
    ensures PatternsOk(xs) ==> PatternsOk(Intended(xs, seen))
    ensures PatternsGiven(xs) ==> PatternsGiven(Intended(xs, seen))
    ensures Bail in Intended(xs, seen) <==> !seen && Bail in xs
  {
    if xs == [] {
    } else {
      IntendedKeepsKinds(xs[1..], seen || xs[0].Bail?);
      assert xs == [xs[0]] + xs[1..];
    }
  }

  lemma {:induction false} IntendedGreps(xs: seq<Item>, seen: bool)
    ensures GrepCount(Intended(xs, seen)) == if GrepCount(xs) > 0 then 1 else 0
  {
    if xs == [] {
    } else {
      var seen' := seen || xs[0].Bail?;
      IntendedGreps(xs[1..], seen');
      GrepCountConcat(Kept(xs[0], xs[1..], seen), Intended(xs[1..], seen'));
    }
  }

  // ------------------------------------------- the rewriting, option by option

  /** What reading option `x` does to the options kept so far: the pattern `--bail` is taken for the flag. */
  function Reads(kept: seq<Item>, x: Item): seq<Item> {
    match x
    case Bail => if Bail in kept || Grep(Some("--bail")) in kept then kept else kept + [x]
    case Grep(_) => DropGreps(kept) + [x]
    case Other(_) => kept + [x]
  }

  function Left(xs: seq<Item>, kept: seq<Item>): seq<Item>
    decreases |xs|
  {
    if xs == [] then kept else Left(xs[1..], Reads(kept, xs[0]))
  }

  /** No `--grep` but the last has the pattern `--grep`. */
  predicate OnlyLastNamesGrep(xs: seq<Item>) {
    xs == [] ||
    ((xs[0] == Grep(Some("--grep")) ==> GrepCount(xs[1..]) == 0) && OnlyLastNamesGrep(xs[1..]))
  }

  /** The options kept so far can be told apart in their rendering, whatever `xs` brings. */
  predicate KeptOk(kept: seq<Item>, xs: seq<Item>) {
    && OthersOk(kept) && PatternsGiven(kept) && GrepCount(kept) <= 1
    && (Grep(Some("--grep")) in kept ==> GrepCount(xs) == 0)
  }

  lemma {:induction false} DropGrepsFacts(xs: seq<Item>)
    ensures GrepCount(DropGreps(xs)) == 0 && DropGreps(DropGreps(xs)) == DropGreps(xs)
    ensures forall x :: x in DropGreps(xs) <==> x in xs && !x.Grep?
  {
    if xs == [] {
    } else {
      DropGrepsFacts(xs[1..]);
      assert xs == [xs[0]] + xs[1..];
      assert ([xs[0]] + DropGreps(xs[1..]))[1..] == DropGreps(xs[1..]);
      assert [] + DropGreps(xs[1..]) == DropGreps(xs[1..]);
    }
  }

  lemma ReadsKeepsOk(kept: seq<Item>, x: Item, rest: seq<Item>)
    requires KeptOk(kept, [x] + rest) && OnlyLastNamesGrep([x] + rest) && x != Grep(None)
    requires x.Other? ==> !Reserved(x.flag)
    ensures KeptOk(Reads(kept, x), rest)
  {
    assert ([x] + rest)[1..] == rest && [x][1..] == [];
    GrepCountConcat(kept, [x]);
    GrepCountConcat(DropGreps(kept), [x]);
    DropGrepsFacts(kept);
  }

  /** One turn of the rewriting loop. */
  lemma DedupeOne(fs: seq<string>, kept: seq<Item>)
    requires fs != [] && KeptOk(kept, Items(fs))
    ensures var x := Items(fs)[0];
            |RenderItem(x)| <= |fs| &&
            DedupeFrom(fs, Render(kept)) == DedupeFrom(fs[|RenderItem(x)|..], Render(Reads(kept, x)))
  {
    var x := Items(fs)[0];
    ItemsUnfold(fs);
    assert Render([x]) == RenderItem(x) by { assert [x][1..] == [] && RenderItem(x) + [] == RenderItem(x); }
    match x {
      case Bail =>
        RenderHasBail(kept);
        RenderConcat(kept, [x]);
      case Grep(_) =>
        CutGrep(kept);
        RenderConcat(DropGreps(kept), [x]);
      case Other(_) =>
        RenderConcat(kept, [x]);
    }
  }

  /** As long as no pattern but the last is `--grep`, the words kept are those of the options kept. */
  lemma {:induction false} DedupeFromIsLeft(fs: seq<string>, kept: seq<Item>)
    requires KeptOk(kept, Items(fs)) && OnlyLastNamesGrep(Items(fs))
    ensures DedupeFrom(fs, Render(kept)) == Render(Left(Items(fs), kept))
    decreases |fs|
  {
    if fs == [] {
    } else {
      var x, rest := Items(fs)[0], fs[|RenderItem(Items(fs)[0])|..];
      ItemsUnfold(fs);
      FirstItem(fs);
      DedupeOne(fs, kept);
      assert ([x] + Items(rest))[1..] == Items(rest);
      if x != Grep(None) {
        ReadsKeepsOk(kept, x, Items(rest));
        DedupeFromIsLeft(rest, Reads(kept, x));
      }
    }
  }

  lemma DedupeIsLeft(fs: seq<string>)
    requires OnlyLastNamesGrep(Items(fs))
    ensures Dedupe(fs) == Render(Left(Items(fs), []))
  {
    DedupeFromIsLeft(fs, []);
  }

  function DropIf(xs: seq<Item>, drop: bool): seq<Item> {
    if drop then DropGreps(xs) else xs
  }

  lemma DropIfSnoc(kept: seq<Item>, x: Item, drop: bool)
    ensures DropIf(kept + [x], drop) == DropIf(kept, drop) + DropIf([x], drop)
    ensures DropIf([x], drop) == if drop && x.Grep? then [] else [x]
    ensures DropIf(DropGreps(kept), drop) == DropGreps(kept)
  {
    DropGrepsConcat(kept, [x]);
    DropGrepsFacts(kept);
    assert [x][1..] == [];
  }

  lemma ReadsDrop(kept: seq<Item>, x: Item, rest: seq<Item>)
    requires Grep(Some("--bail")) !in kept
    ensures var drop := GrepCount(rest) > 0;
            DropIf(Reads(kept, x), drop) == DropIf(kept, drop || x.Grep?) + Kept(x, rest, Bail in kept)
  {
    var drop := GrepCount(rest) > 0;
    DropIfSnoc(kept, x, drop);
    DropIfSnoc(DropGreps(kept), x, drop);
    assert DropGreps(kept) + [] == DropGreps(kept) && kept + [] == kept;
  }

  /** Without reserved patterns the options kept are the intended ones. */
  lemma {:induction false} LeftIsIntended(xs: seq<Item>, kept: seq<Item>)
    requires PatternsOk(xs) && Grep(Some("--bail")) !in kept
    ensures Left(xs, kept) == DropIf(kept, GrepCount(xs) > 0) + Intended(xs, Bail in kept)
    decreases |xs|
  {
    if xs == [] {
      assert kept + [] == kept;
    } else {
      hide DropIf, Kept;
      var x, rest, seen := xs[0], xs[1..], Bail in kept;
      DropGrepsFacts(kept);
      ReadsDrop(kept, x, rest);
      LeftIsIntended(rest, Reads(kept, x));
      Associative(DropIf(kept, GrepCount(xs) > 0), Kept(x, rest, seen), Intended(rest, seen || x.Bail?));
    }
  }

  /**
    Unless a grep pattern is itself `--bail` or `--grep`, the rewriting keeps the first `--bail`,
    the last `--grep` with its pattern, and every other flag in order.
   */
  lemma DedupeIsIntended(fs: seq<string>)
    requires PatternsOk(Items(fs))
    ensures Dedupe(fs) == Render(Intended(Items(fs), false))
  {
    PatternsOkNamesNone(Items(fs));
    DedupeIsLeft(fs);
    LeftIsIntended(Items(fs), []);
    assert [] + Intended(Items(fs), false) == Intended(Items(fs), false);
  }

  lemma {:induction false} PatternsOkNamesNone(xs: seq<Item>)
    requires PatternsOk(xs)
    ensures OnlyLastNamesGrep(xs)
  {
    if xs == [] {
    } else {
      PatternsOkNamesNone(xs[1..]);
    }
  }

  predicate OnlyPattern(fs: seq<string>, v: string) {
    forall x :: x in Items(fs) && x.Grep? ==> x == Grep(Some(v)) || x == Grep(None)
  }

  lemma {:induction false} ItemsNotReserved(fs: seq<string>, v: string)
    requires OnlyPattern(fs, v) && !Reserved(v)
    ensures PatternsOk(Items(fs))
    decreases |fs|
  {
    if fs != [] && !(fs[0] == "--grep" && |fs| == 1) {
      var n := if fs[0] == "--grep" then 2 else 1;
      assert Items(fs) == [Items(fs)[0]] + Items(fs[n..]);
      assert Items(fs)[0] in Items(fs);
      ItemsNotReserved(fs[n..], v);
    }
  }

  /** The two reserved words are the only patterns that can break the rewriting, and each does. */
  lemma ReservedPatternsExactly(v: string)
    ensures (forall fs :: OnlyPattern(fs, v) ==> Dedupe(fs) == Render(Intended(Items(fs), false))) <==> !Reserved(v)
  {
    if !Reserved(v) {
      forall fs | OnlyPattern(fs, v)
        ensures Dedupe(fs) == Render(Intended(Items(fs), false))
      {
        ItemsNotReserved(fs, v);
        DedupeIsIntended(fs);
      }
    } else if v == "--bail" {
      BailAsPattern();
    } else {
      GrepAsPattern();
    }
  }

  /** `--grep --bail --bail`: the bail flag is lost, because the pattern looks like one. */
  lemma BailAsPattern()
    ensures var fs := ["--grep", "--bail", "--bail"];
            && OnlyPattern(fs, "--bail") && Items(fs) == [Grep(Some("--bail")), Bail]
            && Dedupe(fs) == ["--grep", "--bail"]
            && Render(Intended(Items(fs), false)) == fs
  {
    var fs := ["--grep", "--bail", "--bail"];
    assert fs[2..] == ["--bail"] && ["--bail"][1..] == [];
    assert Items(["--bail"]) == [Bail];
    assert Items(fs) == [Grep(Some("--bail")), Bail];
    RenderItems(fs);
    assert [Grep(Some("--bail")), Bail][1..] == [Bail];
    assert Intended([Bail], false) == [Bail];
    assert fs[0..] == fs;
    DedupeUnfold(fs, 0, []);
    assert CutLastGrep([]) + ["--grep", "--bail"] == ["--grep", "--bail"];
    DedupeUnfold(fs, 2, ["--grep", "--bail"]);
  }

  /** `--grep --grep --grep --grep`: the second splice removes the first pattern instead of the first flag. */
  lemma GrepAsPattern()
    ensures var fs := ["--grep", "--grep", "--grep", "--grep"];
            && OnlyPattern(fs, "--grep")
            && |Dedupe(fs)| == 3
            && Render(Intended(Items(fs), false)) == ["--grep", "--grep"]
  {
    var fs := ["--grep", "--grep", "--grep", "--grep"];
    var two := ["--grep", "--grep"];
    assert fs[2..] == two && two[2..] == [];
    assert Items(two) == [Grep(Some("--grep"))];
    assert Items(fs) == [Grep(Some("--grep")), Grep(Some("--grep"))];
    var g := Grep(Some("--grep"));
    assert [g, g][1..] == [g] && [g][1..] == [];
    assert Intended([g], false) == [g];
    assert Intended([g, g], false) == [g];
    assert Render([g]) == two + Render([]) == two;
    assert fs[0..] == fs;
    DedupeUnfold(fs, 0, []);
    assert CutLastGrep([]) + two == two;
    DedupeUnfold(fs, 2, two);
    assert CutLastGrep(two) == ["--grep"];
    assert fs[4..] == [];
  }

  // ------------------------------------------------------- what is preserved

  lemma {:induction false} IntendedKeepsOthers(xs: seq<Item>, seen: bool)
    ensures Others(Intended(xs, seen)) == Others(xs)
  {
    if xs == [] {
    } else {
      var seen' := seen || xs[0].Bail?;
      IntendedKeepsOthers(xs[1..], seen');
      OthersConcat(Kept(xs[0], xs[1..], seen), Intended(xs[1..], seen'));
      assert Others([xs[0]]) == if xs[0].Other? then [xs[0]] else [] by { assert [xs[0]][1..] == []; }
    }
  }

  lemma {:induction false} IntendedKeepsPattern(xs: seq<Item>, seen: bool)
    ensures Pattern(Intended(xs, seen)) == Pattern(xs)
  {
    if xs == [] {
    } else {
      var seen' := seen || xs[0].Bail?;
      var kept, r := Kept(xs[0], xs[1..], seen), Intended(xs[1..], seen');
      IntendedKeepsPattern(xs[1..], seen');
      IntendedGreps(xs[1..], seen');
      assert [xs[0]] + xs[1..] == xs;
      PatternConcat([xs[0]], xs[1..]);
      PatternConcat(kept, r);
      assert Pattern([xs[0]]) == if xs[0].Grep? then Some(xs[0]) else None by { assert [xs[0]][..0] == []; }
    }
  }

  lemma {:induction false} IntendedIdempotent(xs: seq<Item>, seen: bool)
    ensures Intended(Intended(xs, seen), seen) == Intended(xs, seen)
  {
    if xs == [] {
    } else {
      var seen' := seen || xs[0].Bail?;
      var kept, r := Kept(xs[0], xs[1..], seen), Intended(xs[1..], seen');
      IntendedIdempotent(xs[1..], seen');
      IntendedGreps(xs[1..], seen');
      if kept == [] {
        assert [] + r == r;
      } else {
        assert ([xs[0]] + r)[1..] == r;
        assert Kept(xs[0], r, seen) == [xs[0]];
      }
    }
  }

  /** The options of some flag list: only the last can lack its pattern. */
  predicate Readable(xs: seq<Item>) {
    xs == [] ||
    ((xs[0] == Grep(None) ==> |xs| == 1) && (xs[0].Other? ==> !Reserved(xs[0].flag)) && Readable(xs[1..]))
  }

  lemma {:induction false} ItemsReadable(fs: seq<string>)
    ensures Readable(Items(fs))
    decreases |fs|
  {
    if fs == [] {
    } else {
      ItemsUnfold(fs);
      var n := |RenderItem(Items(fs)[0])|;
      ItemsReadable(fs[n..]);
      assert Items(fs)[1..] == Items(fs[n..]);
    }
  }

  lemma ItemsCons(x: Item, ws: seq<string>)
    requires x == Grep(None) ==> ws == []
    requires x.Other? ==> !Reserved(x.flag)
    ensures Items(RenderItem(x) + ws) == [x] + Items(ws)
  {
    var fs := RenderItem(x) + ws;
    assert fs[|RenderItem(x)|..] == ws;
  }

  lemma {:induction false} ItemsOfRender(xs: seq<Item>)
    requires Readable(xs)
    ensures Items(Render(xs)) == xs
  {
    if xs == [] {
    } else {
      ItemsOfRender(xs[1..]);
      ItemsCons(xs[0], Render(xs[1..]));
      assert [xs[0]] + xs[1..] == xs;
    }
  }

  lemma {:induction false} IntendedReadable(xs: seq<Item>, seen: bool)
    requires Readable(xs)
    ensures Readable(Intended(xs, seen))
  {
    if xs == [] {
    } else {
      var r := Intended(xs[1..], seen || xs[0].Bail?);
      IntendedReadable(xs[1..], seen || xs[0].Bail?);
      assert xs[0] == Grep(None) ==> xs[1..] == [] && r == [];
      assert ([xs[0]] + r)[1..] == r && [] + r == r;
    }
  }

  /** The flags that come out are read as the intended options. */
  lemma ItemsOfDedupe(fs: seq<string>)
    requires PatternsOk(Items(fs))
    ensures Items(Dedupe(fs)) == Intended(Items(fs), false)
  {
    DedupeIsIntended(fs);
    ItemsReadable(fs);
    IntendedReadable(Items(fs), false);
    ItemsOfRender(Intended(Items(fs), false));
  }

  lemma PatternsOkMeans(xs: seq<Item>)
    requires PatternsOk(xs)
    ensures OthersOk(xs) && Grep(Some("--bail")) !in xs && Grep(Some("--grep")) !in xs
  {
  }

  /**
    Flag rewriting keeps meaning: `--bail` is set iff it was given, the pattern in force is the
    last one given, other flags keep their order, at most one `--grep` and one `--bail` remain,
    the runner's own `includes('--bail')` test agrees, and rewriting again changes nothing.
   */
  lemma DedupeKeepsMeaning(fs: seq<string>)
    requires PatternsOk(Items(fs))
    ensures var before, after := Items(fs), Items(Dedupe(fs));
            && (Bail in after <==> Bail in before)
            && ("--bail" in Dedupe(fs) <==> Bail in before)
            && Pattern(after) == Pattern(before)
            && Others(after) == Others(before)
            && GrepCount(after) <= 1 && multiset(after)[Bail] <= 1
    ensures Dedupe(Dedupe(fs)) == Dedupe(fs)
  {
    hide Items, Dedupe, Render, Intended, Pattern, Others, GrepCount, PatternsOk;
    var xs := Items(fs);
    ItemsOfDedupe(fs);
    DedupeIsIntended(fs);
    IntendedKeepsKinds(xs, false);
    IntendedKeepsPattern(xs, false);
    IntendedKeepsOthers(xs, false);
    IntendedGreps(xs, false);
    IntendedOneBail(xs, false);
    PatternsOkMeans(Intended(xs, false));
    RenderHasBail(Intended(xs, false));
    IntendedIdempotent(xs, false);
    DedupeIsIntended(Dedupe(fs));
  }

  lemma {:induction false} IntendedOneBail(xs: seq<Item>, seen: bool)
    ensures multiset(Intended(xs, seen))[Bail] <= if seen then 0 else 1
  {
    if xs == [] {
    } else {
      IntendedOneBail(xs[1..], seen || xs[0].Bail?);
      var r := Intended(xs[1..], seen || xs[0].Bail?);
      assert multiset([xs[0]] + r) == multiset{xs[0]} + multiset(r);
      assert [] + r == r;
    }
  }
}
