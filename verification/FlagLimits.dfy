/** Exactly which flag lists the rewriting keeps the meaning of, reserved patterns included. */
module FlagLimits {
  import opened Text
  import opened Flags

  function NoBails(xs: seq<Item>): seq<Item> {
    if xs == [] then [] else (if xs[0].Bail? then [] else [xs[0]]) + NoBails(xs[1..])
  }

  /** Some `--bail` is read while the pattern in force is not `--bail`; `muted` says whether it is at the start. */
  predicate BailHeard(xs: seq<Item>, muted: bool) {
    xs != [] &&
    match xs[0]
    case Bail => !muted || BailHeard(xs[1..], muted)
    case Grep(_) => BailHeard(xs[1..], xs[0] == Grep(Some("--bail")))
    case Other(_) => BailHeard(xs[1..], muted)
  }

  /**
    The rewritten flags are read as the last `--grep` where it stood among the other flags, all of
    those in order, and `--bail` iff it was given; and the runner's own `includes('--bail')` test
    says the same.
   */
  predicate Faithful(fs: seq<string>) {
    var before, after := Items(fs), Items(Dedupe(fs));
    && NoBails(after) == NoBails(Intended(before, false))
    && (Bail in after <==> Bail in before)
    && ("--bail" in Dedupe(fs) <==> Bail in before)
  }

  /**
    Only the last pattern may be `--grep`; some `--bail`, if there is any, is not muted by a pattern
    `--bail`; and such a pattern is in force at the end only if `--bail` was given too.
   */
  predicate Harmless(xs: seq<Item>) {
    && OnlyLastNamesGrep(xs)
    && (Bail in xs ==> BailHeard(xs, false))
    && (Pattern(xs) == Some(Grep(Some("--bail"))) ==> Bail in xs)
  }

  // -------------------------------------------------- what is kept, and where

  lemma {:induction false} NoBailsConcat(xs: seq<Item>, ys: seq<Item>)
    ensures NoBails(xs + ys) == NoBails(xs) + NoBails(ys)
  {
    if xs == [] {
      assert xs + ys == ys;
    } else {
      NoBailsConcat(xs[1..], ys);
      assert (xs + ys)[0] == xs[0] && (xs + ys)[1..] == xs[1..] + ys;
      Associative(if xs[0].Bail? then [] else [xs[0]], NoBails(xs[1..]), NoBails(ys));
    }
  }

  lemma NoBailsOne(x: Item)
    ensures NoBails([]) == [] && NoBails([x]) == if x.Bail? then [] else [x]
  {
    assert [x][1..] == [];
  }

  lemma ReadsNoBails(kept: seq<Item>, x: Item, rest: seq<Item>, seen: bool)
    ensures var drop := GrepCount(rest) > 0;
            NoBails(DropIf(Reads(kept, x), drop)) == NoBails(DropIf(kept, drop || x.Grep?)) + NoBails(Kept(x, rest, seen))
  {
    hide NoBails, DropGreps, GrepCount;
    var drop := GrepCount(rest) > 0;
    DropIfSnoc(kept, x, drop);
    DropIfSnoc(DropGreps(kept), x, drop);
    NoBailsConcat(DropIf(kept, drop), DropIf([x], drop));
    NoBailsConcat(DropGreps(kept), DropIf([x], drop));
    NoBailsOne(x);
    assert NoBails(DropIf(kept, drop)) + [] == NoBails(DropIf(kept, drop));
  }

  lemma {:induction false} LeftNoBails(xs: seq<Item>, kept: seq<Item>, seen: bool)
    ensures NoBails(Left(xs, kept)) == NoBails(DropIf(kept, GrepCount(xs) > 0)) + NoBails(Intended(xs, seen))
    decreases |xs|
  {
    if xs == [] {
      assert NoBails(kept) + [] == NoBails(kept);
    } else {
      hide DropIf, Kept, Reads, NoBails;
      var x, rest := xs[0], xs[1..];
      var seen' := seen || x.Bail?;
      ReadsNoBails(kept, x, rest, seen);
      LeftNoBails(rest, Reads(kept, x), seen');
      NoBailsConcat(Kept(x, rest, seen), Intended(rest, seen'));
      Associative(NoBails(DropIf(kept, GrepCount(xs) > 0)), NoBails(Kept(x, rest, seen)), NoBails(Intended(rest, seen')));
    }
  }

  lemma {:induction false} LeftHasBail(xs: seq<Item>, kept: seq<Item>)
    ensures Bail in Left(xs, kept) <==> Bail in kept || BailHeard(xs, Grep(Some("--bail")) in kept)
    decreases |xs|
  {
    if xs == [] {
    } else {
      DropGrepsFacts(kept);
      LeftHasBail(xs[1..], Reads(kept, xs[0]));
    }
  }

  lemma {:induction false} HeardMeansGiven(xs: seq<Item>, muted: bool)
    requires BailHeard(xs, muted)
    ensures Bail in xs
  {
    if !xs[0].Bail? {
      HeardMeansGiven(xs[1..], if xs[0].Grep? then xs[0] == Grep(Some("--bail")) else muted);
    }
  }

  lemma ReadableSnoc(kept: seq<Item>, x: Item)
    requires OthersOk(kept) && PatternsGiven(kept) && (x.Other? ==> !Reserved(x.flag))
    ensures Readable(kept + [x])
  {
    if kept != [] {
      assert kept[0] in kept;
      assert forall y :: y in kept[1..] ==> y in kept;
      ReadableSnoc(kept[1..], x);
      assert (kept + [x])[1..] == kept[1..] + [x];
    } else {
      assert [x][1..] == [];
    }
  }

  lemma {:induction false} ReadableAll(kept: seq<Item>)
    requires OthersOk(kept) && PatternsGiven(kept)
    ensures Readable(kept)
  {
    if kept == [] {
    } else {
      assert kept[0] in kept;
      assert forall y :: y in kept[1..] ==> y in kept;
      ReadableAll(kept[1..]);
    }
  }

  lemma {:induction false} LeftReadable(xs: seq<Item>, kept: seq<Item>)
    requires Readable(xs) && OthersOk(kept) && PatternsGiven(kept)
    ensures Readable(Left(xs, kept))
    decreases |xs|
  {
    DropGrepsFacts(kept);
    if xs == [] {
      ReadableAll(kept);
    } else if xs[0] == Grep(None) {
      assert xs[1..] == [];
      ReadableSnoc(DropGreps(kept), xs[0]);
    } else {
      LeftReadable(xs[1..], Reads(kept, xs[0]));
    }
  }

  // ------------------------------------------------- counting the word --grep

  function Times(ws: seq<string>): nat {
    multiset(ws)["--grep"]
  }

  /** How many patterns are `--grep`. */
  function Names(xs: seq<Item>): nat {
    if xs == [] then 0 else (if xs[0] == Grep(Some("--grep")) then 1 else 0) + Names(xs[1..])
  }

  lemma {:induction false} LastIndexIsLast(xs: seq<string>, x: string)
    ensures LastIndex(xs, x) == -1 ==> x !in xs
    ensures LastIndex(xs, x) >= 0 ==> x !in xs[LastIndex(xs, x) + 1..]
  {
    if xs != [] && xs[|xs| - 1] != x {
      var n := |xs| - 1;
      LastIndexIsLast(xs[..n], x);
      var p := LastIndex(xs, x);
      assert xs == xs[..n] + [xs[n]];
      if p >= 0 { assert xs[p + 1..] == xs[..n][p + 1..] + [xs[n]]; }
    }
  }

  lemma TimesOfParts(a: seq<string>, b: seq<string>)
    ensures Times(a + b) == Times(a) + Times(b)
  {
  }

  /** The splice removes one `--grep`, if there is one, and nothing else of that name. */
  lemma CutTimes(out: seq<string>)
    ensures Times(CutLastGrep(out)) == if Times(out) > 0 then Times(out) - 1 else 0
  {
    var p := LastIndex(out, "--grep");
    LastIndexIsLast(out, "--grep");
    if p >= 0 {
      var tail := out[p + 1..];
      assert out == out[..p] + ["--grep"] + tail;
      TimesOfParts(out[..p] + ["--grep"], tail);
      TimesOfParts(out[..p], ["--grep"]);
      assert Times(tail) == 0;
      if p + 2 <= |out| {
        assert tail == [tail[0]] + out[p + 2..];
        TimesOfParts([tail[0]], out[p + 2..]);
        TimesOfParts(out[..p], out[p + 2..]);
      } else {
        assert out[..p] + [] == out[..p];
      }
    }
  }

  lemma TimesPushed(out: seq<string>, w: string)
    ensures Times(out + [w]) == Times(out) + if w == "--grep" then 1 else 0
  {
    TimesOfParts(out, [w]);
  }

  /** One turn of the rewriting loop, on words. */
  function Push(out: seq<string>, x: Item): seq<string> {
    match x
    case Bail => if "--bail" in out then out else out + ["--bail"]
    case Grep(Some(p)) => (CutLastGrep(out) + ["--grep"]) + [p]
    case Grep(None) => CutLastGrep(out) + ["--grep"]
    case Other(f) => out + [f]
  }

  lemma DedupeTurn(fs: seq<string>, out: seq<string>)
    requires fs != []
    ensures var x := Items(fs)[0];
            |RenderItem(x)| <= |fs| && DedupeFrom(fs, out) == DedupeFrom(fs[|RenderItem(x)|..], Push(out, x))
    ensures Items(fs)[0].Other? ==> !Reserved(Items(fs)[0].flag)
  {
    ItemsUnfold(fs);
    if fs[0] == "--grep" && |fs| > 1 {
      assert (CutLastGrep(out) + ["--grep"]) + [fs[1]] == CutLastGrep(out) + ["--grep", fs[1]];
    }
  }

  function NamesIt(x: Item): nat {
    if x == Grep(Some("--grep")) then 1 else 0
  }

  function OneLess(m: nat): nat {
    if m > 0 then m - 1 else 0
  }

  lemma PushTimes(out: seq<string>, x: Item)
    requires x.Other? ==> !Reserved(x.flag)
    ensures Times(Push(out, x)) == if x.Grep? then OneLess(Times(out)) + 1 + NamesIt(x) else Times(out)
  {
    hide CutLastGrep;
    match x
    case Bail => TimesPushed(out, "--bail");
    case Other(f) => TimesPushed(out, f);
    case Grep(pattern) =>
      CutTimes(out);
      TimesPushed(CutLastGrep(out), "--grep");
      if pattern.Some? { TimesPushed(CutLastGrep(out) + ["--grep"], pattern.value); }
  }

  lemma {:induction false} NamelessIsFine(xs: seq<Item>)
    requires GrepCount(xs) == 0
    ensures OnlyLastNamesGrep(xs) && Names(xs) == 0
  {
    if xs == [] {
    } else {
      NamelessIsFine(xs[1..]);
    }
  }

  lemma CountsCons(x: Item, rest: seq<Item>)
    ensures GrepCount([x] + rest) == (if x.Grep? then 1 else 0) + GrepCount(rest)
    ensures Names([x] + rest) == NamesIt(x) + Names(rest)
  {
    assert ([x] + rest)[1..] == rest;
  }

  /** What is left holds the word once for the flag and once for every pattern that was ever `--grep`. */
  lemma {:induction false} DedupeTimes(fs: seq<string>, out: seq<string>)
    ensures var xs := Items(fs);
            Times(DedupeFrom(fs, out)) ==
            if GrepCount(xs) == 0 then Times(out) else OneLess(Times(out)) + 1 + Names(xs)
    decreases |fs|
  {
    if fs == [] {
    } else {
      hide Times, Push, DedupeFrom, Items, GrepCount, Names;
      var x, rest := Items(fs)[0], fs[|RenderItem(Items(fs)[0])|..];
      ItemsUnfold(fs);
      CountsCons(x, Items(rest));
      DedupeTurn(fs, out);
      PushTimes(out, x);
      DedupeTimes(rest, Push(out, x));
      if GrepCount(Items(rest)) == 0 { NamelessIsFine(Items(rest)); }
    }
  }

  lemma ItemTimes(x: Item)
    requires x.Other? ==> !Reserved(x.flag)
    ensures Times(RenderItem(x)) == (if x.Grep? then 1 else 0) + NamesIt(x)
  {
    match x
    case Grep(Some(p)) =>
      assert RenderItem(x) == ["--grep"] + [p];
      TimesPushed(["--grep"], p);
    case _ =>
  }

  lemma {:induction false} RenderTimes(xs: seq<Item>)
    requires OthersOk(xs)
    ensures Times(Render(xs)) == GrepCount(xs) + Names(xs)
  {
    if xs == [] {
    } else {
      hide Times, RenderItem;
      assert xs[0] in xs && forall y :: y in xs[1..] ==> y in xs;
      RenderTimes(xs[1..]);
      ItemTimes(xs[0]);
      TimesOfParts(RenderItem(xs[0]), Render(xs[1..]));
    }
  }

  lemma {:induction false} NoBailsCounts(xs: seq<Item>)
    ensures GrepCount(NoBails(xs)) == GrepCount(xs) && Names(NoBails(xs)) == Names(xs)
  {
    if xs == [] {
    } else {
      NoBailsCounts(xs[1..]);
      assert ([xs[0]] + NoBails(xs[1..]))[1..] == NoBails(xs[1..]);
      assert [] + NoBails(xs[1..]) == NoBails(xs[1..]);
    }
  }

  /** The intended options name `--grep` as often as the given ones exactly when only the last pattern may. */
  lemma {:induction false} IntendedNames(xs: seq<Item>, seen: bool)
    ensures Names(Intended(xs, seen)) <= Names(xs)
    ensures Names(Intended(xs, seen)) == Names(xs) <==> OnlyLastNamesGrep(xs)
  {
    if xs == [] {
    } else {
      var rest := Intended(xs[1..], seen || xs[0].Bail?);
      IntendedNames(xs[1..], seen || xs[0].Bail?);
      assert ([xs[0]] + rest)[1..] == rest && [] + rest == rest;
    }
  }

  lemma {:induction false} ReadableOthersOk(xs: seq<Item>)
    requires Readable(xs)
    ensures OthersOk(xs)
  {
    if xs == [] {
    } else {
      ReadableOthersOk(xs[1..]);
      assert xs == [xs[0]] + xs[1..];
    }
  }

  lemma FaithfulNamesOnce(fs: seq<string>)
    requires NoBails(Items(Dedupe(fs))) == NoBails(Intended(Items(fs), false))
    ensures OnlyLastNamesGrep(Items(fs))
  {
    hide Items, Dedupe, DedupeFrom, Intended, NoBails, Render, OnlyLastNamesGrep, Readable;
    var xs, ys := Items(fs), Items(Dedupe(fs));
    if GrepCount(xs) == 0 {
      NamelessIsFine(xs);
    } else {
      RenderItems(Dedupe(fs));
      ItemsReadable(Dedupe(fs));
      ReadableOthersOk(ys);
      RenderTimes(ys);
      NoBailsCounts(ys);
      NoBailsCounts(Intended(xs, false));
      IntendedGreps(xs, false);
      IntendedNames(xs, false);
      DedupeStarts(fs);
    }
  }

  lemma DedupeStarts(fs: seq<string>)
    requires GrepCount(Items(fs)) > 0
    ensures Times(Dedupe(fs)) == 1 + Names(Items(fs))
  {
    DedupeTimes(fs, []);
  }

  lemma ReadAsLeft(fs: seq<string>)
    requires OnlyLastNamesGrep(Items(fs))
    ensures Items(Dedupe(fs)) == Left(Items(fs), [])
  {
    DedupeIsLeft(fs);
    ItemsReadable(fs);
    LeftReadable(Items(fs), []);
    ItemsOfRender(Left(Items(fs), []));
  }

  lemma {:induction false} LeftHasPattern(xs: seq<Item>, kept: seq<Item>, x: Item)
    requires x.Grep?
    ensures x in Left(xs, kept) <==> if GrepCount(xs) > 0 then Pattern(xs) == Some(x) else x in kept
    decreases |xs|
  {
    if xs == [] {
    } else {
      var h, rest := xs[0], xs[1..];
      DropGrepsFacts(kept);
      LeftHasPattern(rest, Reads(kept, h), x);
      PatternConcat([h], rest);
      assert [h] + rest == xs && [h][..0] == [] && [h][1..] == [];
    }
  }

  /** The word `--bail` is left iff a `--bail` was heard, or the pattern in force at the end is that word. */
  lemma BailWordLeft(fs: seq<string>)
    requires OnlyLastNamesGrep(Items(fs))
    ensures "--bail" in Dedupe(fs) <==>
            BailHeard(Items(fs), false) || Pattern(Items(fs)) == Some(Grep(Some("--bail")))
  {
    hide Left, BailHeard, Items, Render, Dedupe, OnlyLastNamesGrep;
    var xs := Items(fs);
    DedupeIsLeft(fs);
    ItemsReadable(fs);
    LeftReadable(xs, []);
    ReadableOthersOk(Left(xs, []));
    RenderHasBail(Left(xs, []));
    LeftHasBail(xs, []);
    LeftHasPattern(xs, [], Grep(Some("--bail")));
    if GrepCount(xs) == 0 { NoPattern(xs); }
  }

  lemma {:induction false} NoPattern(xs: seq<Item>)
    requires GrepCount(xs) == 0
    ensures Pattern(xs) == None
  {
    if xs == [] {
    } else {
      var n := |xs| - 1;
      GrepCountConcat(xs[..n], [xs[n]]);
      assert xs[..n] + [xs[n]] == xs && [xs[n]][1..] == [];
      NoPattern(xs[..n]);
    }
  }

  /**
    For every flag list whatever its patterns: the rewriting keeps its meaning exactly when no
    pattern but the last is `--grep`; `--bail`, if given, is given at least once while the pattern in
    force is not `--bail`; and the last pattern is not `--bail` unless that flag was given too.
   */
  lemma DedupeFaithfulExactly(fs: seq<string>)
    ensures Faithful(fs) <==> Harmless(Items(fs))
  {
    var xs := Items(fs);
    if OnlyLastNamesGrep(xs) {
      hide Items, Dedupe, Left, BailHeard, Pattern, Intended, OnlyLastNamesGrep;
      ReadAsLeft(fs);
      LeftNoBails(xs, [], false);
      LeftHasBail(xs, []);
      BailWordLeft(fs);
      if BailHeard(xs, false) { HeardMeansGiven(xs, false); }
      assert DropIf([], GrepCount(xs) > 0) == [] && NoBails([]) == [];
      assert [] + NoBails(Intended(xs, false)) == NoBails(Intended(xs, false));
    } else if Faithful(fs) {
      FaithfulNamesOnce(fs);
    }
  }

  /** `--grep --bail`: the runner takes the pattern for the flag and bails although no `--bail` was given. */
  lemma PatternTakenForBail()
    ensures var fs := ["--grep", "--bail"];
            && Items(fs) == [Grep(Some("--bail"))] && "--bail" in Dedupe(fs)
            && OnlyLastNamesGrep(Items(fs)) && !Harmless(Items(fs)) && !Faithful(fs)
  {
    var fs, x := ["--grep", "--bail"], Grep(Some("--bail"));
    assert fs[2..] == [];
    assert Items(fs) == [x] + Items([]) == [x];
    assert [x][1..] == [] && [x][..0] == [];
    assert OnlyLastNamesGrep([x]) && Pattern([x]) == Some(x);
    BailWordLeft(fs);
    DedupeFaithfulExactly(fs);
  }
}
