/** Reading a package script, and the command line the runner builds for each child. */
module ScriptCommand {
  import opened Text
  import opened Tokeniser
  import opened Flags
  import Shell

  /**
    `Crashed` is the TypeError raised when an argument in flag position is undefined.  A pattern
    that is undefined is written as the empty string, which `join` and comparison treat alike.
   */
  datatype Script = Parsed(globs: seq<string>, flags: seq<string>) | NotHardhatTest | Crashed

  function IndexFrom(ws: seq<Word>, w: Word, from: nat): (p: int)
    requires from <= |ws|
    ensures p == -1 || (from <= p < |ws| && ws[p] == w)
    ensures p == -1 ==> forall k :: from <= k < |ws| ==> ws[k] != w
    ensures p != -1 ==> forall k :: from <= k < p ==> ws[k] != w
    decreases |ws| - from
  {
    if from == |ws| then -1 else if ws[from] == w then from else IndexFrom(ws, w, from + 1)
  }

  /** `tokens.indexOf('test', hardhatIdx)`: a start of -1 means the last token. */
  function TestIndex(ws: seq<Word>): (p: int)
    ensures -1 <= p < |ws|
  {
    var hardhat := IndexFrom(ws, Some("hardhat"), 0);
    IndexFrom(ws, Some("test"), if hardhat >= 0 then hardhat else if ws == [] then 0 else |ws| - 1)
  }

  predicate StartsWithDash(s: string) {
    s != "" && s[0] == '-'
  }

  function TextOf(w: Word): string {
    if w.Some? then w.value else ""
  }

  function Prepend(globs: seq<string>, flags: seq<string>, rest: Script): Script {
    if rest.Parsed? then Parsed(globs + rest.globs, flags + rest.flags) else rest
  }

  function SplitArgs(args: seq<Word>): Script
    decreases |args|
  {
    if args == [] then Parsed([], [])
    else if args[0].None? then Crashed
    else
      var a := args[0].value;
      if !StartsWithDash(a) then Prepend([a], [], SplitArgs(args[1..]))
      else if a == "--grep" && |args| > 1 then Prepend([], [a, TextOf(args[1])], SplitArgs(args[2..]))
      else Prepend([], [a], SplitArgs(args[1..]))
  }

  function Parse(ws: seq<Word>): Script {
    var testIdx := TestIndex(ws);
    if testIdx == -1 then NotHardhatTest else SplitArgs(ws[testIdx + 1..])
  }

  /** One turn of the splitting loop, after `globs` and `flags` have been collected. */
  lemma SplitStep(args: seq<Word>, i: nat, globs: seq<string>, flags: seq<string>)
    requires i < |args| && args[i].Some?
    ensures var a := args[i].value;
            Prepend(globs, flags, SplitArgs(args[i..])) ==
            if !StartsWithDash(a) then Prepend(globs + [a], flags, SplitArgs(args[i + 1..]))
            else if a == "--grep" && i + 1 < |args| then
              Prepend(globs, flags + [a, TextOf(args[i + 1])], SplitArgs(args[i + 2..]))
            else Prepend(globs, flags + [a], SplitArgs(args[i + 1..]))
  {
    var rest, a := args[i..], args[i].value;
    assert rest[0] == args[i] && rest[1..] == args[i + 1..];
    if !StartsWithDash(a) {
      PrependTwice(globs, flags, [a], [], SplitArgs(rest[1..]));
    } else if a == "--grep" && i + 1 < |args| {
      assert rest[1] == args[i + 1] && rest[2..] == args[i + 2..];
      PrependTwice(globs, flags, [], [a, TextOf(args[i + 1])], SplitArgs(rest[2..]));
    } else {
      PrependTwice(globs, flags, [], [a], SplitArgs(rest[1..]));
    }
  }

  lemma PrependTwice(g: seq<string>, f: seq<string>, g': seq<string>, f': seq<string>, rest: Script)
    ensures Prepend(g, f, Prepend(g', f', rest)) == Prepend(g + g', f + f', rest)
    ensures f + [] == f && g + [] == g
  {
  }

  method ParseHardhatScript(scriptCmd: string) returns (r: Script)
    ensures r == Parse(Tokens(scriptCmd))
  {
    var tokens := Tokenise(scriptCmd);
    var testIdx := TestIndex(tokens);
    if testIdx == -1 { return NotHardhatTest; }
    r := SplitLoop(tokens[testIdx + 1..]);
  }

  method SplitLoop(args: seq<Word>) returns (r: Script)
    ensures r == SplitArgs(args)
  {
    var globs: seq<string>, flags: seq<string> := [], [];
    var i := 0;
    assert args[0..] == args;
    while i < |args|
      invariant i <= |args|
      invariant Prepend(globs, flags, SplitArgs(args[i..])) == SplitArgs(args)
    {
      if args[i].None? { return Crashed; }
      SplitStep(args, i, globs, flags);
      var a := args[i].value;
      if StartsWithDash(a) {
        flags := flags + [a];
        if a == "--grep" && i + 1 < |args| {
          i := i + 1;
          assert (flags[..|flags| - 1] + [a]) + [TextOf(args[i])] == flags[..|flags| - 1] + [a, TextOf(args[i])];
          flags := flags + [TextOf(args[i])];
        }
      } else {
        globs := globs + [a];
      }
      i := i + 1;
    }
    r := Parsed(globs, flags);
  }

  /**
    What the parser takes for a hardhat test script: a `test` token anywhere after the first
    `hardhat`, or, with no `hardhat` at all, `test` as the very last token.
   */
  lemma AcceptedExactly(ws: seq<Word>)
    ensures Parse(ws) != NotHardhatTest <==>
            if Some("hardhat") in ws then exists i, j :: 0 <= i < j < |ws| && ws[i] == Some("hardhat") && ws[j] == Some("test")
            else ws != [] && ws[|ws| - 1] == Some("test")
  {
    if TestIndex(ws) != -1 {
      SplitNeverNot(ws[TestIndex(ws) + 1..]);
    }
  }

  lemma {:induction false} SplitNeverNot(args: seq<Word>)
    ensures SplitArgs(args) != NotHardhatTest
    decreases |args|
  {
    if args != [] && args[0].Some? {
      SplitNeverNot(args[1..]);
      if |args| > 1 { SplitNeverNot(args[2..]); }
    }
  }

  /** A script of another tool that ends in `test` is accepted and yields nothing to run. */
  lemma OtherToolAccepted()
    ensures Parse([Some("mocha"), Some("test")]) == Parsed([], [])
  {
    var ws := [Some("mocha"), Some("test")];
    assert ws[2..] == [];
  }

  /** Argument `i` is taken as the pattern of the `--grep` before it. */
  predicate TakenAsPattern(args: seq<Word>, i: nat)
    requires i < |args|
  {
    i > 0 && args[i - 1] == Some("--grep") && !TakenAsPattern(args, i - 1)
  }

  lemma {:induction false} TakenShift(args: seq<Word>, n: nat, i: nat)
    requires n + i < |args| && !TakenAsPattern(args, n)
    ensures TakenAsPattern(args, n + i) == TakenAsPattern(args[n..], i)
  {
    if i == 0 {
    } else {
      TakenShift(args, n, i - 1);
    }
  }

  ghost predicate UndefinedFlag(args: seq<Word>) {
    exists i :: 0 <= i < |args| && args[i] == None && !TakenAsPattern(args, i)
  }

  lemma UndefinedFurtherOn(args: seq<Word>, n: nat)
    requires n <= |args| && (n < |args| ==> !TakenAsPattern(args, n))
    requires forall i :: 0 <= i < n ==> args[i] == None ==> TakenAsPattern(args, i)
    ensures UndefinedFlag(args) <==> UndefinedFlag(args[n..])
  {
    if i :| 0 <= i < |args| && args[i] == None && !TakenAsPattern(args, i) {
      assert i >= n;
      TakenShift(args, n, i - n);
      assert args[n..][i - n] == None;
    }
    if i :| 0 <= i < |args[n..]| && args[n..][i] == None && !TakenAsPattern(args[n..], i) {
      TakenShift(args, n, i);
      assert args[n + i] == None;
    }
  }

  lemma {:induction false} SplitCrashes(args: seq<Word>)
    ensures SplitArgs(args) == Crashed <==> UndefinedFlag(args)
    decreases |args|
  {
    if args == [] {
    } else if args[0] == None {
      assert !TakenAsPattern(args, 0);
    } else {
      var n := if args[0] == Some("--grep") && |args| > 1 then 2 else 1;
      assert n == 2 ==> TakenAsPattern(args, 1);
      UndefinedFurtherOn(args, n);
      SplitCrashes(args[n..]);
    }
  }

  /** The parser crashes exactly when some argument after `test`, not taken as a pattern, is an empty quoted token. */
  lemma CrashesExactly(ws: seq<Word>)
    ensures Parse(ws) == Crashed <==> TestIndex(ws) != -1 && UndefinedFlag(ws[TestIndex(ws) + 1..])
  {
    if TestIndex(ws) != -1 {
      SplitCrashes(ws[TestIndex(ws) + 1..]);
    }
  }

  /** `hardhat test ''` crashes; `hardhat test --grep ''` does not. */
  lemma EmptyArgumentCrashes()
    ensures Parse([Some("hardhat"), Some("test"), None]) == Crashed
    ensures Parse([Some("hardhat"), Some("test"), Some("--grep"), None]) == Parsed([], ["--grep", ""])
  {
    var a, b := [Some("hardhat"), Some("test"), None], [Some("hardhat"), Some("test"), Some("--grep"), None];
    assert a[2..] == [None] && b[2..] == [Some("--grep"), None];
    assert b[2..][2..] == [];
  }

  // --------------------------------------------------- the child's command

  /** Flags as the parser leaves them: each starts with a dash, or is the pattern of the `--grep` before it. */
  predicate FlagShaped(flags: seq<string>)
    decreases |flags|
  {
    flags == [] ||
    (StartsWithDash(flags[0]) &&
     if flags[0] == "--grep" && |flags| > 1 then FlagShaped(flags[2..]) else FlagShaped(flags[1..]))
  }

  predicate PlainFiles(files: seq<string>) {
    forall i :: 0 <= i < |files| ==> !StartsWithDash(files[i])
  }

  function ChildWords(files: seq<string>, flags: seq<string>): seq<string> {
    ["npx", "hardhat", "test"] + files + flags
  }

  /** A parsed script always yields plain file patterns and well-shaped flags. */
  lemma {:induction false} SplitShape(args: seq<Word>)
    requires SplitArgs(args).Parsed?
    ensures PlainFiles(SplitArgs(args).globs) && FlagShaped(SplitArgs(args).flags)
    decreases |args|
  {
    if args == [] {
    } else {
      var a := args[0].value;
      if !StartsWithDash(a) {
        SplitShape(args[1..]);
        assert SplitArgs(args).flags == SplitArgs(args[1..]).flags;
      } else if a == "--grep" && |args| > 1 {
        SplitShape(args[2..]);
        assert SplitArgs(args).globs == SplitArgs(args[2..]).globs;
        assert SplitArgs(args).flags[2..] == SplitArgs(args[2..]).flags;
      } else {
        SplitShape(args[1..]);
        assert SplitArgs(args).globs == SplitArgs(args[1..]).globs;
        assert SplitArgs(args).flags[1..] == SplitArgs(args[1..]).flags;
      }
    }
  }

  lemma {:induction false} SplitFlags(flags: seq<string>)
    requires FlagShaped(flags)
    ensures SplitArgs(Words(flags)) == Parsed([], flags)
    decreases |flags|
  {
    if flags == [] {
    } else {
      var n := if flags[0] == "--grep" && |flags| > 1 then 2 else 1;
      SplitFlags(flags[n..]);
      assert Words(flags)[0] == Some(flags[0]) && Words(flags)[n..] == Words(flags[n..]);
      PrependTwice([], [], [], flags[..n], Parsed([], flags[n..]));
      assert flags[..n] + flags[n..] == flags;
      assert flags[..n] == if n == 2 then [flags[0], flags[1]] else [flags[0]];
    }
  }

  lemma {:induction false} SplitFilesAndFlags(files: seq<string>, flags: seq<string>)
    requires PlainFiles(files) && FlagShaped(flags)
    ensures SplitArgs(Words(files + flags)) == Parsed(files, flags)
  {
    if files == [] {
      assert files + flags == flags;
      SplitFlags(flags);
    } else {
      SplitFilesAndFlags(files[1..], flags);
      assert Words(files + flags)[0] == Some(files[0]) && Words(files + flags)[1..] == Words(files[1..] + flags);
      PrependTwice([], [], [files[0]], [], Parsed(files[1..], flags));
      assert [files[0]] + files[1..] == files && [] + flags == flags;
    }
  }

  const CHILD_PREFIX := ["npx", "hardhat", "test"]

  lemma PrefixSafe()
    ensures Shell.ShellSafe(CHILD_PREFIX)
  {
    assert Shell.PlainWord(CHILD_PREFIX[0]) && Shell.PlainWord(CHILD_PREFIX[1]) && Shell.PlainWord(CHILD_PREFIX[2]);
  }

  /**
    The child is started by `sh -c` on the joined line.  For files and flags that the shell does not
    expand, it sees exactly the intended words iff none of them is empty or holds a blank, a quote
    or an operator.
   */
  lemma ChildCommandExact(files: seq<string>, flags: seq<string>)
    requires Shell.Literal(files + flags)
    ensures Shell.SplitLine(Join(ChildWords(files, flags))) == Shell.Words(ChildWords(files, flags)) <==>
            Shell.ShellSafe(files + flags)
  {
    assert ChildWords(files, flags) == CHILD_PREFIX + (files + flags);
    PrefixSafe();
    Shell.SplitReadsBack(ChildWords(files, flags));
  }

  /** An apostrophe in a pattern: harmless to the runner's own tokeniser, an error to `sh`. */
  lemma ApostropheBreaksChild(file: string)
    requires Shell.PlainWord(file) && !IsQuote(file[0]) && SpaceFree(file)
    ensures var words := [file, "--grep", "don't"];
            SafeToRejoin(words) && Shell.SplitLine(Join(words)) == Shell.Unclosed
  {
    hide Shell.SplitLine, Join;
    var pre, words := [file, "--grep"], [file, "--grep", "don't"];
    assert words == pre + ["don't"];
    Shell.SafePrefixSurvives(pre, ["don't"]);
    ApostropheUnclosed();
  }

  lemma ApostropheUnclosed()
    ensures Shell.SplitLine(Join(["don't"])) == Shell.Unclosed
  {
    assert Join(["don't"]) == "don" + "'t";
    Shell.ScanPlain("don", "'t", None);
    assert "'t"[1..] == "t" && "t"[1..] == "";
  }

  lemma {:induction false} FlagShapedByItems(fs: seq<string>)
    ensures FlagShaped(fs) <==> forall x :: x in Items(fs) && x.Other? ==> StartsWithDash(x.flag)
    decreases |fs|
  {
    if fs == [] {
    } else {
      ItemsUnfold(fs);
      var x := Items(fs)[0];
      var n := |RenderItem(x)|;
      FlagShapedByItems(fs[n..]);
      assert forall y :: y in Items(fs) <==> y == x || y in Items(fs[n..]);
    }
  }

  lemma {:induction false} OthersMembers(xs: seq<Item>, x: Item)
    ensures x in Others(xs) <==> x in xs && x.Other?
  {
    if xs == [] {
    } else {
      OthersMembers(xs[1..], x);
      assert xs == [xs[0]] + xs[1..];
    }
  }

  lemma DedupeKeepsShape(given: seq<string>)
    requires FlagShaped(given) && PatternsOk(Items(given))
    ensures FlagShaped(Dedupe(given))
  {
    FlagShapedByItems(given);
    FlagShapedByItems(Dedupe(given));
    DedupeKeepsMeaning(given);
    forall x | x in Items(Dedupe(given)) && x.Other?
      ensures StartsWithDash(x.flag)
    {
      OthersMembers(Items(Dedupe(given)), x);
      OthersMembers(Items(given), x);
    }
  }

  lemma {:induction false} WeightConcat(a: seq<string>, b: seq<string>)
    ensures Shell.Weight(a + b) == Shell.Weight(a) + Shell.Weight(b)
  {
    if a == [] {
      assert a + b == b;
    } else {
      assert (a + b)[0] == a[0] && (a + b)[1..] == a[1..] + b;
      WeightConcat(a[1..], b);
    }
  }

  /** What one turn of the splitting loop takes off the front. */
  lemma SplitTurn(ws: seq<string>)
    requires ws != [] && SplitArgs(Words(ws)).Parsed?
    ensures var r, n := SplitArgs(Words(ws)), if ws[0] == "--grep" && |ws| > 1 then 2 else 1;
            var rest := SplitArgs(Words(ws[n..]));
            && rest.Parsed?
            && r == if StartsWithDash(ws[0]) then Parsed(rest.globs, ws[..n] + rest.flags)
                    else Parsed(ws[..n] + rest.globs, rest.flags)
  {
    var n := if ws[0] == "--grep" && |ws| > 1 then 2 else 1;
    assert Words(ws)[n..] == Words(ws[n..]);
    var rest := SplitArgs(Words(ws[n..]));
    assert rest.Parsed? ==> [] + rest.globs == rest.globs && [] + rest.flags == rest.flags;
    assert ws[..n] == if n == 2 then [ws[0], ws[1]] else [ws[0]];
  }

  lemma {:induction false} WordsKept(ws: seq<string>)
    requires SplitArgs(Words(ws)).Parsed?
    ensures var r := SplitArgs(Words(ws));
            && Shell.Weight(r.globs) + Shell.Weight(r.flags) == Shell.Weight(ws)
            && forall w :: w in r.globs || w in r.flags ==> w in ws
    decreases |ws|
  {
    if ws == [] {
    } else {
      hide SplitArgs, Shell.Weight;
      var n := if ws[0] == "--grep" && |ws| > 1 then 2 else 1;
      var rest := SplitArgs(Words(ws[n..]));
      SplitTurn(ws);
      WordsKept(ws[n..]);
      assert ws == ws[..n] + ws[n..];
      WeightConcat(ws[..n], ws[n..]);
      WeightConcat(ws[..n], if StartsWithDash(ws[0]) then rest.flags else rest.globs);
    }
  }

  /** If what the shell hands over is read as these files and flags, they were safe. */
  lemma ReadBackMeansSafe(files: seq<string>, flags: seq<string>, ws: seq<string>)
    requires Shell.SplitLine(Join(files + flags)) == Shell.Words(ws)
    requires SplitArgs(Words(ws)) == Parsed(files, flags)
    ensures Shell.ShellSafe(files + flags)
  {
    WordsKept(ws);
    WeightConcat(files, flags);
    if files + flags != [] {
      Shell.JoinWeight(files + flags);
      Shell.ScanWeight(Join(files + flags), None, None);
      Shell.UnquotedWordsPlain(Join(files + flags), None);
    }
  }

  /** What the child's arguments are read as, if the line is one plain command. */
  function ChildReads(line: string): Option<Script> {
    match Shell.SplitLine(line)
    case Words(ws) => Some(Parse(Words(ws)))
    case _ => None
  }

  lemma ParseAfterPrefix(words: seq<string>)
    ensures Parse(Words(CHILD_PREFIX + words)) == SplitArgs(Words(words))
  {
    var ws := Words(CHILD_PREFIX + words);
    assert ws[0] == Some("npx") && ws[1] == Some("hardhat") && ws[2] == Some("test");
    assert TestIndex(ws) == 2;
    assert ws[3..] == Words(words);
  }

  lemma ChildReadsRest(files: seq<string>, flags: seq<string>)
    ensures ChildReads(Join(ChildWords(files, flags))) ==
            match Shell.SplitLine(Join(files + flags)) case Words(ws) => Some(SplitArgs(Words(ws))) case _ => None
  {
    hide Shell.SplitLine, Shell.ShellSafe, Parse, SplitArgs, Join;
    var split := Shell.SplitLine(Join(files + flags));
    assert ChildWords(files, flags) == CHILD_PREFIX + (files + flags);
    PrefixSafe();
    Shell.SafePrefixSurvives(CHILD_PREFIX, files + flags);
    if split.Words? { ParseAfterPrefix(split.words); }
  }

  /**
    From the package script and the command line to the child and back: the rewritten flags are
    still flags, and what the shell hands to the child for a file is read as that file and those
    flags, exactly when none of them is empty or holds a blank, a quote or an operator.
   */
  lemma ChildCommandParsesBack(files: seq<string>, given: seq<string>)
    requires PlainFiles(files) && FlagShaped(given) && PatternsOk(Items(given))
    requires Shell.Literal(files + Dedupe(given))
    ensures FlagShaped(Dedupe(given))
    ensures ChildReads(Join(ChildWords(files, Dedupe(given)))) == Some(Parsed(files, Dedupe(given))) <==>
            Shell.ShellSafe(files + Dedupe(given))
  {
    var flags := Dedupe(given);
    DedupeKeepsShape(given);
    ChildReadsRest(files, flags);
    if Shell.ShellSafe(files + flags) {
      Shell.SafeWordsSurvive(files + flags);
      SplitFilesAndFlags(files, flags);
    } else if ChildReads(Join(ChildWords(files, flags))) == Some(Parsed(files, flags)) {
      ReadBackMeansSafe(files, flags, Shell.SplitLine(Join(files + flags)).words);
    }
  }

  // ------------------------------------------------- the reading, on words

  /** After the first `hardhat` and the first `test` that follows it, the rest are the arguments. */
  lemma ArgumentsFollowTest(pre: seq<Word>, mid: seq<Word>, args: seq<Word>)
    requires Some("hardhat") !in pre && Some("test") !in mid
    ensures Parse(pre + [Some("hardhat")] + mid + [Some("test")] + args) == SplitArgs(args)
  {
    var ws, h, t := pre + [Some("hardhat")] + mid + [Some("test")] + args, |pre|, |pre| + 1 + |mid|;
    assert ws[h] == Some("hardhat") && forall k :: 0 <= k < h ==> ws[k] == pre[k];
    assert ws[t] == Some("test") && forall k :: h < k < t ==> ws[k] == mid[k - h - 1];
    assert IndexFrom(ws, Some("hardhat"), 0) == h;
    assert IndexFrom(ws, Some("test"), h) == t;
    assert ws[t + 1..] == args;
  }

  /** Without `hardhat`, a last word `test` leaves no arguments. */
  lemma LoneTestRunsNothing(pre: seq<Word>)
    requires Some("hardhat") !in pre
    ensures Parse(pre + [Some("test")]) == Parsed([], [])
  {
    var ws := pre + [Some("test")];
    assert IndexFrom(ws, Some("hardhat"), 0) == -1;
    assert ws[|pre| + 1..] == [];
  }

  /** Argument `i` is a flag: it starts with a dash, or is the pattern of the `--grep` before it. */
  predicate IsFlagWord(args: seq<Word>, i: nat)
    requires i < |args|
  {
    TakenAsPattern(args, i) || (args[i].Some? && args[i].value != "" && args[i].value[0] == '-')
  }

  /** The arguments from number `i` on that are flags, or that are not, in order. */
  function Pick(args: seq<Word>, flags: bool, i: nat): seq<string>
    requires i <= |args|
    decreases |args| - i
  {
    if i == |args| then []
    else
      (if IsFlagWord(args, i) == flags then [if args[i].Some? then args[i].value else ""] else []) + Pick(args, flags, i + 1)
  }

  lemma {:induction false} SplitPicks(args: seq<Word>, n: nat)
    requires n <= |args| && !UndefinedFlag(args) && (n < |args| ==> !TakenAsPattern(args, n))
    ensures SplitArgs(args[n..]) == Parsed(Pick(args, false, n), Pick(args, true, n))
    decreases |args| - n
  {
    if n < |args| {
      var rest := args[n..];
      assert rest[0] == args[n] && rest[1..] == args[n + 1..];
      assert args[n].Some?;
      var a := args[n].value;
      if StartsWithDash(a) && a == "--grep" && |rest| > 1 {
        assert rest[1] == args[n + 1] && rest[2..] == args[n + 2..];
        assert TakenAsPattern(args, n + 1);
        SplitPicks(args, n + 2);
        var more := Pick(args, true, n + 2);
        assert [a, TextOf(args[n + 1])] + more == [a] + ([TextOf(args[n + 1])] + more);
        assert Pick(args, true, n + 1) == [TextOf(args[n + 1])] + more;
      } else {
        assert n + 1 < |args| ==> !TakenAsPattern(args, n + 1);
        SplitPicks(args, n + 1);
      }
    }
  }

  /**
    Unless they crash the parser, the arguments are sorted into files and flags, each in order:
    flags are the words that start with a dash and the patterns, whatever these start with.
   */
  lemma SplitExactly(args: seq<Word>)
    requires !UndefinedFlag(args)
    ensures SplitArgs(args) == Parsed(Pick(args, false, 0), Pick(args, true, 0))
  {
    assert args[0..] == args;
    SplitPicks(args, 0);
  }
}
