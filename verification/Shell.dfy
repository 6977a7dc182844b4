/**
  How `sh -c` splits a command line into the words of one command, for lines without expansions:
  blanks separate, a quote may open anywhere in a word and must be closed, and an operator or a
  line end outside quotes means that the line is not one command.
 */
module Shell {
  import opened Text
  import opened Tokeniser

  predicate IsBlank(c: char) {
    c == ' ' || c == '\t'
  }

  predicate IsOperator(c: char) {
    c in "|&;<>()\n"
  }

  /** Characters of an argument that `sh` expands or unquotes, or could. */
  predicate Expands(c: char) {
    c in "\\$`*?[{\0"
  }

  /** Nothing in `w` is expanded; `#` and `~` are special only where a word begins. */
  predicate Unexpanded(w: string) {
    forall j :: 0 <= j < |w| ==>
      !Expands(w[j]) && (w[j] in "#~" ==> j > 0 && !IsBlank(w[j - 1]))
  }

  /** Joined, the words hold nothing special to `sh` but blanks, quotes, operators and line ends. */
  predicate Literal(words: seq<string>) {
    forall w :: w in words ==> Unexpanded(w)
  }

  /** The words of a command; an error if the line ends inside quotes; or more than one plain command. */
  datatype Split = Words(words: seq<string>) | Unclosed | Operator

  function After(word: Option<string>, rest: Split): Split {
    if word.Some? && rest.Words? then Words([word.value] + rest.words) else rest
  }

  function Add(word: Option<string>, text: string): Option<string> {
    Some((if word.Some? then word.value else "") + text)
  }

  /** Reading on from `s`, with the word begun so far and the quote it stands in. */
  function Scan(s: string, word: Option<string>, quote: Option<char>): Split
    decreases |s|
  {
    if s == "" then
      if quote.Some? then Unclosed else After(word, Words([]))
    else if quote.Some? then
      if s[0] == quote.value then Scan(s[1..], word, None) else Scan(s[1..], Add(word, [s[0]]), quote)
    else if IsBlank(s[0]) then After(word, Scan(s[1..], None, None))
    else if IsQuote(s[0]) then Scan(s[1..], Add(word, ""), Some(s[0]))
    else if IsOperator(s[0]) then Operator
    else Scan(s[1..], Add(word, [s[0]]), None)
  }

  function SplitLine(s: string): Split {
    Scan(s, None, None)
  }

  predicate PlainChar(c: char) {
    c !in " \t'\"|&;<>()\n"
  }

  /** No word is empty, and none holds a blank, a quote or an operator. */
  predicate ShellSafe(words: seq<string>) {
    forall w :: w in words ==> PlainWord(w)
  }

  predicate PlainWord(w: string) {
    w != "" && forall j :: 0 <= j < |w| ==> PlainChar(w[j])
  }

  // ------------------------------------------------------- safe words survive

  lemma {:induction false} ScanPlain(w: string, rest: string, word: Option<string>)
    requires forall j :: 0 <= j < |w| ==> PlainChar(w[j])
    requires w != "" || word.Some?
    ensures Scan(w + rest, word, None) == Scan(rest, Add(word, w), None)
    decreases |w|
  {
    if w == "" {
      assert w + rest == rest && word.value + w == word.value;
    } else {
      assert (w + rest)[1..] == w[1..] + rest;
      ScanPlain(w[1..], rest, Add(word, [w[0]]));
      assert [w[0]] + w[1..] == w;
      AddTwice(word, [w[0]], w[1..]);
    }
  }

  lemma AddTwice(word: Option<string>, a: string, b: string)
    ensures Add(Add(word, a), b) == Add(word, a + b)
  {
    Associative(if word.Some? then word.value else "", a, b);
  }

  function Before(pre: seq<string>, rest: Split): Split {
    if rest.Words? then Words(pre + rest.words) else rest
  }

  /** Safe words at the head of a line are split off as they are, whatever follows. */
  lemma {:induction false} SafePrefixSurvives(pre: seq<string>, words: seq<string>)
    requires ShellSafe(pre)
    ensures SplitLine(Join(pre + words)) == Before(pre, SplitLine(Join(words)))
  {
    if pre == [] {
      assert pre + words == words;
      assert SplitLine(Join(words)).Words? ==> [] + SplitLine(Join(words)).words == SplitLine(Join(words)).words;
    } else {
      var all := pre + words;
      assert all[0] == pre[0] && all[1..] == pre[1..] + words;
      assert PlainWord(pre[0]);
      SafePrefixSurvives(pre[1..], words);
      HeadWordSplits(all);
      var rest := SplitLine(Join(words));
      if rest.Words? { Associative([pre[0]], pre[1..], rest.words); }
      assert [pre[0]] + pre[1..] == pre;
    }
  }

  lemma HeadWordSplits(words: seq<string>)
    requires words != [] && PlainWord(words[0])
    ensures SplitLine(Join(words)) == After(Some(words[0]), SplitLine(Join(words[1..])))
  {
    var rest := if |words| == 1 then "" else " " + Join(words[1..]);
    assert Join(words) == words[0] + rest;
    ScanPlain(words[0], rest, None);
    assert "" + words[0] == words[0];
    if |words| > 1 {
      assert rest[0] == ' ' && rest[1..] == Join(words[1..]);
    }
  }

  lemma SafeWordsSurvive(words: seq<string>)
    requires ShellSafe(words)
    ensures SplitLine(Join(words)) == Words(words)
  {
    SafePrefixSurvives(words, []);
    assert words + [] == words;
  }

  // ------------------------------------------------------ nothing else does

  predicate HasQuote(s: string) {
    exists j :: 0 <= j < |s| && IsQuote(s[j])
  }

  /** Characters of the words, and one more for each. */
  function Weight(words: seq<string>): nat {
    if words == [] then 0 else |words[0]| + 1 + Weight(words[1..])
  }

  function Begun(word: Option<string>): nat {
    if word.Some? then |word.value| + 1 else 1
  }

  lemma WeightAfter(word: Option<string>, rest: Split)
    requires rest.Words?
    ensures After(word, rest).Words?
    ensures Weight(After(word, rest).words) == Weight(rest.words) + if word.Some? then |word.value| + 1 else 0
  {
    if word.Some? {
      assert ([word.value] + rest.words)[1..] == rest.words;
    }
  }

  /** Splitting never gains characters, and a quote that is taken away costs one. */
  lemma {:induction false} ScanWeight(s: string, word: Option<string>, quote: Option<char>)
    requires quote.Some? ==> word.Some?
    requires Scan(s, word, quote).Words?
    ensures Weight(Scan(s, word, quote).words) <= |s| + Begun(word)
    ensures quote.None? && HasQuote(s) ==> Weight(Scan(s, word, quote).words) < |s| + Begun(word)
    decreases |s|
  {
    if s == "" {
      WeightAfter(word, Words([]));
    } else if quote.Some? {
      ScanWeight(s[1..], if s[0] == quote.value then word else Add(word, [s[0]]),
                 if s[0] == quote.value then None else quote);
    } else if IsBlank(s[0]) {
      ScanWeight(s[1..], None, None);
      WeightAfter(word, Scan(s[1..], None, None));
      QuoteFurtherOn(s);
    } else if IsQuote(s[0]) {
      ScanWeight(s[1..], Add(word, ""), Some(s[0]));
    } else if !IsOperator(s[0]) {
      ScanWeight(s[1..], Add(word, [s[0]]), None);
      QuoteFurtherOn(s);
    }
  }

  lemma QuoteFurtherOn(s: string)
    requires s != "" && !IsQuote(s[0])
    ensures HasQuote(s) <==> HasQuote(s[1..])
  {
    if j :| 0 <= j < |s| && IsQuote(s[j]) { assert IsQuote(s[1..][j - 1]); }
    if j :| 0 <= j < |s[1..]| && IsQuote(s[1..][j]) { assert IsQuote(s[j + 1]); }
  }

  /** If a line without quotes is one command, its words are plain. */
  lemma {:induction false} UnquotedWordsPlain(s: string, word: Option<string>)
    requires !HasQuote(s) && (word.Some? ==> PlainWord(word.value))
    ensures Scan(s, word, None).Words? ==> ShellSafe(Scan(s, word, None).words)
    decreases |s|
  {
    if s != "" && !IsOperator(s[0]) {
      assert !IsQuote(s[0]);
      QuoteFurtherOn(s);
      UnquotedWordsPlain(s[1..], if IsBlank(s[0]) then None else Add(word, [s[0]]));
    }
  }

  lemma {:induction false} JoinWeight(words: seq<string>)
    requires words != []
    ensures Weight(words) == |Join(words)| + 1
  {
    if |words| == 1 {
      assert words[1..] == [];
    } else {
      JoinWeight(words[1..]);
    }
  }

  /** A line joined without quoting is split into the same words exactly when they are plain. */
  lemma SplitReadsBack(words: seq<string>)
    ensures SplitLine(Join(words)) == Words(words) <==> ShellSafe(words)
  {
    if ShellSafe(words) {
      SafeWordsSurvive(words);
    } else if SplitLine(Join(words)) == Words(words) {
      JoinWeight(words);
      ScanWeight(Join(words), None, None);
      UnquotedWordsPlain(Join(words), None);
    }
  }

  // ------------------------------------------------------- quotes, operators

  /** A quoted part joins the word it stands in, with all it holds but the quotes. */
  lemma {:induction false} QuotedPartJoins(inner: string, q: char, rest: string, word: Option<string>)
    requires word.Some? && q !in inner
    ensures Scan(inner + [q] + rest, word, Some(q)) == Scan(rest, Add(word, inner), None)
    decreases |inner|
  {
    var s := inner + [q] + rest;
    if inner == "" {
      assert s == [q] + rest && s[1..] == rest && word.value + inner == word.value;
    } else {
      assert s[0] == inner[0] && s[1..] == inner[1..] + [q] + rest;
      QuotedPartJoins(inner[1..], q, rest, Add(word, [inner[0]]));
      assert [inner[0]] + inner[1..] == inner;
      AddTwice(word, [inner[0]], inner[1..]);
    }
  }

  lemma {:induction false} NeverClosed(s: string, q: char, word: Option<string>)
    requires q !in s
    ensures Scan(s, word, Some(q)) == Unclosed
    decreases |s|
  {
    if s != "" { NeverClosed(s[1..], q, Add(word, [s[0]])); }
  }

  /**
    What `sh` makes of a quote after the plain letters `pre` of a word: what it holds up to the next
    quote of its kind, blanks and operators included, belongs to the word; with no such quote the
    line is an error.  A blank ends the word; an operator outside quotes ends the command.
   */
  lemma WordPartsExactly(pre: string, inner: string, q: char, rest: string)
    requires forall j :: 0 <= j < |pre| ==> PlainChar(pre[j])
    requires (q == '\'' || q == '"') && q !in inner
    ensures SplitLine(pre + ([q] + (inner + [q] + rest))) == Scan(rest, Some(pre + inner), None)
    ensures SplitLine(pre + ([q] + inner)) == Unclosed
    ensures forall c :: c in "|&;<>()\n" ==> SplitLine(pre + ([c] + rest)) == Operator
    ensures forall b :: b in " \t" ==>
              SplitLine(pre + ([b] + rest)) == if pre == "" then SplitLine(rest) else Before([pre], SplitLine(rest))
  {
    var word: Option<string> := if pre == "" then None else Some(pre);
    PlainHead(pre, [q] + (inner + [q] + rest));
    PlainHead(pre, [q] + inner);
    assert ([q] + (inner + [q] + rest))[1..] == inner + [q] + rest && ([q] + inner)[1..] == inner;
    assert pre + "" == pre;
    QuotedPartJoins(inner, q, rest, Some(pre));
    NeverClosed(inner, q, Some(pre));
    forall c | c in "|&;<>()\n"
      ensures SplitLine(pre + ([c] + rest)) == Operator
    {
      PlainHead(pre, [c] + rest);
    }
    forall b | b in " \t"
      ensures SplitLine(pre + ([b] + rest)) == if pre == "" then SplitLine(rest) else Before([pre], SplitLine(rest))
    {
      PlainHead(pre, [b] + rest);
      assert ([b] + rest)[1..] == rest;
    }
  }

  lemma PlainHead(pre: string, rest: string)
    requires forall j :: 0 <= j < |pre| ==> PlainChar(pre[j])
    ensures SplitLine(pre + rest) == Scan(rest, if pre == "" then None else Some(pre), None)
  {
    if pre == "" {
      assert pre + rest == rest;
    } else {
      ScanPlain(pre, rest, None);
      assert "" + pre == pre;
    }
  }
}
