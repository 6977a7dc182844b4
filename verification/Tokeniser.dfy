/** The quote-aware tokeniser of script commands, and the unquoted command lines the runner builds. */
module Tokeniser {
  import opened Text

  /** The characters `\s` matches: white space and line terminators of ECMAScript. */
  predicate IsSpace(c: char) {
    var n := c as int;
    9 <= n <= 13 || n == 32 || n == 0xa0 || n == 0x1680 || 0x2000 <= n <= 0x200a ||
    n == 0x2028 || n == 0x2029 || n == 0x202f || n == 0x205f || n == 0x3000 || n == 0xfeff
  }

  predicate IsQuote(c: char) {
    c == '\'' || c == '"'
  }

  function FindChar(s: string, q: char, i: nat): (j: nat)
    requires i <= |s|
    ensures i <= j <= |s| && (j < |s| ==> s[j] == q)
    ensures forall k :: i <= k < j ==> s[k] != q
    decreases |s| - i
  {
    if i == |s| || s[i] == q then i else FindChar(s, q, i + 1)
  }

  function SpanEnd(s: string, i: nat): (j: nat)
    requires i <= |s|
    ensures i <= j <= |s| && (j < |s| ==> IsSpace(s[j]))
    ensures forall k :: i <= k < j ==> !IsSpace(s[k])
    decreases |s| - i
  {
    if i == |s| || IsSpace(s[i]) then i else SpanEnd(s, i + 1)
  }

  /** A token; the expression `match[1] || match[2] || match[3]` turns an empty quoted match into undefined. */
  type Word = Option<string>

  function Quoted(text: string): Word {
    if text == "" then None else Some(text)
  }

  /** The matches of `'([^']*)'|"([^"]*)"|(\S+)`, from left to right. */
  function Tokens(s: string): seq<Word>
    decreases |s|
  {
    if s == "" then []
    else if IsSpace(s[0]) then Tokens(s[1..])
    else if IsQuote(s[0]) && FindChar(s, s[0], 1) < |s| then
      var j := FindChar(s, s[0], 1);
      [Quoted(s[1..j])] + Tokens(s[j + 1..])
    else
      var j := SpanEnd(s, 1);
      [Some(s[..j])] + Tokens(s[j..])
  }

  method SkipSpaces(s: string, pos: nat) returns (start: nat)
    requires pos <= |s|
    ensures pos <= start <= |s| && (start < |s| ==> !IsSpace(s[start]))
    ensures Tokens(s[start..]) == Tokens(s[pos..])
  {
    start := pos;
    ghost var all := Tokens(s[pos..]);
    while start < |s| && IsSpace(s[start])
      invariant pos <= start <= |s| && Tokens(s[start..]) == all
    {
      assert s[start..][1..] == s[start + 1..];
      start := start + 1;
    }
  }

  /** The alternatives of the expression in turn: a closed quoted part, or a run of non-space characters. */
  method MatchAt(s: string, start: nat) returns (word: Word, end: nat)
    requires start < |s| && !IsSpace(s[start])
    ensures start < end <= |s| && Tokens(s[start..]) == [word] + Tokens(s[end..])
  {
    hide Tokens, IsSpace;
    if IsQuote(s[start]) {
      var close := FindChar(s, s[start], start + 1);
      if close < |s| {
        ReadQuoted(s, start, close);
        return Quoted(s[start + 1..close]), close + 1;
      }
    }
    end := SpanEnd(s, start + 1);
    ReadRun(s, start, end);
    word := Some(s[start..end]);
  }

  /** One call of `regex.exec`: the next match from `pos` on, and where it ends. */
  method Exec(s: string, pos: nat) returns (found: bool, word: Word, end: nat)
    requires pos <= |s|
    ensures pos <= end <= |s| && (found ==> pos < end)
    ensures Tokens(s[pos..]) == if found then [word] + Tokens(s[end..]) else []
  {
    var start := SkipSpaces(s, pos);
    if start == |s| { return false, None, start; }
    found := true;
    word, end := MatchAt(s, start);
  }

  /** The tokens as the regular expression loop collects them. */
  method Tokenise(s: string) returns (tokens: seq<Word>)
    ensures tokens == Tokens(s)
  {
    tokens := [];
    var found, word, pos := Exec(s, 0);
    assert s[0..] == s;
    while found
      invariant pos <= |s|
      invariant Tokens(s) == if found then tokens + ([word] + Tokens(s[pos..])) else tokens
      decreases |s| - pos, found
    {
      Associative(tokens, [word], Tokens(s[pos..]));
      tokens := tokens + [word];
      found, word, pos := Exec(s, pos);
    }
  }

  lemma QuotedFirst(t: string, j: nat, inner: string, rest: string)
    requires t != "" && IsQuote(t[0]) && !IsSpace(t[0]) && j == FindChar(t, t[0], 1) < |t|
    requires inner == t[1..j] && rest == t[j + 1..]
    ensures Tokens(t) == [Quoted(inner)] + Tokens(rest)
  {
  }

  lemma RunFirst(t: string, j: nat, run: string, rest: string)
    requires t != "" && !IsSpace(t[0]) && j == SpanEnd(t, 1)
    requires IsQuote(t[0]) ==> FindChar(t, t[0], 1) == |t|
    requires run == t[..j] && rest == t[j..]
    ensures Tokens(t) == [Some(run)] + Tokens(rest)
  {
  }

  lemma SliceOfTail(s: string, pos: nat, i: nat, j: nat)
    requires i <= j && pos + j <= |s|
    ensures s[pos..][i..j] == s[pos + i..pos + j] && s[pos..][j..] == s[pos + j..]
  {
  }

  lemma ReadQuoted(s: string, pos: nat, close: nat)
    requires pos < |s| && IsQuote(s[pos]) && !IsSpace(s[pos])
    requires close == FindChar(s, s[pos], pos + 1) < |s|
    ensures Tokens(s[pos..]) == [Quoted(s[pos + 1..close])] + Tokens(s[close + 1..])
  {
    hide Tokens, IsSpace;
    FindCharShift(s, s[pos], pos, 1);
    SliceOfTail(s, pos, 1, close - pos);
    SliceOfTail(s, pos, 1, close + 1 - pos);
    QuotedFirst(s[pos..], close - pos, s[pos + 1..close], s[close + 1..]);
  }

  lemma ReadRun(s: string, pos: nat, end: nat)
    requires pos < |s| && !IsSpace(s[pos]) && end == SpanEnd(s, pos + 1)
    requires IsQuote(s[pos]) ==> FindChar(s, s[pos], pos + 1) == |s|
    ensures Tokens(s[pos..]) == [Some(s[pos..end])] + Tokens(s[end..])
  {
    hide Tokens, IsSpace;
    FindCharShift(s, s[pos], pos, 1);
    SpanEndShift(s, pos, 1);
    SliceOfTail(s, pos, 0, end - pos);
    RunFirst(s[pos..], end - pos, s[pos..end], s[end..]);
  }

  lemma FindCharShift(s: string, q: char, pos: nat, i: nat)
    requires pos + i <= |s|
    ensures FindChar(s, q, pos + i) == pos + FindChar(s[pos..], q, i)
    decreases |s| - pos - i
  {
  }

  lemma SpanEndShift(s: string, pos: nat, i: nat)
    requires pos + i <= |s|
    ensures SpanEnd(s, pos + i) == pos + SpanEnd(s[pos..], i)
    decreases |s| - pos - i
  {
  }

  /** `words.join(' ')` */
  function Join(words: seq<string>): string {
    if words == [] then ""
    else if |words| == 1 then words[0]
    else words[0] + " " + Join(words[1..])
  }

  function Words(words: seq<string>): (ws: seq<Word>)
    ensures |ws| == |words|
    ensures forall i :: 0 <= i < |ws| ==> ws[i] == Some(words[i])
  {
    seq(|words|, i requires 0 <= i < |words| => Some(words[i]))
  }

  predicate SpaceFree(s: string) {
    forall i :: 0 <= i < |s| ==> !IsSpace(s[i])
  }

  /** No word is empty or holds white space, and a word that opens with a quote is never closed later. */
  predicate SafeToRejoin(words: seq<string>) {
    forall i :: 0 <= i < |words| ==> SafeAt(words, i)
  }

  predicate SafeAt(words: seq<string>, i: nat)
    requires i < |words|
  {
    && words[i] != "" && SpaceFree(words[i])
    && (IsQuote(words[i][0]) ==> UnclosedAfter(words, i, words[i][0]))
  }

  predicate UnclosedAfter(words: seq<string>, i: nat, q: char)
    requires i < |words| && words[i] != ""
  {
    q !in words[i][1..] && forall j :: i < j < |words| ==> q !in words[j]
  }

  lemma {:induction false} JoinHolds(words: seq<string>, q: char)
    requires q != ' '
    ensures q in Join(words) <==> exists j :: 0 <= j < |words| && q in words[j]
  {
    if |words| > 1 {
      JoinHolds(words[1..], q);
      assert q in Join(words) <==> q in words[0] || q in Join(words[1..]);
      assert forall j :: 0 <= j < |words| - 1 ==> words[1..][j] == words[j + 1];
      assert forall j :: 0 < j < |words| ==> words[j] == words[1..][j - 1];
    }
  }

  predicate HeadSafe(words: seq<string>)
    requires words != []
  {
    words[0] != "" && SpaceFree(words[0]) && (IsQuote(words[0][0]) ==> words[0][0] !in Join(words)[1..])
  }

  lemma HeadUnclosed(words: seq<string>, q: char)
    requires words != [] && words[0] != "" && IsQuote(q)
    ensures q in Join(words)[1..] <==> !UnclosedAfter(words, 0, q)
  {
    var rest := words[1..];
    assert forall i :: 0 < i < |words| ==> words[i] == rest[i - 1];
    assert forall i :: 0 <= i < |rest| ==> rest[i] == words[i + 1];
    JoinHolds(rest, q);
    if rest == [] {
      assert Join(words)[1..] == words[0][1..];
    } else {
      assert Join(words)[1..] == words[0][1..] + (" " + Join(rest));
    }
  }

  lemma UnclosedShift(words: seq<string>, i: nat, q: char)
    requires 0 < i < |words| && words[i] != ""
    ensures UnclosedAfter(words, i, q) <==> UnclosedAfter(words[1..], i - 1, q)
  {
    var rest := words[1..];
    assert forall j :: i < j < |words| ==> words[j] == rest[j - 1];
    assert forall j :: 0 <= j < |rest| ==> rest[j] == words[j + 1];
  }

  lemma SafeByHead(words: seq<string>)
    requires words != []
    ensures SafeToRejoin(words) <==> HeadSafe(words) && SafeToRejoin(words[1..])
  {
    var rest := words[1..];
    if words[0] != "" && IsQuote(words[0][0]) {
      HeadUnclosed(words, words[0][0]);
    }
    assert SafeAt(words, 0) <==> HeadSafe(words);
    forall i | 0 < i < |words|
      ensures SafeAt(words, i) <==> SafeAt(rest, i - 1)
    {
      if words[i] != "" { UnclosedShift(words, i, words[i][0]); }
    }
    assert forall i :: 0 <= i < |rest| ==> (SafeAt(words, i + 1) <==> SafeAt(rest, i));
  }

  /** The head of a joined line is read back as a run of non-space characters. */
  lemma TokensOfHead(words: seq<string>)
    requires words != [] && HeadSafe(words)
    ensures Tokens(Join(words)) == [Some(words[0])] + Tokens(Join(words[1..]))
  {
    var s, n := Join(words), |words[0]|;
    assert s[..n] == words[0];
    assert forall k :: 0 <= k < n ==> s[k] == words[0][k];
    assert forall k :: 1 <= k < |s| ==> s[k] == s[1..][k - 1];
    assert IsQuote(s[0]) ==> FindChar(s, s[0], 1) == |s|;
    var j := SpanEnd(s, 1);
    if |words| == 1 {
      assert j == n && s[n..] == "";
    } else {
      assert s[n] == ' ';
      assert j == n;
      assert s[n..][1..] == Join(words[1..]);
    }
  }

  function Size(ws: seq<Word>): nat {
    if ws == [] then 0 else 1 + (if ws[0].Some? then |ws[0].value| else 0) + Size(ws[1..])
  }

  /** Reading never gains characters, and loses none only if the line starts with an unquoted run. */
  lemma {:induction false} SizeBound(s: string)
    ensures Size(Tokens(s)) <= |s| + 1
    ensures s != "" && IsSpace(s[0]) ==> Size(Tokens(s)) <= |s|
    ensures s != "" && IsQuote(s[0]) && FindChar(s, s[0], 1) < |s| ==> Size(Tokens(s)) <= |s|
    decreases |s|
  {
    if s == "" {
    } else if IsSpace(s[0]) {
      SizeBound(s[1..]);
    } else if IsQuote(s[0]) && FindChar(s, s[0], 1) < |s| {
      var j := FindChar(s, s[0], 1);
      SizeBound(s[j + 1..]);
      assert Tokens(s)[1..] == Tokens(s[j + 1..]);
    } else {
      var j := SpanEnd(s, 1);
      SizeBound(s[j..]);
      assert Tokens(s)[1..] == Tokens(s[j..]);
    }
  }

  lemma {:induction false} JoinSize(words: seq<string>)
    requires words != []
    ensures Size(Words(words)) == |Join(words)| + 1
  {
    assert Words(words)[1..] == Words(words[1..]);
    if |words| > 1 {
      JoinSize(words[1..]);
    }
  }

  lemma HeadSafeIfReadBack(words: seq<string>)
    requires words != [] && Tokens(Join(words)) == Words(words)
    ensures HeadSafe(words)
  {
    var s := Join(words);
    JoinSize(words);
    SizeBound(s);
    assert |Words(words)| > 0;
    assert s != "";
    var j := SpanEnd(s, 1);
    assert Words(words)[0] == Some(words[0]);
    assert words[0] == s[..j];
    assert forall k :: 0 <= k < j ==> words[0][k] == s[k];
    if IsQuote(s[0]) {
      assert FindChar(s, s[0], 1) == |s|;
    }
  }

  /**
    The runner joins file and flags with spaces and no quoting.  Such a line reads back as the same
    words exactly when no word is empty, none holds white space, and none opens a quote that a
    later character closes.
   */
  lemma {:induction false} RejoinReadsBack(words: seq<string>)
    ensures Tokens(Join(words)) == Words(words) <==> SafeToRejoin(words)
  {
    if words == [] {
    } else {
      SafeByHead(words);
      RejoinReadsBack(words[1..]);
      assert Words(words) == [Some(words[0])] + Words(words[1..]);
      if Tokens(Join(words)) == Words(words) {
        HeadSafeIfReadBack(words);
      }
      if HeadSafe(words) {
        TokensOfHead(words);
        var a, b := Tokens(Join(words[1..])), Words(words[1..]);
        assert ([Some(words[0])] + a)[1..] == a && ([Some(words[0])] + b)[1..] == b;
      }
    }
  }

  /** A plain word: what is read back as itself. */
  predicate Plain(w: string) {
    w != "" && SpaceFree(w) && !IsQuote(w[0])
  }

  /** A grep pattern with a space is read back as a pattern and a stray word. */
  lemma SpacedPatternSplits(grep: string, a: string, b: string)
    requires Plain(grep) && Plain(a) && Plain(b)
    ensures Tokens(Join([grep, a + " " + b])) == [Some(grep), Some(a), Some(b)]
  {
    var words := [grep, a, b];
    assert words[1..] == [a, b] && [a, b][1..] == [b];
    assert [grep, a + " " + b][1..] == [a + " " + b];
    assert Join([a, b]) == a + " " + b;
    assert Join([grep, a + " " + b]) == Join(words);
    RejoinReadsBack(words);
  }

  function QuoteAll(words: seq<string>, q: char): (qs: seq<string>)
    ensures |qs| == |words|
    ensures forall i :: 0 <= i < |qs| ==> qs[i] == [q] + words[i] + [q]
  {
    seq(|words|, i requires 0 <= i < |words| => [q] + words[i] + [q])
  }

  lemma QuotedHead(words: seq<string>, q: char)
    requires IsQuote(q) && words != []
    ensures var s, t := Join(QuoteAll(words, q)), words[0];
            && |t| + 2 <= |s| && s[0] == q && s[1..|t| + 1] == t && s[|t| + 1] == q
            && Tokens(s[|t| + 2..]) == Tokens(Join(QuoteAll(words[1..], q)))
  {
    var s, t := Join(QuoteAll(words, q)), words[0];
    var n := |t| + 2;
    assert QuoteAll(words, q)[1..] == QuoteAll(words[1..], q);
    assert s[..n] == [q] + t + [q];
    assert s[1..n - 1] == s[..n][1..n - 1] == t;
    if |words| == 1 {
      assert s[n..] == "" && QuoteAll(words[1..], q) == [];
    } else {
      assert s[n..] == " " + Join(QuoteAll(words[1..], q));
      assert s[n..][1..] == Join(QuoteAll(words[1..], q));
    }
  }

  lemma TokensOfQuotedHead(words: seq<string>, q: char)
    requires IsQuote(q) && words != []
    ensures var s, t := Join(QuoteAll(words, q)), words[0];
            if q in t then Tokens(s) != [] && Tokens(s)[0] != Some(t)
            else Tokens(s) == [Quoted(t)] + Tokens(Join(QuoteAll(words[1..], q)))
  {
    var s, t := Join(QuoteAll(words, q)), words[0];
    QuotedHead(words, q);
    assert forall k :: 0 <= k < |t| ==> t[k] == s[k + 1];
    var j := FindChar(s, q, 1);
    assert j <= |t| + 1;
    if q in t {
      var k :| 0 <= k < |t| && t[k] == q;
      assert j <= k + 1;
      assert |s[1..j]| < |t|;
    } else {
      assert j == |t| + 1;
    }
  }

  /** Quoting every word makes the line read back, exactly when no word is empty or holds the quote. */
  lemma {:induction false} QuotedReadsBack(words: seq<string>, q: char)
    requires IsQuote(q)
    ensures Tokens(Join(QuoteAll(words, q))) == Words(words) <==>
            forall i :: 0 <= i < |words| ==> words[i] != "" && q !in words[i]
  {
    if words == [] {
    } else {
      QuotedReadsBack(words[1..], q);
      TokensOfQuotedHead(words, q);
      assert Words(words) == [Some(words[0])] + Words(words[1..]);
      assert forall i :: 0 < i < |words| ==> words[i] == words[1..][i - 1];
      assert forall i :: 0 <= i < |words| - 1 ==> words[1..][i] == words[i + 1];
      var a, b := Tokens(Join(QuoteAll(words[1..], q))), Words(words[1..]);
      assert ([Quoted(words[0])] + a)[1..] == a && ([Some(words[0])] + b)[1..] == b;
      assert ([Quoted(words[0])] + a)[0] == Quoted(words[0]);
    }
  }

  // ------------------------------------------------------ ordinary characters

  /** A printing ASCII character other than the quotes: letters, digits, and signs such as `/`, `-`, `.` and `*`. */
  predicate Ordinary(c: char) {
    '!' <= c <= '~' && c != '\'' && c != '"'
  }

  /** The white space and line terminators of ECMAScript, one by one. */
  lemma SpacesExactly(c: char)
    ensures IsSpace(c) <==>
            c in ['\t', '\n', '\U{b}', '\U{c}', '\r', ' ', '\U{a0}', '\U{1680}', '\U{2000}', '\U{2001}', '\U{2002}', '\U{2003}',
                  '\U{2004}', '\U{2005}', '\U{2006}', '\U{2007}', '\U{2008}', '\U{2009}', '\U{200a}', '\U{2028}', '\U{2029}',
                  '\U{202f}', '\U{205f}', '\U{3000}', '\U{feff}']
  {
    var spaces := [9, 10, 11, 12, 13, 32, 0xa0, 0x1680, 0x2000, 0x2001, 0x2002, 0x2003, 0x2004, 0x2005, 0x2006, 0x2007, 0x2008,
                   0x2009, 0x200a, 0x2028, 0x2029, 0x202f, 0x205f, 0x3000, 0xfeff];
    assert IsSpace(c) <==> c as int in spaces;
  }

  /** A word of ordinary characters is one token, which ends at the first white space. */
  lemma OrdinaryWord(word: string, space: char, rest: string)
    requires word != "" && forall i :: 0 <= i < |word| ==> Ordinary(word[i])
    requires space == ' ' || '\t' <= space <= '\r'
    ensures Tokens(word + [space] + rest) == [Some(word)] + Tokens(rest)
  {
    var t := word + [space] + rest;
    assert forall i :: 0 <= i < |word| ==> t[i] == word[i];
    assert t[|word|] == space && t[|word|..] == [space] + rest && t[..|word|] == word;
    RunFirst(t, SpanEnd(t, 1), t[..SpanEnd(t, 1)], t[SpanEnd(t, 1)..]);
    assert ([space] + rest)[1..] == rest;
  }

  /** A line of ordinary words is split into those words, and a quoted part of any text is one token. */
  lemma OrdinaryWordsSplit(words: seq<string>)
    requires forall w :: w in words ==> w != "" && forall i :: 0 <= i < |w| ==> Ordinary(w[i])
    ensures Tokens(Join(words)) == Words(words)
  {
    forall i | 0 <= i < |words|
      ensures SafeAt(words, i)
    {
      assert words[i] in words;
    }
    RejoinReadsBack(words);
  }

  lemma QuotedPart(inner: string, q: char, rest: string)
    requires (q == '\'' || q == '"') && q !in inner
    ensures Tokens([q] + inner + [q] + rest) == [if inner == "" then None else Some(inner)] + Tokens(rest)
  {
    var t := [q] + inner + [q] + rest;
    assert t[0] == q && t[1 + |inner|] == q && forall i :: 1 <= i <= |inner| ==> t[i] == inner[i - 1];
    assert FindChar(t, q, 1) == 1 + |inner|;
    assert t[1..1 + |inner|] == inner && t[1 + |inner| + 1..] == rest;
  }
}
