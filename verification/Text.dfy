/** Small text functions shared by the models: decimal numerals, lower case, substring search. */
module Text {

  datatype Option<+T> = None | Some(value: T)

  function DigitChar(n: nat): (c: char)
    requires n < 10
    ensures c != '-'
  {
    "0123456789"[n]
  }

  /** `String(n)` for a natural number. */
  function Decimal(n: nat): (s: string)
    ensures |s| > 0 && '-' !in s
  {
    if n < 10 then [DigitChar(n)] else Decimal(n / 10) + [DigitChar(n % 10)]
  }

  lemma DigitInjective(m: nat, n: nat)
    requires m < 10 && n < 10 && DigitChar(m) == DigitChar(n)
    ensures m == n
  {
  }

  lemma DecimalSplit(n: nat)
    ensures var s := Decimal(n);
            && s[|s| - 1] == DigitChar(n % 10)
            && (n < 10 <==> |s| == 1)
            && (n >= 10 ==> s[..|s| - 1] == Decimal(n / 10))
  {
  }

  lemma {:induction false} DecimalInjective(m: nat, n: nat)
    requires Decimal(m) == Decimal(n)
    ensures m == n
  {
    DecimalSplit(m);
    DecimalSplit(n);
    DigitInjective(m % 10, n % 10);
    if m >= 10 {
      DecimalInjective(m / 10, n / 10);
    }
  }

  /** ASCII lower case; other characters are left alone. */
  function Lower(s: string): (l: string)
    ensures |l| == |s|
    ensures forall i :: 0 <= i < |s| ==> l[i] == LowerChar(s[i])
  {
    seq(|s|, i requires 0 <= i < |s| => LowerChar(s[i]))
  }

  function LowerChar(c: char): char {
    if 'A' <= c <= 'Z' then ((c as int) + 32) as char else c
  }

  /** `s.includes(t)` */
  predicate Includes(s: string, t: string) {
    exists i :: 0 <= i <= |s| && OccursAt(s, t, i)
  }

  predicate OccursAt(s: string, t: string, i: nat)
    requires i <= |s|
  {
    i + |t| <= |s| && s[i..i + |t|] == t
  }

  predicate EndsWith(s: string, t: string) {
    |t| <= |s| && s[|s| - |t|..] == t
  }

  lemma AbsentChar(msg: string, p: string, k: nat)
    requires k < |p| && p[k] !in msg
    ensures !Includes(msg, p)
  {
    forall i | 0 <= i <= |msg| && i + |p| <= |msg|
      ensures !OccursAt(msg, p, i)
    {
      assert msg[i..i + |p|][k] == msg[i + k];
    }
  }

  /** Text without capitals is its own lower case. */
  lemma LowerFixed(s: string)
    requires forall c :: c in s ==> !('A' <= c <= 'Z')
    ensures Lower(s) == s
  {
    assert forall i :: 0 <= i < |s| ==> s[i] in s;
  }

  /** `Lower` takes A..Z to a..z, in order, and nothing else anywhere else. */
  lemma LowerExactly(s: string, i: nat)
    requires i < |s|
    ensures |Lower(s)| == |s|
    ensures 'A' <= s[i] <= 'Z' ==> 'a' <= Lower(s)[i] <= 'z' && Lower(s)[i] as int - 'a' as int == s[i] as int - 'A' as int
    ensures !('A' <= s[i] <= 'Z') ==> Lower(s)[i] == s[i]
  {
  }

  ghost predicate Contains(s: string, t: string) {
    exists pre: string, post: string :: s == pre + t + post
  }

  lemma IncludesExactly(s: string, t: string)
    ensures Includes(s, t) <==> Contains(s, t)
  {
    if Includes(s, t) {
      var i :| 0 <= i <= |s| && OccursAt(s, t, i);
      assert s == s[..i] + t + s[i + |t|..];
    }
    if Contains(s, t) {
      var pre: string, post: string :| s == pre + t + post;
      assert OccursAt(s, t, |pre|);
    }
  }

  /** The number a decimal numeral stands for. */
  function ValueOf(s: string): int {
    if s == "" then 0 else 10 * ValueOf(s[..|s| - 1]) + (s[|s| - 1] as int - '0' as int)
  }

  /** `Decimal` writes the number it is given, without leading zeros. */
  lemma {:induction false} DecimalReads(n: nat)
    ensures ValueOf(Decimal(n)) == n
    ensures forall i :: 0 <= i < |Decimal(n)| ==> '0' <= Decimal(n)[i] <= '9'
    ensures n > 0 ==> Decimal(n)[0] != '0'
  {
    if n < 10 {
      assert Decimal(n)[..|Decimal(n)| - 1] == "";
    } else {
      DecimalReads(n / 10);
      DecimalSplit(n);
    }
  }

  lemma Associative<T>(a: seq<T>, b: seq<T>, c: seq<T>)
    ensures a + (b + c) == (a + b) + c
  {
  }
}
