/** The handful of Python string operations the backend relies on:
    `startswith`, `in`, `replace` of one character, ASCII `lower`,
    `split(c)[0]` and `str(n)` of a natural number. */
module Strings {

  predicate StartsWith(s: string, prefix: string) {
    |prefix| <= |s| && s[..|prefix|] == prefix
  }

  /** `pattern` occurs in `s` starting at position `i`. */
  predicate OccursAt(s: string, pattern: string, i: int) {
    0 <= i && i + |pattern| <= |s| && s[i..i + |pattern|] == pattern
  }

  lemma OccursShift(s: string, pattern: string)
    requires s != []
    ensures forall i :: OccursAt(s[1..], pattern, i) ==> OccursAt(s, pattern, i + 1)
    ensures forall i :: OccursAt(s, pattern, i) && 0 < i ==> OccursAt(s[1..], pattern, i - 1)
  {
    forall i | 0 <= i && i + |pattern| <= |s| - 1
      ensures OccursAt(s[1..], pattern, i) <==> OccursAt(s, pattern, i + 1)
    {
      assert s[1..][i..i + |pattern|] == s[i + 1..i + 1 + |pattern|];
    }
  }

  /** Python's `pattern in s`. */
  function Contains(s: string, pattern: string): (b: bool)
    ensures b <==> exists i :: OccursAt(s, pattern, i)
    decreases |s|
  {
    if |s| < |pattern| then false
    else if s[..|pattern|] == pattern then assert OccursAt(s, pattern, 0); true
    else
      OccursShift(s, pattern);
      assert !OccursAt(s, pattern, 0);
      Contains(s[1..], pattern)
  }

  /** A pattern found in `t` is still found once something is put in front. */
  lemma ContainsAfterPrefix(s: string, t: string, pattern: string)
    requires Contains(t, pattern)
    ensures Contains(s + t, pattern)
  {
    var i :| OccursAt(t, pattern, i);
    assert (s + t)[|s| + i..|s| + i + |pattern|] == t[i..i + |pattern|];
    assert OccursAt(s + t, pattern, |s| + i);
  }

  /** A string contains its own suffix. */
  lemma ContainsSelf(s: string)
    ensures Contains(s, s)
  {
    assert OccursAt(s, s, 0);
  }

  /** Python's `s.replace(from, to)` for one-character arguments. */
  function ReplaceChar(s: string, from: char, to: char): (r: string)
    ensures |r| == |s|
    ensures forall i | 0 <= i < |s| :: r[i] == (if s[i] == from then to else s[i])
  {
    if s == [] then []
    else [if s[0] == from then to else s[0]] + ReplaceChar(s[1..], from, to)
  }

  function LowerChar(c: char): char {
    if 'A' <= c <= 'Z' then (c as int - 'A' as int + 'a' as int) as char else c
  }

  /** Python's `s.lower()`, restricted to the ASCII letters. */
  function Lower(s: string): (r: string)
    ensures |r| == |s|
    ensures forall i | 0 <= i < |s| :: r[i] == LowerChar(s[i])
    ensures forall i | 0 <= i < |s| :: !('A' <= r[i] <= 'Z')
  {
    if s == [] then [] else [LowerChar(s[0])] + Lower(s[1..])
  }

  /** Python's `s.split(sep)[0]`: everything before the first `sep`,
      or all of `s` when it has none. */
  function BeforeFirst(s: string, sep: char): (r: string)
    ensures sep !in r
    ensures |r| <= |s| && r == s[..|r|]
    ensures |r| < |s| ==> s[|r|] == sep
    ensures sep !in s ==> r == s
  {
    if s == [] then []
    else if s[0] == sep then []
    else [s[0]] + BeforeFirst(s[1..], sep)
  }

  /** When the first `sep` of `s` is at position `k`, the part before it is `s[..k]`. */
  lemma {:induction false} BeforeFirstAt(s: string, sep: char, k: nat)
    requires k < |s| && s[k] == sep && sep !in s[..k]
    ensures BeforeFirst(s, sep) == s[..k]
  {
    if k > 0 {
      assert s[0] in s[..k];
      assert s[1..][..k - 1] == s[1..k];
      assert forall c | c in s[1..k] :: c in s[..k];
      BeforeFirstAt(s[1..], sep, k - 1);
      assert s[..k] == [s[0]] + s[1..k];
    }
  }

  /** Lexicographic order on code points, the order of `ORDER BY name`
      under a binary collation. */
  predicate StringLe(s: string, t: string)
    decreases |s|
  {
    s == [] || (t != [] && (s[0] < t[0] || (s[0] == t[0] && StringLe(s[1..], t[1..]))))
  }

  lemma {:induction false} StringLeTotal(s: string, t: string)
    ensures StringLe(s, t) || StringLe(t, s)
    decreases |s|
  {
    if s != [] && t != [] && s[0] == t[0] {
      StringLeTotal(s[1..], t[1..]);
    }
  }

  lemma {:induction false} StringLeTransitive(a: string, b: string, c: string)
    requires StringLe(a, b) && StringLe(b, c)
    ensures StringLe(a, c)
    decreases |a|
  {
    if a != [] && a[0] == b[0] && b[0] == c[0] {
      StringLeTransitive(a[1..], b[1..], c[1..]);
    }
  }

  function DigitChar(d: nat): (c: char)
    requires d < 10
    ensures '0' <= c <= '9'
    ensures c as int - '0' as int == d
  {
    (d + '0' as int) as char
  }

  /** Python's `str(n)` for a natural number: decimal, no leading zeros. */
  function NatToString(n: nat): (s: string)
    ensures 1 <= |s|
    ensures n < 10 ==> |s| == 1
    ensures 10 <= n ==> 2 <= |s|
    ensures forall i | 0 <= i < |s| :: '0' <= s[i] <= '9'
    decreases n
  {
    if n < 10 then [DigitChar(n)] else NatToString(n / 10) + [DigitChar(n % 10)]
  }

  /** Different numbers have different decimal representations. */
  lemma {:induction false} NatToStringInjective(a: nat, b: nat)
    requires NatToString(a) == NatToString(b)
    ensures a == b
    decreases a
  {
    var s := NatToString(a);
    if a < 10 && b < 10 {
      assert DigitChar(a) == s[0] == DigitChar(b);
    } else if 10 <= a && 10 <= b {
      var pa, pb := NatToString(a / 10), NatToString(b / 10);
      assert s == pa + [DigitChar(a % 10)] == pb + [DigitChar(b % 10)];
      assert pa == s[..|s| - 1] == pb;
      assert DigitChar(a % 10) == s[|s| - 1] == DigitChar(b % 10);
      NatToStringInjective(a / 10, b / 10);
    }
  }

  /** Appending different numbers to one base gives different strings. */
  lemma SuffixedInjective(base: string, a: nat, b: nat)
    requires base + NatToString(a) == base + NatToString(b)
    ensures a == b
  {
    var sa, sb := base + NatToString(a), base + NatToString(b);
    assert NatToString(a) == sa[|base|..] == sb[|base|..] == NatToString(b);
    NatToStringInjective(a, b);
  }

  /** A base with a number appended is never the base itself. */
  lemma SuffixedDiffers(base: string, a: nat)
    ensures base + NatToString(a) != base
  {
    assert |base + NatToString(a)| > |base|;
  }
}
