/** Sequence utilities shared by the table models: uniqueness of a column,
    the first row a query matches, row removal, filtering, ordering and
    SQL-style OFFSET/LIMIT. */
module Seqs {
  import opened Http

  /** No two positions of `s` hold the same value: a UNIQUE column. */
  ghost predicate Distinct<T>(s: seq<T>) {
    forall i, j | 0 <= i < |s| && 0 <= j < |s| && i != j :: s[i] != s[j]
  }

  lemma DistinctAppend<T>(s: seq<T>, x: T)
    requires Distinct(s) && x !in s
    ensures Distinct(s + [x])
  {
    var t := s + [x];
    forall i, j | 0 <= i < |t| && 0 <= j < |t| && i != j
      ensures t[i] != t[j]
    {
      if i == |s| {
        assert t[j] == s[j];
      } else if j == |s| {
        assert t[i] == s[i];
      }
    }
  }

  /** `s` without the element at position `k`. */
  function RemoveAt<T>(s: seq<T>, k: nat): (r: seq<T>)
    requires k < |s|
    ensures |r| == |s| - 1
    ensures forall i | 0 <= i < k :: r[i] == s[i]
    ensures forall i | k <= i < |r| :: r[i] == s[i + 1]
  {
    s[..k] + s[k + 1..]
  }

  lemma DistinctRemoveAt<T>(s: seq<T>, k: nat)
    requires k < |s| && Distinct(s)
    ensures Distinct(RemoveAt(s, k))
    ensures s[k] !in RemoveAt(s, k)
  {
    var r := RemoveAt(s, k);
    forall i, j | 0 <= i < |r| && 0 <= j < |r| && i != j
      ensures r[i] != r[j]
    {
      var i' := if i < k then i else i + 1;
      var j' := if j < k then j else j + 1;
      assert r[i] == s[i'] && r[j] == s[j'];
    }
    forall i | 0 <= i < |r|
      ensures r[i] != s[k]
    {
      var i' := if i < k then i else i + 1;
      assert r[i] == s[i'];
    }
  }

  /** Replacing one element by a value that occurs nowhere else keeps
      a column unique. */
  lemma DistinctUpdate<T>(s: seq<T>, k: nat, x: T)
    requires k < |s| && Distinct(s)
    requires forall i | 0 <= i < |s| && i != k :: s[i] != x
    ensures Distinct(s[k := x])
  {
  }

  /** The position of the first element satisfying `p`, as a query's
      `.first()` finds it. */
  function FirstIndex<T>(s: seq<T>, p: T -> bool): (r: Option<nat>)
    ensures r.Some? ==> r.value < |s| && p(s[r.value])
    ensures r.Some? ==> forall i | 0 <= i < r.value :: !p(s[i])
    ensures r.None? <==> forall i | 0 <= i < |s| :: !p(s[i])
  {
    if s == [] then None
    else if p(s[0]) then Some(0)
    else match FirstIndex(s[1..], p)
      case None => None
      case Some(i) => Some(i + 1)
  }

  /** The elements of `s` satisfying `p`, in their original order: each
      matching value as often as in `s`, no other value. */
  function Filter<T(!new)>(s: seq<T>, p: T -> bool): (r: seq<T>)
    ensures |r| <= |s|
    ensures forall x :: x in r <==> x in s && p(x)
    ensures forall x :: multiset(r)[x] == if p(x) then multiset(s)[x] else 0
  {
    if s == [] then []
    else
      assert s == [s[0]] + s[1..];
      if p(s[0]) then [s[0]] + Filter(s[1..], p)
      else Filter(s[1..], p)
  }

  /** `le` is a total preorder: every two values compare, transitively. */
  ghost predicate TotalPreorder<T(!new)>(le: (T, T) -> bool) {
    && (forall a, b :: le(a, b) || le(b, a))
    && (forall a, b, c :: le(a, b) && le(b, c) ==> le(a, c))
  }

  ghost predicate SortedBy<T>(s: seq<T>, le: (T, T) -> bool) {
    forall i, j | 0 <= i < j < |s| :: le(s[i], s[j])
  }

  /** Insert `x` in front of the first element it does not exceed. */
  function InsertBy<T>(x: T, s: seq<T>, le: (T, T) -> bool): (r: seq<T>)
  {
    if s == [] || le(x, s[0]) then [x] + s
    else [s[0]] + InsertBy(x, s[1..], le)
  }

  /** A stable insertion sort, the model of an `ORDER BY`. */
  function SortBy<T>(s: seq<T>, le: (T, T) -> bool): (r: seq<T>)
  {
    if s == [] then [] else InsertBy(s[0], SortBy(s[1..], le), le)
  }

  lemma {:induction false} InsertByCorrect<T(!new)>(x: T, s: seq<T>, le: (T, T) -> bool)
    requires TotalPreorder(le) && SortedBy(s, le)
    ensures multiset(InsertBy(x, s, le)) == multiset(s) + multiset{x}
    ensures SortedBy(InsertBy(x, s, le), le)
    ensures forall y :: y in InsertBy(x, s, le) <==> y == x || y in s
  {
    if s == [] || le(x, s[0]) {
      var r := [x] + s;
      forall i, j | 0 <= i < j < |r| ensures le(r[i], r[j]) {
        if i == 0 && j > 1 {
          assert le(x, s[0]) && le(s[0], s[j - 1]);
        }
      }
    } else {
      var t := InsertBy(x, s[1..], le);
      assert SortedBy(s[1..], le);
      InsertByCorrect(x, s[1..], le);
      assert s == [s[0]] + s[1..];
      var r := [s[0]] + t;
      assert le(s[0], x);
      forall i, j | 0 <= i < j < |r| ensures le(r[i], r[j]) {
        if i == 0 {
          assert r[j] in t;
          assert r[j] == x || r[j] in s[1..];
        }
      }
    }
  }

  lemma {:induction false} SortByCorrect<T(!new)>(s: seq<T>, le: (T, T) -> bool)
    requires TotalPreorder(le)
    ensures multiset(SortBy(s, le)) == multiset(s)
    ensures SortedBy(SortBy(s, le), le)
    ensures |SortBy(s, le)| == |s|
  {
    if s != [] {
      SortByCorrect(s[1..], le);
      InsertByCorrect(s[0], SortBy(s[1..], le), le);
      assert s == [s[0]] + s[1..];
    }
  }

  /** SQL `OFFSET offset LIMIT limit` applied to `s`. */
  function Page<T>(s: seq<T>, offset: nat, limit: nat): (r: seq<T>)
    ensures |r| <= limit
    ensures |r| == if offset >= |s| then 0 else Min(limit, |s| - offset)
    ensures forall i | 0 <= i < |r| :: r[i] == s[offset + i]
    ensures forall x | x in r :: x in s
  {
    if offset >= |s| then [] else s[offset..][..Min(limit, |s| - offset)]
  }

  /** A set whose every element occurs in `s` has at most `|s|` elements. */
  lemma {:induction false} SubsetOfSeqSize<T>(t: set<T>, s: seq<T>)
    requires forall x | x in t :: x in s
    ensures |t| <= |s|
  {
    if s != [] {
      var rest := t - {s[0]};
      forall x | x in rest ensures x in s[1..] {
        assert x in s && x != s[0];
      }
      SubsetOfSeqSize(rest, s[1..]);
    } else {
      assert t == {};
    }
  }

  function Min(a: int, b: int): int { if a <= b then a else b }
}
