/**
 * Sequence helpers shared by the model: JavaScript's insertion-ordered `Set`
 * (first occurrences in order), removal of one value, and "subsequence".
 */
module Collections {

  predicate NoDuplicates<T(==)>(s: seq<T>) {
    forall i, j :: 0 <= i < j < |s| ==> s[i] != s[j]
  }

  /** The position of the first occurrence of `x` in `s`. */
  function FirstIndex<T(==)>(s: seq<T>, x: T): (k: nat)
    requires x in s
    ensures k < |s| && s[k] == x
    ensures forall i :: 0 <= i < k ==> s[i] != x
  {
    if s[0] == x then 0 else 1 + FirstIndex(s[1..], x)
  }

  /** Appending an element moves no first occurrence; a new element occurs first at the end. */
  lemma FirstIndexSnoc<T>(s: seq<T>, x: T, y: T)
    requires y in s + [x]
    ensures y in s ==> FirstIndex(s + [x], y) == FirstIndex(s, y)
    ensures y !in s ==> FirstIndex(s + [x], y) == |s|
  {
    var k := FirstIndex(s + [x], y);
    if y in s {
      var j := FirstIndex(s, y);
      assert (s + [x])[j] == y;
      assert k <= j;
      assert s[k] == y;
    } else {
      assert forall i :: 0 <= i < |s| ==> (s + [x])[i] != y;
    }
  }

  /**
   * `Array.from(new Set(s))`: the distinct elements of `s`, each at the
   * position of its first occurrence (a JavaScript `Set` iterates in insertion order).
   */
  function Distinct<T(==,!new)>(s: seq<T>): (r: seq<T>)
    ensures NoDuplicates(r)
    ensures forall x :: x in r <==> x in s
    ensures |r| <= |s|
    ensures forall i, j :: 0 <= i < j < |r| ==> FirstIndex(s, r[i]) < FirstIndex(s, r[j])
  {
    if s == [] then []
    else
      var init := s[..|s| - 1];
      var d := Distinct(init);
      var x := s[|s| - 1];
      assert s == init + [x];
      assert forall y :: y in s <==> y in init || y == x;
      DistinctStep(init, x, d);
      if x in d then d else d + [x]
  }

  /** The first occurrences of `init`'s elements stay in order when `x` is appended. */
  lemma DistinctStep<T>(init: seq<T>, x: T, d: seq<T>)
    requires forall y :: y in d <==> y in init
    requires forall i, j :: 0 <= i < j < |d| ==> FirstIndex(init, d[i]) < FirstIndex(init, d[j])
    ensures x in d ==> forall i, j :: 0 <= i < j < |d| ==> FirstIndex(init + [x], d[i]) < FirstIndex(init + [x], d[j])
    ensures x !in d ==> forall i, j :: 0 <= i < j < |d + [x]| ==>
      FirstIndex(init + [x], (d + [x])[i]) < FirstIndex(init + [x], (d + [x])[j])
  {
    forall y | y in init {
      FirstIndexSnoc(init, x, y);
    }
    if x !in d {
      FirstIndexSnoc(init, x, x);
      forall i, j | 0 <= i < j < |d + [x]|
        ensures FirstIndex(init + [x], (d + [x])[i]) < FirstIndex(init + [x], (d + [x])[j])
      {
        assert (d + [x])[i] == d[i];
        if j == |d| {
          assert FirstIndex(init, d[i]) < |init|;
        } else {
          assert (d + [x])[j] == d[j];
        }
      }
    }
  }

  /** A sequence without duplicates is its own `Distinct`. */
  lemma {:induction false} DistinctOfDistinct<T(!new)>(s: seq<T>)
    requires NoDuplicates(s)
    ensures Distinct(s) == s
  {
    if s != [] {
      var init := s[..|s| - 1];
      DistinctOfDistinct(init);
      assert s[|s| - 1] !in init;
      assert init + [s[|s| - 1]] == s;
    }
  }

  /** `s` with every occurrence of `x` taken out, order kept. */
  function Remove<T(==,!new)>(s: seq<T>, x: T): (r: seq<T>)
    ensures forall y :: y in r <==> y in s && y != x
    ensures NoDuplicates(s) ==> NoDuplicates(r)
    ensures IsSubsequence(r, s)
  {
    if s == [] then []
    else
      var rest := Remove(s[1..], x);
      assert forall y :: y in s <==> y == s[0] || y in s[1..];
      if s[0] == x then rest
      else
        assert NoDuplicates(s) ==> s[0] !in s[1..];
        assert ([s[0]] + rest)[1..] == rest;
        [s[0]] + rest
  }

  /** `r` is obtained from `s` by deleting elements, without reordering. */
  predicate IsSubsequence<T(==)>(r: seq<T>, s: seq<T>)
    decreases |s|
  {
    if r == [] then true
    else if s == [] then false
    else (r[0] == s[0] && IsSubsequence(r[1..], s[1..])) || IsSubsequence(r, s[1..])
  }

  /** Appending the same element to both sides keeps a subsequence, and so does appending it to `s` alone. */
  lemma {:induction false} SubsequenceSnoc<T>(r: seq<T>, s: seq<T>, x: T)
    requires IsSubsequence(r, s)
    ensures IsSubsequence(r, s + [x]) && IsSubsequence(r + [x], s + [x])
    decreases |s|
  {
    var t := s + [x];
    if s == [] {
      assert [x][1..] == [];
    } else {
      assert t[0] == s[0] && t[1..] == s[1..] + [x];
      if r == [] {
        SubsequenceSnoc(r, s[1..], x);
      } else if r[0] == s[0] && IsSubsequence(r[1..], s[1..]) {
        SubsequenceSnoc(r[1..], s[1..], x);
        assert (r + [x])[0] == r[0] && (r + [x])[1..] == r[1..] + [x];
      } else {
        SubsequenceSnoc(r, s[1..], x);
      }
    }
  }

  lemma {:induction false} NoDuplicatesCount<T>(s: seq<T>, x: T)
    requires NoDuplicates(s)
    ensures multiset(s)[x] <= 1
  {
    if s != [] {
      assert NoDuplicates(s[1..]);
      NoDuplicatesCount(s[1..], x);
      assert s == [s[0]] + s[1..];
      assert s[0] !in s[1..];
    }
  }

  /** A rearrangement of a sequence without duplicates has none either. */
  lemma NoDuplicatesPermutation<T>(s: seq<T>, r: seq<T>)
    requires NoDuplicates(s) && multiset(r) == multiset(s)
    ensures NoDuplicates(r)
  {
    forall i, j | 0 <= i < j < |r| ensures r[i] != r[j] {
      if r[i] == r[j] {
        var x := r[i];
        assert r == r[..i] + [x] + r[i + 1..j] + [x] + r[j + 1..];
        assert multiset(r)[x] >= 2;
        NoDuplicatesCount(s, x);
      }
    }
  }
}
