/**
 * `Array.prototype.sort(comparator)` on a copy: a stable sort driven by a
 * comparator that returns a negative number, zero or a positive number.
 *
 * The sort is written as an insertion sort, and `StableSortIsUnique` shows
 * that every sorted, stable rearrangement of the input equals it, so the
 * model agrees with any stable sorting algorithm an engine may use.
 */
module StableSort {

  /** `cmp(a, b) <= 0` is total and transitive: a total preorder. */
  ghost predicate TotalPreorder<T(!new)>(cmp: (T, T) -> int) {
    && (forall a, b :: cmp(a, b) <= 0 || cmp(b, a) <= 0)
    && (forall a, b, c {:trigger cmp(a, b), cmp(b, c), cmp(a, c)} :: cmp(a, b) <= 0 && cmp(b, c) <= 0 ==> cmp(a, c) <= 0)
  }

  /** Neither element sorts strictly before the other. */
  predicate Equivalent<T>(cmp: (T, T) -> int, a: T, b: T) {
    cmp(a, b) <= 0 && cmp(b, a) <= 0
  }

  predicate SortedBy<T>(s: seq<T>, cmp: (T, T) -> int) {
    forall i, j :: 0 <= i < j < |s| ==> cmp(s[i], s[j]) <= 0
  }

  /** The elements of `s` equivalent to `e`, in their order in `s`. */
  function SameKey<T(!new)>(s: seq<T>, cmp: (T, T) -> int, e: T): (r: seq<T>)
    ensures forall x :: x in r <==> x in s && Equivalent(cmp, x, e)
  {
    if s == [] then []
    else
      assert forall x :: x in s <==> x == s[0] || x in s[1..];
      (if Equivalent(cmp, s[0], e) then [s[0]] else []) + SameKey(s[1..], cmp, e)
  }

  /** Insert `x` before the first element it does not sort after. */
  function Insert<T>(x: T, t: seq<T>, cmp: (T, T) -> int): seq<T> {
    if t == [] || cmp(x, t[0]) <= 0 then [x] + t
    else [t[0]] + Insert(x, t[1..], cmp)
  }

  /** `[...s].sort(cmp)`. */
  function SortWith<T>(s: seq<T>, cmp: (T, T) -> int): seq<T> {
    if s == [] then [] else Insert(s[0], SortWith(s[1..], cmp), cmp)
  }

  lemma {:induction false} InsertPermutes<T>(x: T, t: seq<T>, cmp: (T, T) -> int)
    ensures multiset(Insert(x, t, cmp)) == multiset(t) + multiset{x}
  {
    if t != [] && cmp(x, t[0]) > 0 {
      InsertPermutes(x, t[1..], cmp);
      assert t == [t[0]] + t[1..];
    }
  }

  lemma {:induction false} InsertSorted<T(!new)>(x: T, t: seq<T>, cmp: (T, T) -> int)
    requires TotalPreorder(cmp) && SortedBy(t, cmp)
    ensures SortedBy(Insert(x, t, cmp), cmp)
  {
    if t == [] || cmp(x, t[0]) <= 0 {
      forall y | y in t ensures cmp(x, y) <= 0 {
        var j :| 0 <= j < |t| && t[j] == y;
        if j > 0 {
          TransitiveAt(cmp, x, t[0], y);
        }
      }
      ConsSorted(x, t, cmp);
    } else {
      var rest := Insert(x, t[1..], cmp);
      InsertSorted(x, t[1..], cmp);
      InsertPermutes(x, t[1..], cmp);
      forall y | y in rest ensures cmp(t[0], y) <= 0 {
        assert y in multiset(rest);
        if y == x {
          TotalAt(cmp, x, t[0]);
        } else {
          var j :| 0 <= j < |t[1..]| && t[1..][j] == y;
          assert t[j + 1] == y;
        }
      }
      ConsSorted(t[0], rest, cmp);
    }
  }

  /** Putting in front an element that sorts before every element keeps a sequence sorted. */
  lemma ConsSorted<T>(x: T, t: seq<T>, cmp: (T, T) -> int)
    requires SortedBy(t, cmp)
    requires forall y :: y in t ==> cmp(x, y) <= 0
    ensures SortedBy([x] + t, cmp)
  {
    var u := [x] + t;
    forall i, j | 0 <= i < j < |u| ensures cmp(u[i], u[j]) <= 0 {
      if i == 0 {
        assert u[j] in t;
      } else {
        assert u[i] == t[i - 1] && u[j] == t[j - 1];
      }
    }
  }

  lemma TotalAt<T(!new)>(cmp: (T, T) -> int, a: T, b: T)
    requires TotalPreorder(cmp)
    ensures cmp(a, b) <= 0 || cmp(b, a) <= 0
  {
  }

  lemma TransitiveAt<T(!new)>(cmp: (T, T) -> int, a: T, b: T, c: T)
    requires TotalPreorder(cmp)
    requires cmp(a, b) <= 0 && cmp(b, c) <= 0
    ensures cmp(a, c) <= 0
  {
  }

  /** `[e]` when `a` is equivalent to `e`, otherwise nothing. */
  function KeyHead<T>(a: T, cmp: (T, T) -> int, e: T): seq<T> {
    if Equivalent(cmp, a, e) then [a] else []
  }

  lemma SameKeyCons<T(!new)>(a: T, u: seq<T>, cmp: (T, T) -> int, e: T)
    ensures SameKey([a] + u, cmp, e) == KeyHead(a, cmp, e) + SameKey(u, cmp, e)
  {
    assert ([a] + u)[1..] == u;
  }

  lemma SwapHeads<T>(h0: seq<T>, hx: seq<T>, rest: seq<T>)
    requires h0 == [] || hx == []
    ensures h0 + (hx + rest) == hx + (h0 + rest)
  {
    if h0 == [] {
      assert h0 + (hx + rest) == hx + rest == hx + (h0 + rest);
    } else {
      assert h0 + (hx + rest) == h0 + rest == hx + (h0 + rest);
    }
  }

  /** `SameKey` of a concatenation is the concatenation of the parts' `SameKey`. */
  lemma {:induction false} SameKeyAppend<T(!new)>(a: seq<T>, b: seq<T>, cmp: (T, T) -> int, e: T)
    ensures SameKey(a + b, cmp, e) == SameKey(a, cmp, e) + SameKey(b, cmp, e)
  {
    if a == [] {
      assert a + b == b;
    } else {
      var t := a[1..];
      assert a == [a[0]] + t;
      assert a + b == [a[0]] + (t + b);
      SameKeyCons(a[0], t + b, cmp, e);
      SameKeyCons(a[0], t, cmp, e);
      SameKeyAppend(t, b, cmp, e);
    }
  }

  /** Two elements of a class keep their relative order in `SameKey`. */
  lemma SameKeyKeepsOrder<T(!new)>(s: seq<T>, cmp: (T, T) -> int, e: T, i: int, j: int) returns (p: int, q: int)
    requires 0 <= i < j < |s| && Equivalent(cmp, s[i], e) && Equivalent(cmp, s[j], e)
    ensures 0 <= p < q < |SameKey(s, cmp, e)| && SameKey(s, cmp, e)[p] == s[i] && SameKey(s, cmp, e)[q] == s[j]
  {
    var x, y := s[i], s[j];
    var before, between, after := s[..i], s[i + 1..j], s[j + 1..];
    var tail := [y] + after;
    assert s == before + ([x] + (between + tail));
    SameKeyAppend(before, [x] + (between + tail), cmp, e);
    SameKeyCons(x, between + tail, cmp, e);
    SameKeyAppend(between, tail, cmp, e);
    SameKeyCons(y, after, cmp, e);
    var kb, km := SameKey(before, cmp, e), SameKey(between, cmp, e);
    var k := kb + ([x] + (km + ([y] + SameKey(after, cmp, e))));
    assert SameKey(s, cmp, e) == k;
    p, q := |kb|, |kb| + 1 + |km|;
    assert k[p] == x && k[q] == y;
  }

  /** Every element of `SameKey(t, ..)` stands at some position of `t`. */
  lemma SameKeyPosition<T(!new)>(t: seq<T>, cmp: (T, T) -> int, e: T, r: int) returns (b: int)
    requires 0 <= r < |SameKey(t, cmp, e)|
    ensures 0 <= b < |t| && t[b] == SameKey(t, cmp, e)[r]
  {
    var x := SameKey(t, cmp, e)[r];
    assert x in SameKey(t, cmp, e);
    b :| 0 <= b < |t| && t[b] == x;
  }

  /** Elements in order in `SameKey(s, ..)` are in that order in `s`. */
  lemma {:induction false} SameKeyPositions<T(!new)>(s: seq<T>, cmp: (T, T) -> int, e: T, p: int, q: int) returns (a: int, b: int)
    requires 0 <= p < q < |SameKey(s, cmp, e)|
    ensures 0 <= a < b < |s| && s[a] == SameKey(s, cmp, e)[p] && s[b] == SameKey(s, cmp, e)[q]
  {
    var k := SameKey(s, cmp, e);
    assert s != [];
    var t := s[1..];
    var rest := SameKey(t, cmp, e);
    if Equivalent(cmp, s[0], e) {
      assert k == [s[0]] + rest;
      if p == 0 {
        var c := SameKeyPosition(t, cmp, e, q - 1);
        a, b := 0, c + 1;
      } else {
        var c0, c1 := SameKeyPositions(t, cmp, e, p - 1, q - 1);
        a, b := c0 + 1, c1 + 1;
      }
    } else {
      assert k == rest;
      var c0, c1 := SameKeyPositions(t, cmp, e, p, q);
      a, b := c0 + 1, c1 + 1;
    }
  }

  /** Two elements that both sort after each other would both be equivalent to `e` only if `cmp(x, y) <= 0`. */
  lemma EquivalentsNotAbove<T(!new)>(cmp: (T, T) -> int, x: T, y: T, e: T)
    requires TotalPreorder(cmp)
    requires cmp(x, y) > 0
    ensures KeyHead(y, cmp, e) == [] || KeyHead(x, cmp, e) == []
  {
    if Equivalent(cmp, x, e) && Equivalent(cmp, y, e) {
      TransitiveAt(cmp, x, e, y);
    }
  }

  /** Inserting `x` adds it in front of the elements equivalent to it and leaves their order alone. */
  lemma {:induction false} InsertSameKey<T(!new)>(x: T, t: seq<T>, cmp: (T, T) -> int, e: T)
    requires TotalPreorder(cmp)
    ensures SameKey(Insert(x, t, cmp), cmp, e) == KeyHead(x, cmp, e) + SameKey(t, cmp, e)
  {
    if t == [] || cmp(x, t[0]) <= 0 {
      SameKeyCons(x, t, cmp, e);
    } else {
      var u := Insert(x, t[1..], cmp);
      InsertSameKey(x, t[1..], cmp, e);
      SameKeyCons(t[0], u, cmp, e);
      assert t == [t[0]] + t[1..];
      SameKeyCons(t[0], t[1..], cmp, e);
      EquivalentsNotAbove(cmp, x, t[0], e);
      SwapHeads(KeyHead(t[0], cmp, e), KeyHead(x, cmp, e), SameKey(t[1..], cmp, e));
    }
  }

  /**
   * `SortWith` returns a permutation of its input, ordered by `cmp`, in which
   * equivalent elements keep their input order (stability).
   */
  lemma {:induction false} SortWithCorrect<T(!new)>(s: seq<T>, cmp: (T, T) -> int)
    requires TotalPreorder(cmp)
    ensures multiset(SortWith(s, cmp)) == multiset(s)
    ensures SortedBy(SortWith(s, cmp), cmp)
    ensures forall e :: SameKey(SortWith(s, cmp), cmp, e) == SameKey(s, cmp, e)
  {
    if s != [] {
      var rest := SortWith(s[1..], cmp);
      SortWithCorrect(s[1..], cmp);
      InsertPermutes(s[0], rest, cmp);
      InsertSorted(s[0], rest, cmp);
      assert s == [s[0]] + s[1..];
      forall e ensures SameKey(SortWith(s, cmp), cmp, e) == SameKey(s, cmp, e) {
        InsertSameKey(s[0], rest, cmp, e);
        SameKeyCons(s[0], s[1..], cmp, e);
      }
    }
  }

  /** Sorting an already sorted sequence changes nothing. */
  lemma {:induction false} SortWithSortedIsIdentity<T>(s: seq<T>, cmp: (T, T) -> int)
    requires SortedBy(s, cmp)
    ensures SortWith(s, cmp) == s
  {
    if s != [] {
      assert SortedBy(s[1..], cmp);
      SortWithSortedIsIdentity(s[1..], cmp);
      assert s == [s[0]] + s[1..];
    }
  }

  /** Sorting twice is sorting once. */
  lemma SortWithIdempotent<T(!new)>(s: seq<T>, cmp: (T, T) -> int)
    requires TotalPreorder(cmp)
    ensures SortWith(SortWith(s, cmp), cmp) == SortWith(s, cmp)
  {
    SortWithCorrect(s, cmp);
    SortWithSortedIsIdentity(SortWith(s, cmp), cmp);
  }

  /** Two sorted sequences whose equivalence classes appear in the same order are equal. */
  lemma {:induction false} SortedSameKeysEqual<T(!new)>(r: seq<T>, q: seq<T>, cmp: (T, T) -> int)
    requires TotalPreorder(cmp)
    requires SortedBy(r, cmp) && SortedBy(q, cmp)
    requires forall e :: SameKey(r, cmp, e) == SameKey(q, cmp, e)
    ensures r == q
    decreases |r|
  {
    if r == [] || q == [] {
      if r != [] {
        InOwnClass(r, cmp);
      }
      if q != [] {
        InOwnClass(q, cmp);
      }
    } else {
      PeelHeads(r, q, cmp);
      SortedSameKeysEqual(r[1..], q[1..], cmp);
      ConsEqual(r, q);
    }
  }

  /** Removing the common head keeps both sequences sorted and their classes equal. */
  lemma PeelHeads<T(!new)>(r: seq<T>, q: seq<T>, cmp: (T, T) -> int)
    requires TotalPreorder(cmp)
    requires SortedBy(r, cmp) && SortedBy(q, cmp)
    requires r != [] && q != []
    requires forall e :: SameKey(r, cmp, e) == SameKey(q, cmp, e)
    ensures r[0] == q[0]
    ensures SortedBy(r[1..], cmp) && SortedBy(q[1..], cmp)
    ensures forall e :: SameKey(r[1..], cmp, e) == SameKey(q[1..], cmp, e)
  {
    HeadsAgree(r, q, cmp);
    forall e ensures SameKey(r[1..], cmp, e) == SameKey(q[1..], cmp, e) {
      SameKeyTail(r, q, cmp, e);
    }
  }

  lemma ConsEqual<T>(r: seq<T>, q: seq<T>)
    requires r != [] && q != [] && r[0] == q[0] && r[1..] == q[1..]
    ensures r == q
  {
    assert r == [r[0]] + r[1..] && q == [q[0]] + q[1..];
  }

  /** Two sorted sequences that agree on the classes of their heads start with the same element. */
  lemma HeadsAgree<T(!new)>(r: seq<T>, q: seq<T>, cmp: (T, T) -> int)
    requires TotalPreorder(cmp)
    requires SortedBy(r, cmp) && SortedBy(q, cmp)
    requires r != [] && q != []
    requires SameKey(r, cmp, r[0]) == SameKey(q, cmp, r[0])
    requires SameKey(r, cmp, q[0]) == SameKey(q, cmp, q[0])
    ensures r[0] == q[0]
  {
    TotalAt(cmp, r[0], r[0]);
    TotalAt(cmp, q[0], q[0]);
    assert r[0] in SameKey(r, cmp, r[0]);
    assert q[0] in SameKey(q, cmp, q[0]);
    assert cmp(q[0], r[0]) <= 0 by {
      var j :| 0 <= j < |q| && q[j] == r[0];
    }
    assert cmp(r[0], q[0]) <= 0 by {
      var j :| 0 <= j < |r| && r[j] == q[0];
    }
    SameKeyHead(r, cmp, r[0]);
    SameKeyHead(q, cmp, r[0]);
  }

  lemma InOwnClass<T(!new)>(s: seq<T>, cmp: (T, T) -> int)
    requires TotalPreorder(cmp) && s != []
    ensures s[0] in SameKey(s, cmp, s[0])
  {
    TotalAt(cmp, s[0], s[0]);
  }

  /** The first element of a sequence is the first of its own class. */
  lemma SameKeyHead<T(!new)>(s: seq<T>, cmp: (T, T) -> int, e: T)
    requires s != [] && Equivalent(cmp, s[0], e)
    ensures SameKey(s, cmp, e) != [] && SameKey(s, cmp, e)[0] == s[0]
  {
  }

  /** Equal classes in two sequences with the same head stay equal without it. */
  lemma SameKeyTail<T(!new)>(r: seq<T>, q: seq<T>, cmp: (T, T) -> int, e: T)
    requires r != [] && q != [] && r[0] == q[0]
    requires SameKey(r, cmp, e) == SameKey(q, cmp, e)
    ensures SameKey(r[1..], cmp, e) == SameKey(q[1..], cmp, e)
  {
    var hr := if Equivalent(cmp, r[0], e) then [r[0]] else [];
    assert SameKey(r, cmp, e) == hr + SameKey(r[1..], cmp, e);
    assert SameKey(q, cmp, e) == hr + SameKey(q[1..], cmp, e);
    assert (hr + SameKey(r[1..], cmp, e))[|hr|..] == SameKey(r[1..], cmp, e);
    assert (hr + SameKey(q[1..], cmp, e))[|hr|..] == SameKey(q[1..], cmp, e);
  }

  /**
   * Any sequence that is sorted by `cmp` and keeps every equivalence class of
   * `s` in its input order is exactly `SortWith(s, cmp)`.
   */
  lemma StableSortIsUnique<T(!new)>(s: seq<T>, r: seq<T>, cmp: (T, T) -> int)
    requires TotalPreorder(cmp)
    requires SortedBy(r, cmp)
    requires forall e :: SameKey(r, cmp, e) == SameKey(s, cmp, e)
    ensures r == SortWith(s, cmp)
  {
    SortWithCorrect(s, cmp);
    SortedSameKeysEqual(r, SortWith(s, cmp), cmp);
  }
}
