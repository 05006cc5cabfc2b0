/**
 * The runtime's `Array.prototype.sort` with a numeric comparator
 * `(a, b) => key(a) - key(b)`: a stable sort by ascending key, done in place.
 */
module StableSort {

  ghost predicate SortedBy<T>(s: seq<T>, key: T -> int) {
    forall i, j :: 0 <= i < j < |s| ==> key(s[i]) <= key(s[j])
  }

  /** Insert `x` after every element whose key is not greater: one step of a stable insertion sort. */
  function InsertBy<T>(s: seq<T>, x: T, key: T -> int): seq<T> {
    if s == [] then [x]
    else if key(s[|s| - 1]) > key(x) then InsertBy(s[..|s| - 1], x, key) + [s[|s| - 1]]
    else s + [x]
  }

  /** The stable sort by ascending key. */
  function SortBy<T>(s: seq<T>, key: T -> int): seq<T> {
    if s == [] then [] else InsertBy(SortBy(s[..|s| - 1], key), s[|s| - 1], key)
  }

  /** The elements whose key is `k`, in order. */
  function WithKey<T>(s: seq<T>, key: T -> int, k: int): seq<T> {
    if s == [] then []
    else WithKey(s[..|s| - 1], key, k) + (if key(s[|s| - 1]) == k then [s[|s| - 1]] else [])
  }

  lemma WithKeyAppend<T>(s: seq<T>, x: T, key: T -> int, k: int)
    ensures WithKey(s + [x], key, k) == WithKey(s, key, k) + WithKey([x], key, k)
  {
    assert (s + [x])[..|s|] == s;
    assert [x][..0] == [];
  }

  lemma {:induction false} InsertByElements<T>(s: seq<T>, x: T, key: T -> int)
    ensures multiset(InsertBy(s, x, key)) == multiset(s) + multiset{x}
  {
    if s != [] && key(s[|s| - 1]) > key(x) {
      var init, last := s[..|s| - 1], s[|s| - 1];
      assert s == init + [last];
      InsertByElements(init, x, key);
    }
  }

  lemma {:induction false} InsertByStable<T>(s: seq<T>, x: T, key: T -> int, k: int)
    ensures WithKey(InsertBy(s, x, key), key, k) == WithKey(s, key, k) + WithKey([x], key, k)
  {
    assert [x][..0] == [];
    if s == [] {
    } else if key(s[|s| - 1]) > key(x) {
      var init, last := s[..|s| - 1], s[|s| - 1];
      assert s == init + [last];
      InsertByStable(init, x, key, k);
      WithKeyAppend(InsertBy(init, x, key), last, key, k);
      WithKeyAppend(init, last, key, k);
      assert [last][..0] == [];
    } else {
      WithKeyAppend(s, x, key, k);
    }
  }

  lemma {:induction false} InsertBySorted<T>(s: seq<T>, x: T, key: T -> int)
    requires SortedBy(s, key)
    ensures SortedBy(InsertBy(s, x, key), key)
  {
    if s != [] && key(s[|s| - 1]) > key(x) {
      var init, last := s[..|s| - 1], s[|s| - 1];
      assert s == init + [last];
      InsertBySorted(init, x, key);
      InsertByElements(init, x, key);
      var t := InsertBy(init, x, key);
      forall i, j | 0 <= i < j < |t + [last]| ensures key((t + [last])[i]) <= key((t + [last])[j]) {
        if j == |t| {
          var e := t[i];
          assert e in multiset(t);
          assert e == x || e in multiset(init);
        } else {
          assert (t + [last])[i] == t[i] && (t + [last])[j] == t[j];
        }
      }
    }
  }

  /**
   * Sorting yields the same elements, in ascending key order, and keeps the
   * input order among elements with equal keys (stability).
   */
  lemma {:induction false} SortBySpec<T>(s: seq<T>, key: T -> int)
    ensures SortedBy(SortBy(s, key), key)
    ensures multiset(SortBy(s, key)) == multiset(s)
    ensures |SortBy(s, key)| == |s|
    ensures forall k :: WithKey(SortBy(s, key), key, k) == WithKey(s, key, k)
  {
    if s != [] {
      var init, last := s[..|s| - 1], s[|s| - 1];
      assert s == init + [last];
      SortBySpec(init, key);
      InsertByElements(SortBy(init, key), last, key);
      InsertBySorted(SortBy(init, key), last, key);
      forall k ensures WithKey(SortBy(s, key), key, k) == WithKey(s, key, k) {
        InsertByStable(SortBy(init, key), last, key, k);
        WithKeyAppend(init, last, key, k);
      }
      assert |SortBy(s, key)| == |multiset(SortBy(s, key))|;
    }
  }

  /** Sorting an already sorted list changes nothing. */
  lemma {:induction false} SortBySorted<T>(s: seq<T>, key: T -> int)
    requires SortedBy(s, key)
    ensures SortBy(s, key) == s
  {
    if s != [] {
      var init := s[..|s| - 1];
      assert SortedBy(init, key);
      SortBySorted(init, key);
      assert s == init + [s[|s| - 1]];
    }
  }

  /** Sorting twice is sorting once. */
  lemma SortByIdempotent<T>(s: seq<T>, key: T -> int)
    ensures SortBy(SortBy(s, key), key) == SortBy(s, key)
  {
    SortBySpec(s, key);
    SortBySorted(SortBy(s, key), key);
  }

  /**
   * Stable insertion puts `x` right after the last element whose key is
   * not greater, i.e. in front of the maximal suffix of greater keys.
   */
  lemma {:induction false} InsertByAt<T>(s: seq<T>, x: T, key: T -> int, j: nat)
    requires j <= |s|
    requires j == 0 || key(s[j - 1]) <= key(x)
    requires forall k :: j <= k < |s| ==> key(s[k]) > key(x)
    ensures InsertBy(s, x, key) == s[..j] + [x] + s[j..]
    decreases |s|
  {
    if j < |s| {
      var init := s[..|s| - 1];
      InsertByAt(init, x, key, j);
      assert s[..j] == init[..j];
      assert s[j..] == init[j..] + [s[|s| - 1]];
    }
  }

  /** Every key of `s[j..]` exceeds `key(x)`. */
  ghost predicate GreaterFrom<T>(s: seq<T>, j: nat, key: T -> int, x: T) {
    forall k :: j <= k < |s| ==> key(s[k]) > key(x)
  }

  /**
   * The array during one insertion pass: `s[g..i]` has moved one place to
   * the right over `s[i]`, so `s[g]` now occurs twice and position `g` is
   * the gap.
   */
  ghost function Gap<T>(s: seq<T>, g: nat, i: nat): seq<T>
    requires g <= i < |s|
  {
    s[..g + 1] + s[g..i] + s[i + 1..]
  }

  /** Copying the element left of the gap into it moves the gap one place left. */
  lemma GapStep<T>(s: seq<T>, g: nat, i: nat)
    requires 0 < g <= i < |s|
    ensures |Gap(s, g, i)| == |s|
    ensures Gap(s, g, i)[g - 1] == s[g - 1]
    ensures Gap(s, g, i)[g := s[g - 1]] == Gap(s, g - 1, i)
  {
  }

  /** Writing `x` into the gap at `j` completes the stable insertion. */
  lemma GapInsert<T>(s: seq<T>, j: nat, i: nat, x: T, key: T -> int)
    requires j <= i < |s|
    requires j == 0 || key(s[j - 1]) <= key(x)
    requires GreaterFrom(s[..i], j, key, x)
    ensures Gap(s, j, i)[j := x][..i + 1] == InsertBy(s[..i], x, key)
    ensures Gap(s, j, i)[j := x][i + 1..] == s[i + 1..]
  {
    assert Gap(s, j, i)[j := x][..i + 1] == s[..j] + [x] + s[j..i];
    InsertByAt(s[..i], x, key, j);
    assert s[..i][..j] == s[..j] && s[..i][j..] == s[j..i];
  }

  /** One pass of the insertion sort: `a[i]` moves left past every greater key. */
  method InsertInPlace<T>(a: array<T>, key: T -> int, i: nat)
    requires i < a.Length
    modifies a
    ensures a[..i + 1] == InsertBy(old(a[..i]), old(a[i]), key)
    ensures a[i + 1..] == old(a[i + 1..])
  {
    ghost var full := a[..];
    var x := a[i];
    var j := i;
    assert full == Gap(full, i, i);
    while j > 0 && key(a[j - 1]) > key(x)
      invariant 0 <= j <= i
      invariant a[..] == Gap(full, j, i)
      invariant GreaterFrom(full[..i], j, key, x)
    {
      GapStep(full, j, i);
      a[j] := a[j - 1];
      j := j - 1;
    }
    if j > 0 {
      GapStep(full, j, i);
    }
    a[j] := x;
    GapInsert(full, j, i, x, key);
  }

  /** `a.sort((p, q) => key(p) - key(q))`, in place and stable. */
  method SortInPlace<T>(a: array<T>, key: T -> int)
    modifies a
    ensures a[..] == SortBy(old(a[..]), key)
  {
    ghost var input := a[..];
    for i := 0 to a.Length
      invariant a[..i] == SortBy(input[..i], key)
      invariant a[i..] == input[i..]
    {
      InsertInPlace(a, key, i);
      assert input[..i + 1][..i] == input[..i];
      assert a[i + 1..] == input[i + 1..];
    }
    assert input[..a.Length] == input;
  }
}
