/**
 * `Array.prototype.sort(compareFn)` as the language defines it since ES2019:
 * a stable sort driven by a comparator. Modelled by insertion sort, which for
 * a comparator that is a total preorder yields the unique stable order.
 */
module StableSort {

  /** What a consistent comparator must satisfy: antisymmetric signs and a transitive `<= 0`. */
  ghost predicate TotalPreorder<T(!new)>(cmp: (T, T) -> int) {
    && (forall x, y :: cmp(x, y) < 0 <==> cmp(y, x) > 0)
    && (forall x, y, z :: cmp(x, y) <= 0 && cmp(y, z) <= 0 ==> cmp(x, z) <= 0)
  }

  /** Elements of one class `k >= 0` compare equal. */
  ghost predicate ClassesTie<T(!new)>(cmp: (T, T) -> int, cls: T -> int) {
    forall x, y :: cls(x) >= 0 && cls(x) == cls(y) ==> cmp(x, y) == 0
  }

  /** `x` inserted behind `s`: it moves before every element the comparator puts after it. */
  function Insert<T>(s: seq<T>, x: T, cmp: (T, T) -> int): seq<T> {
    if s == [] || cmp(s[|s| - 1], x) <= 0 then s + [x]
    else Insert(s[..|s| - 1], x, cmp) + [s[|s| - 1]]
  }

  function InsertionSort<T>(s: seq<T>, cmp: (T, T) -> int): seq<T> {
    if s == [] then [] else Insert(InsertionSort(s[..|s| - 1], cmp), s[|s| - 1], cmp)
  }

  predicate SortedBy<T>(s: seq<T>, cmp: (T, T) -> int) {
    forall i, j :: 0 <= i < j < |s| ==> cmp(s[i], s[j]) <= 0
  }

  /** The elements of class `k`, in their order in `s`. */
  function InClass<T>(s: seq<T>, cls: T -> int, k: int): seq<T> {
    if s == [] then []
    else InClass(s[..|s| - 1], cls, k) + (if cls(s[|s| - 1]) == k then [s[|s| - 1]] else [])
  }

  lemma {:induction false} InClassAppend<T>(a: seq<T>, b: seq<T>, cls: T -> int, k: int)
    ensures InClass(a + b, cls, k) == InClass(a, cls, k) + InClass(b, cls, k)
    decreases |b|
  {
    if b != [] {
      InClassAppend(a, b[..|b| - 1], cls, k);
      assert (a + b)[..|a + b| - 1] == a + b[..|b| - 1];
    } else {
      assert a + b == a;
    }
  }

  lemma {:induction false} InsertPermutes<T>(s: seq<T>, x: T, cmp: (T, T) -> int)
    ensures multiset(Insert(s, x, cmp)) == multiset(s) + multiset{x}
    decreases |s|
  {
    if s != [] && cmp(s[|s| - 1], x) > 0 {
      InsertPermutes(s[..|s| - 1], x, cmp);
      assert s == s[..|s| - 1] + [s[|s| - 1]];
    }
  }

  lemma {:induction false} InsertElements<T>(s: seq<T>, x: T, cmp: (T, T) -> int)
    ensures forall y :: y in Insert(s, x, cmp) <==> y in s || y == x
    decreases |s|
  {
    if s != [] && cmp(s[|s| - 1], x) > 0 {
      InsertElements(s[..|s| - 1], x, cmp);
      assert s == s[..|s| - 1] + [s[|s| - 1]];
    }
  }

  /** Every element of `s` compares at most equal to `x`. */
  predicate AllUpTo<T>(s: seq<T>, x: T, cmp: (T, T) -> int) {
    forall i :: 0 <= i < |s| ==> cmp(s[i], x) <= 0
  }

  lemma AppendSorted<T>(s: seq<T>, x: T, cmp: (T, T) -> int)
    requires SortedBy(s, cmp) && AllUpTo(s, x, cmp)
    ensures SortedBy(s + [x], cmp)
  {
    var r := s + [x];
    forall i, j | 0 <= i < j < |r|
      ensures cmp(r[i], r[j]) <= 0
    {
      if j < |s| {
        assert r[i] == s[i] && r[j] == s[j];
      }
    }
  }

  lemma SortedUpToLast<T(!new)>(s: seq<T>, x: T, cmp: (T, T) -> int)
    requires TotalPreorder(cmp) && SortedBy(s, cmp) && s != [] && cmp(s[|s| - 1], x) <= 0
    ensures AllUpTo(s, x, cmp)
  {
    forall i | 0 <= i < |s|
      ensures cmp(s[i], x) <= 0
    {
      if i < |s| - 1 {
        assert cmp(s[i], s[|s| - 1]) <= 0;
      }
    }
  }

  lemma InsertedUpTo<T(!new)>(s: seq<T>, x: T, cmp: (T, T) -> int)
    requires TotalPreorder(cmp) && SortedBy(s, cmp) && s != [] && cmp(s[|s| - 1], x) > 0
    ensures AllUpTo(Insert(s[..|s| - 1], x, cmp), s[|s| - 1], cmp)
  {
    var init, last := s[..|s| - 1], s[|s| - 1];
    InsertElements(init, x, cmp);
    var r := Insert(init, x, cmp);
    forall i | 0 <= i < |r|
      ensures cmp(r[i], last) <= 0
    {
      var y := r[i];
      assert y in r;
      if y != x {
        var m :| 0 <= m < |init| && init[m] == y;
        assert s[m] == y;
      }
    }
  }

  lemma {:induction false} InsertSorted<T(!new)>(s: seq<T>, x: T, cmp: (T, T) -> int)
    requires TotalPreorder(cmp) && SortedBy(s, cmp)
    ensures SortedBy(Insert(s, x, cmp), cmp)
    decreases |s|
  {
    if s == [] {
    } else if cmp(s[|s| - 1], x) <= 0 {
      SortedUpToLast(s, x, cmp);
      AppendSorted(s, x, cmp);
    } else {
      var init := s[..|s| - 1];
      assert SortedBy(init, cmp);
      InsertSorted(init, x, cmp);
      InsertedUpTo(s, x, cmp);
      AppendSorted(Insert(init, x, cmp), s[|s| - 1], cmp);
    }
  }

  lemma {:induction false} InsertStable<T(!new)>(s: seq<T>, x: T, cmp: (T, T) -> int, cls: T -> int, k: int)
    requires ClassesTie(cmp, cls) && k >= 0
    ensures InClass(Insert(s, x, cmp), cls, k) == InClass(s, cls, k) + InClass([x], cls, k)
    decreases |s|
  {
    if s == [] || cmp(s[|s| - 1], x) <= 0 {
      InClassAppend(s, [x], cls, k);
    } else {
      var init, last := s[..|s| - 1], s[|s| - 1];
      InsertStable(init, x, cmp, cls, k);
      InClassAppend(Insert(init, x, cmp), [last], cls, k);
      InClassAppend(init, [last], cls, k);
      assert init + [last] == s;
      InClassSingle(x, cls, k);
      InClassSingle(last, cls, k);
    }
  }

  lemma InClassSingle<T>(x: T, cls: T -> int, k: int)
    ensures InClass([x], cls, k) == if cls(x) == k then [x] else []
  {
    assert [x][..0] == [];
  }

  /**
   * The sorted sequence is ordered by the comparator, is a permutation of the
   * input, and keeps the input order within every class of tying elements.
   */
  lemma {:induction false} InsertionSortCorrect<T(!new)>(s: seq<T>, cmp: (T, T) -> int, cls: T -> int)
    requires TotalPreorder(cmp) && ClassesTie(cmp, cls)
    ensures SortedBy(InsertionSort(s, cmp), cmp)
    ensures multiset(InsertionSort(s, cmp)) == multiset(s)
    ensures forall k :: k >= 0 ==> InClass(InsertionSort(s, cmp), cls, k) == InClass(s, cls, k)
    decreases |s|
  {
    if s != [] {
      var init, last := s[..|s| - 1], s[|s| - 1];
      InsertionSortCorrect(init, cmp, cls);
      InsertSorted(InsertionSort(init, cmp), last, cmp);
      InsertPermutes(InsertionSort(init, cmp), last, cmp);
      assert s == init + [last];
      forall k | k >= 0
        ensures InClass(InsertionSort(s, cmp), cls, k) == InClass(s, cls, k)
      {
        InsertStable(InsertionSort(init, cmp), last, cmp, cls, k);
        InClassAppend(init, [last], cls, k);
        assert [last][..0] == [];
      }
    }
  }

  lemma SortPrefixStep<T>(s: seq<T>, i: nat, cmp: (T, T) -> int)
    requires i < |s|
    ensures InsertionSort(s[..i + 1], cmp) == Insert(InsertionSort(s[..i], cmp), s[i], cmp)
  {
    assert s[..i + 1][..i] == s[..i];
  }

  lemma InsertPastGreater<T>(p: seq<T>, y: T, x: T, rest: seq<T>, cmp: (T, T) -> int)
    requires cmp(y, x) > 0
    ensures Insert(p + [y], x, cmp) + rest == Insert(p, x, cmp) + ([y] + rest)
  {
    assert (p + [y])[..|p + [y]| - 1] == p;
  }

  lemma InsertAfterNotGreater<T>(p: seq<T>, x: T, rest: seq<T>, cmp: (T, T) -> int)
    requires p == [] || cmp(p[|p| - 1], x) <= 0
    ensures Insert(p, x, cmp) + rest == p + [x] + rest
  {
  }

  /** What swapping the neighbours at `j - 1` and `j` leaves of each part of `b`. */
  lemma SwapSlices<T>(b: seq<T>, c: seq<T>, j: nat, i: nat)
    requires 0 < j <= i < |b| && c == b[j - 1 := b[j]][j := b[j - 1]]
    ensures c[..j - 1] == b[..j - 1]
    ensures c[j - 1] == b[j]
    ensures c[j..i + 1] == [b[j - 1]] + b[j + 1..i + 1]
    ensures c[i + 1..] == b[i + 1..]
  {
  }

  /** Moves `a[i]` leftwards past the greater elements of the sorted prefix `a[..i]`. */
  method InsertAt<T>(a: array<T>, i: nat, cmp: (T, T) -> int)
    requires i < a.Length
    modifies a
    ensures a[..i + 1] == Insert(old(a[..i]), old(a[i]), cmp)
    ensures a[i + 1..] == old(a[i + 1..])
  {
    ghost var sorted, tail := a[..i], a[i + 1..];
    var x := a[i];
    var j := i;
    while j > 0 && cmp(a[j - 1], x) > 0
      invariant 0 <= j <= i
      invariant a[j] == x
      invariant Insert(sorted, x, cmp) == Insert(a[..j], x, cmp) + a[j + 1..i + 1]
      invariant a[i + 1..] == tail
    {
      ghost var b := a[..];
      InsertPastGreater(b[..j - 1], b[j - 1], x, b[j + 1..i + 1], cmp);
      assert b[..j] == b[..j - 1] + [b[j - 1]];
      a[j - 1], a[j] := a[j], a[j - 1];
      SwapSlices(b, a[..], j, i);
      j := j - 1;
    }
    InsertAfterNotGreater(a[..j], x, a[j + 1..i + 1], cmp);
    assert a[..i + 1] == a[..j] + [x] + a[j + 1..i + 1];
  }

  /** `a.sort(cmp)`, in place. */
  method SortInPlace<T>(a: array<T>, cmp: (T, T) -> int)
    modifies a
    ensures a[..] == InsertionSort(old(a[..]), cmp)
  {
    ghost var s := a[..];
    var i := 0;
    while i < a.Length
      invariant 0 <= i <= a.Length
      invariant a[..i] == InsertionSort(s[..i], cmp)
      invariant a[i..] == s[i..]
    {
      InsertAt(a, i, cmp);
      SortPrefixStep(s, i, cmp);
      assert a[i + 1..] == s[i + 1..];
      i := i + 1;
    }
    assert a[..] == a[..a.Length] && s == s[..a.Length];
  }
}
