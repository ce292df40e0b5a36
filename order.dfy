/**
 * The comparator `compareVectors` and the ascending sort that `median`
 * obtains from `qsort` with it.
 */
module Order {

  /**
   * `compareVectors`: `(a > b) - (a < b)`, C's difference of two truth values,
   * hence the sign of `a - b`.
   */
  function CompareVectors(a: real, b: real): (r: int)
    ensures r == -1 <==> a < b
    ensures r == 0 <==> a == b
    ensures r == 1 <==> a > b
  {
    (if a > b then 1 else 0) - (if a < b then 1 else 0)
  }

  /** Swapping the arguments negates the comparison. */
  lemma CompareAntisymmetric(a: real, b: real)
    ensures CompareVectors(a, b) == -CompareVectors(b, a)
  {
  }

  /** The comparator orders like `<=`, so it is transitive: a total preorder. */
  lemma CompareTransitive(a: real, b: real, c: real)
    requires CompareVectors(a, b) <= 0 && CompareVectors(b, c) <= 0
    ensures CompareVectors(a, c) <= 0
  {
  }

  /** Ascending in the order `compareVectors` defines: what `qsort` leaves behind. */
  predicate Ascending(s: seq<real>) {
    forall i, j :: 0 <= i < j < |s| ==> CompareVectors(s[i], s[j]) <= 0
  }

  /** Puts `x` before the first element of the ascending `t` that is not smaller. */
  function Insert(x: real, t: seq<real>): (u: seq<real>)
    ensures multiset(u) == multiset(t) + multiset{x}
  {
    if t == [] then [x]
    else if x <= t[0] then [x] + t
    else
      assert t == [t[0]] + t[1..];
      [t[0]] + Insert(x, t[1..])
  }

  /** Inserting into an ascending sequence keeps it ascending. */
  lemma {:induction false} InsertAscending(x: real, t: seq<real>)
    requires Ascending(t)
    ensures Ascending(Insert(x, t))
  {
    if t != [] && x > t[0] {
      var rest := Insert(x, t[1..]);
      InsertAscending(x, t[1..]);
      forall k | 0 <= k < |rest|
        ensures t[0] <= rest[k]
      {
        assert rest[k] in multiset(rest);
        assert rest[k] == x || rest[k] in multiset(t[1..]);
        if rest[k] != x {
          assert rest[k] in t[1..];
        }
      }
    }
  }

  /** The sorted copy of `s`: its elements in ascending order, as a function. */
  ghost function SortedOf(s: seq<real>): (t: seq<real>)
    ensures multiset(t) == multiset(s)
    ensures Ascending(t)
  {
    if s == [] then []
    else
      assert s == [s[0]] + s[1..];
      InsertAscending(s[0], SortedOf(s[1..]));
      Insert(s[0], SortedOf(s[1..]))
  }

  /** The first element of an ascending sequence is a least one. */
  lemma HeadIsLeast(s: seq<real>, x: real)
    requires Ascending(s) && x in multiset(s)
    ensures s[0] <= x
  {
    var i :| 0 <= i < |s| && s[i] == x;
    assert i == 0 || CompareVectors(s[0], s[i]) <= 0;
  }

  /**
   * Two ascending arrangements of the same values are the same sequence, so
   * whatever algorithm `qsort` runs, its result is `SortedOf` its input.
   */
  lemma {:induction false} AscendingPermutationUnique(a: seq<real>, b: seq<real>)
    requires Ascending(a) && Ascending(b)
    requires multiset(a) == multiset(b)
    ensures a == b
  {
    assert |a| == |multiset(a)| == |multiset(b)| == |b|;
    if a != [] {
      HeadIsLeast(a, b[0]);
      HeadIsLeast(b, a[0]);
      assert a[0] == b[0];
      assert a == [a[0]] + a[1..];
      assert b == [b[0]] + b[1..];
      assert multiset(a[1..]) == multiset(b[1..]) by {
        assert multiset(a) == multiset{a[0]} + multiset(a[1..]);
        assert multiset(b) == multiset{b[0]} + multiset(b[1..]);
        forall y ensures multiset(a[1..])[y] == multiset(b[1..])[y] {
          assert multiset(a)[y] == multiset(b)[y];
        }
      }
      AscendingPermutationUnique(a[1..], b[1..]);
    }
  }

  /** An ascending sequence is its own sorted copy. */
  lemma AscendingIsSorted(s: seq<real>)
    requires Ascending(s)
    ensures SortedOf(s) == s
  {
    AscendingPermutationUnique(SortedOf(s), s);
  }

  method Swap(a: array<real>, i: int, j: int)
    requires 0 <= i < a.Length && 0 <= j < a.Length
    modifies a
    ensures a[i] == old(a[j]) && a[j] == old(a[i])
    ensures forall k :: 0 <= k < a.Length && k != i && k != j ==> a[k] == old(a[k])
    ensures multiset(a[..]) == old(multiset(a[..]))
  {
    a[i], a[j] := a[j], a[i];
  }

  /**
   * `qsort(a, n, sizeof(float), compareVectors)`: leaves `a` ascending under
   * `compareVectors` and a permutation of what it held. The library's own
   * algorithm is not visible; an insertion sort stands in for it.
   */
  method Sort(a: array<real>)
    modifies a
    ensures Ascending(a[..])
    ensures multiset(a[..]) == old(multiset(a[..]))
    ensures a[..] == SortedOf(old(a[..]))
  {
    for i := 0 to a.Length
      invariant forall k, l :: 0 <= k < l < i ==> a[k] <= a[l]
      invariant multiset(a[..]) == old(multiset(a[..]))
    {
      var j := i;
      while j > 0 && a[j - 1] > a[j]
        invariant 0 <= j <= i
        invariant forall k, l :: 0 <= k < l <= i && l != j ==> a[k] <= a[l]
        invariant multiset(a[..]) == old(multiset(a[..]))
      {
        Swap(a, j - 1, j);
        j := j - 1;
      }
    }
    AscendingPermutationUnique(a[..], SortedOf(old(a[..])));
  }
}
