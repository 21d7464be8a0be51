/** Sorting and deduplicating in place, and the order on byte strings. */
module Sorting {
  import opened Bytes

  /** A strict total order. */
  ghost predicate StrictTotal<T(!new)>(lt: (T, T) -> bool) {
    && (forall a :: !lt(a, a))
    && (forall a, b :: lt(a, b) || a == b || lt(b, a))
    && (forall a, b, c :: lt(a, b) && lt(b, c) ==> lt(a, c))
  }

  /** Sorted without duplicates. */
  ghost predicate Ascending<T>(s: seq<T>, lt: (T, T) -> bool) {
    forall i, j :: 0 <= i < j < |s| ==> lt(s[i], s[j])
  }

  /** Byte strings in lexicographic order, a proper prefix first. */
  predicate Less(a: Bytes, b: Bytes) {
    |b| > 0 && (|a| == 0 || a[0] < b[0] || (a[0] == b[0] && Less(a[1..], b[1..])))
  }

  lemma LessIsStrictTotal()
    ensures StrictTotal(Less)
  {
    forall a: Bytes ensures !Less(a, a) {
      LessIrreflexive(a);
    }
    forall a: Bytes, b: Bytes ensures Less(a, b) || a == b || Less(b, a) {
      LessConnected(a, b);
    }
    forall a: Bytes, b: Bytes, c: Bytes | Less(a, b) && Less(b, c) ensures Less(a, c) {
      LessTransitive(a, b, c);
    }
  }

  lemma LessIrreflexive(a: Bytes)
    ensures !Less(a, a)
  {
    if |a| > 0 {
      LessIrreflexive(a[1..]);
    }
  }

  lemma LessConnected(a: Bytes, b: Bytes)
    ensures Less(a, b) || a == b || Less(b, a)
  {
    if |a| > 0 && |b| > 0 && a[0] == b[0] {
      LessConnected(a[1..], b[1..]);
      assert a == [a[0]] + a[1..] && b == [b[0]] + b[1..];
    }
  }

  lemma LessTransitive(a: Bytes, b: Bytes, c: Bytes)
    requires Less(a, b) && Less(b, c)
    ensures Less(a, c)
  {
    if |a| > 0 && a[0] == b[0] && b[0] == c[0] {
      LessTransitive(a[1..], b[1..], c[1..]);
    }
  }

  lemma HeadIsLeast<T>(s: seq<T>, x: T, lt: (T, T) -> bool)
    requires Ascending(s, lt) && x in s
    ensures s[0] == x || lt(s[0], x)
  {
  }

  /** A sorted, duplicate-free list is determined by its members. */
  lemma {:induction false} AscendingIsUnique<T>(s: seq<T>, t: seq<T>, lt: (T, T) -> bool)
    requires Ascending(s, lt) && Ascending(t, lt)
    requires forall a, b | a in s && b in s && lt(a, b) :: !lt(b, a)
    requires forall x :: x in s <==> x in t
    ensures s == t
  {
    if |t| > 0 {
      assert t[0] in s;
    }
    if |s| > 0 {
      assert s[0] in t;
      HeadIsLeast(s, t[0], lt);
      HeadIsLeast(t, s[0], lt);
      forall x ensures x in s[1..] <==> x in t[1..] {
        if x in s[1..] {
          var i :| 0 < i < |s| && s[i] == x;
          assert x in t && lt(s[0], x) && s[0] in s && x in s;
          assert !lt(x, x) && x != s[0];
        }
        if x in t[1..] {
          var j :| 0 < j < |t| && t[j] == x;
          assert x in s && lt(t[0], x) && t[0] in s;
          assert !lt(x, x) && x != t[0];
        }
      }
      AscendingIsUnique(s[1..], t[1..], lt);
      assert s == [s[0]] + s[1..] && t == [t[0]] + t[1..];
    }
  }

  /** Puts `x` where it belongs, once. */
  method Insert<T(==, !new)>(sorted: seq<T>, x: T, lt: (T, T) -> bool) returns (r: seq<T>)
    requires StrictTotal(lt) && Ascending(sorted, lt)
    ensures Ascending(r, lt)
    ensures forall y :: y in r <==> y == x || y in sorted
  {
    var i := 0;
    while i < |sorted| && lt(sorted[i], x)
      invariant 0 <= i <= |sorted|
      invariant forall k :: 0 <= k < i ==> lt(sorted[k], x)
    {
      i := i + 1;
    }
    assert forall k :: i < k < |sorted| ==> lt(sorted[i], sorted[k]);
    if i < |sorted| && sorted[i] == x {
      return sorted;
    }
    assert forall k :: i <= k < |sorted| ==> lt(x, sorted[k]);
    r := sorted[..i] + [x] + sorted[i..];
    assert sorted == sorted[..i] + sorted[i..];
  }

  /** `sort_unstable` and `dedup`: the members of `xs`, each once, in ascending order. */
  method SortDedup<T(==, !new)>(xs: seq<T>, lt: (T, T) -> bool) returns (ys: seq<T>)
    requires StrictTotal(lt)
    ensures Ascending(ys, lt)
    ensures forall y :: y in ys <==> y in xs
  {
    ys := [];
    for i := 0 to |xs|
      invariant Ascending(ys, lt)
      invariant forall y :: y in ys <==> y in xs[..i]
    {
      ys := Insert(ys, xs[i], lt);
      assert xs[..i + 1] == xs[..i] + [xs[i]];
    }
    assert xs[..|xs|] == xs;
  }
}
