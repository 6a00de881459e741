// Window stacking levels and the stable descending sort by level that both
// window orders use to build their z-buffer (`sort_by(|a, b| b.1.cmp(&a.1))`).
module ZSort {

  /** `WindowZOrder`; the derived ordering is Back < Normal < Front. */
  datatype ZOrder = Back | Normal | Front

  function Rank(z: ZOrder): nat
  {
    match z
    case Back => 0
    case Normal => 1
    case Front => 2
  }

  /** The entries of `s` at level `level`, in their original order. */
  function Band<T>(s: seq<T>, z: T -> ZOrder, level: ZOrder): (r: seq<T>)
    ensures |r| <= |s|
    ensures forall k :: 0 <= k < |r| ==> z(r[k]) == level
  {
    if s == [] then []
    else if z(s[0]) == level then [s[0]] + Band(s[1..], z, level)
    else Band(s[1..], z, level)
  }

  /** Reference definition of the result: Front entries, then Normal, then Back, each band stable. */
  function Stacked<T>(s: seq<T>, z: T -> ZOrder): seq<T>
  {
    Band(s, z, Front) + Band(s, z, Normal) + Band(s, z, Back)
  }

  /**
   * Places `x` before the first entry whose level is not above its own; `x`
   * comes first in the input, so it precedes its equals (stability).
   */
  function Insert<T>(x: T, sorted: seq<T>, z: T -> ZOrder): (r: seq<T>)
    ensures |r| == |sorted| + 1
  {
    if sorted == [] || Rank(z(sorted[0])) <= Rank(z(x)) then [x] + sorted
    else [sorted[0]] + Insert(x, sorted[1..], z)
  }

  /** The sort the library performs, written as a stable insertion sort. */
  function SortDesc<T>(s: seq<T>, z: T -> ZOrder): (r: seq<T>)
    ensures |r| == |s|
  {
    if s == [] then [] else Insert(s[0], SortDesc(s[1..], z), z)
  }

  predicate SortedDesc<T>(s: seq<T>, z: T -> ZOrder)
  {
    forall i, j :: 0 <= i < j < |s| ==> Rank(z(s[i])) >= Rank(z(s[j]))
  }

  lemma {:induction false} InsertSkips<T>(x: T, a: seq<T>, b: seq<T>, z: T -> ZOrder)
    requires forall k :: 0 <= k < |a| ==> Rank(z(a[k])) > Rank(z(x))
    ensures Insert(x, a + b, z) == a + Insert(x, b, z)
  {
    if a != [] {
      var ab := a + b;
      assert ab[0] == a[0] && ab[1..] == a[1..] + b;
      assert Insert(x, ab, z) == [a[0]] + Insert(x, a[1..] + b, z);
      InsertSkips(x, a[1..], b, z);
      assert a + Insert(x, b, z) == [a[0]] + (a[1..] + Insert(x, b, z));
    } else {
      assert a + b == b;
    }
  }

  lemma {:induction false} InsertStops<T>(x: T, b: seq<T>, c: seq<T>, z: T -> ZOrder)
    requires b != [] ==> Rank(z(b[0])) <= Rank(z(x))
    requires b == [] ==> (c == [] || Rank(z(c[0])) <= Rank(z(x)))
    ensures Insert(x, b + c, z) == [x] + b + c
  {
  }

  lemma BandCons<T>(x: T, t: seq<T>, z: T -> ZOrder, level: ZOrder)
    ensures Band([x] + t, z, level) == (if z(x) == level then [x] else []) + Band(t, z, level)
  {
    assert ([x] + t)[1..] == t;
  }

  /** One insertion step keeps the three-band shape. */
  lemma {:induction false} InsertStacked<T>(x: T, t: seq<T>, z: T -> ZOrder)
    ensures Insert(x, Stacked(t, z), z) == Stacked([x] + t, z)
  {
    var f, n, b := Band(t, z, Front), Band(t, z, Normal), Band(t, z, Back);
    BandCons(x, t, z, Front);
    BandCons(x, t, z, Normal);
    BandCons(x, t, z, Back);
    match z(x)
    case Front => InsertFront(x, f, n, b, z);
    case Normal =>
      assert n != [] ==> z(n[0]) == Normal;
      assert b != [] ==> z(b[0]) == Back;
      InsertNormal(x, f, n, b, z);
    case Back => InsertBack(x, f, n, b, z);
  }

  lemma InsertFront<T>(x: T, f: seq<T>, n: seq<T>, b: seq<T>, z: T -> ZOrder)
    requires z(x) == Front
    ensures Insert(x, f + n + b, z) == [x] + f + n + b
  {
    assert f + n + b == f + (n + b);
    InsertStops(x, f, n + b, z);
  }

  lemma InsertNormal<T>(x: T, f: seq<T>, n: seq<T>, b: seq<T>, z: T -> ZOrder)
    requires z(x) == Normal
    requires forall k :: 0 <= k < |f| ==> z(f[k]) == Front
    requires n != [] ==> z(n[0]) == Normal
    requires n == [] && b != [] ==> z(b[0]) == Back
    ensures Insert(x, f + n + b, z) == f + ([x] + n) + b
  {
    var nb := n + b;
    var xn := [x] + n;
    Assoc(f, n, b);
    InsertSkips(x, f, nb, z);
    InsertStops(x, n, b, z);
    assert Insert(x, nb, z) == xn + b;
    Assoc(f, xn, b);
  }

  lemma Assoc<T>(a: seq<T>, b: seq<T>, c: seq<T>)
    ensures a + (b + c) == a + b + c
  {
  }

  lemma InsertBack<T>(x: T, f: seq<T>, n: seq<T>, b: seq<T>, z: T -> ZOrder)
    requires z(x) == Back
    requires forall k :: 0 <= k < |f| ==> z(f[k]) == Front
    requires forall k :: 0 <= k < |n| ==> z(n[k]) == Normal
    requires forall k :: 0 <= k < |b| ==> z(b[k]) == Back
    ensures Insert(x, f + n + b, z) == f + n + ([x] + b)
  {
    var fn := f + n;
    forall k | 0 <= k < |fn| ensures Rank(z(fn[k])) > 0 {
      if k < |f| {
        assert fn[k] == f[k];
      } else {
        assert fn[k] == n[k - |f|];
      }
    }
    InsertSkips(x, fn, b, z);
    assert Insert(x, b, z) == [x] + b;
  }

  /** The insertion sort and the three-band reference agree on every input. */
  lemma {:induction false} SortDescIsStacked<T>(s: seq<T>, z: T -> ZOrder)
    ensures SortDesc(s, z) == Stacked(s, z)
  {
    if s != [] {
      SortDescIsStacked(s[1..], z);
      InsertStacked(s[0], s[1..], z);
      assert [s[0]] + s[1..] == s;
    }
  }

  lemma {:induction false} BandMultiset<T>(s: seq<T>, z: T -> ZOrder)
    ensures multiset(Band(s, z, Front)) + multiset(Band(s, z, Normal)) + multiset(Band(s, z, Back))
         == multiset(s)
  {
    if s != [] {
      var t := s[1..];
      assert s == [s[0]] + t;
      BandMultiset(t, z);
      BandCons(s[0], t, z, Front);
      BandCons(s[0], t, z, Normal);
      BandCons(s[0], t, z, Back);
      assert multiset(s) == multiset{s[0]} + multiset(t);
    }
  }

  /** The level of the entry at position `k` of three consecutive bands. */
  lemma LevelAt<T>(f: seq<T>, n: seq<T>, b: seq<T>, z: T -> ZOrder, k: nat)
    requires forall i :: 0 <= i < |f| ==> z(f[i]) == Front
    requires forall i :: 0 <= i < |n| ==> z(n[i]) == Normal
    requires forall i :: 0 <= i < |b| ==> z(b[i]) == Back
    requires k < |f| + |n| + |b|
    ensures Rank(z((f + n + b)[k])) == if k < |f| then 2 else if k < |f| + |n| then 1 else 0
  {
    var r := f + n + b;
    if k < |f| {
      assert r[k] == f[k];
    } else if k < |f| + |n| {
      assert r[k] == n[k - |f|];
    } else {
      assert r[k] == b[k - |f| - |n|];
    }
  }

  /** The three bands, one after the other, are sorted by level with the highest first. */
  lemma StackedSorted<T>(s: seq<T>, z: T -> ZOrder)
    ensures SortedDesc(Stacked(s, z), z)
  {
    var f, n, b := Band(s, z, Front), Band(s, z, Normal), Band(s, z, Back);
    var r := f + n + b;
    forall i, j | 0 <= i < j < |r| ensures Rank(z(r[i])) >= Rank(z(r[j])) {
      LevelAt(f, n, b, z, i);
      LevelAt(f, n, b, z, j);
    }
  }

  /** Taking the bands apart again gives each level's entries in their input order. */
  lemma StackedStable<T>(s: seq<T>, z: T -> ZOrder, level: ZOrder)
    ensures Band(Stacked(s, z), z, level) == Band(s, z, level)
  {
    var f, n, b := Band(s, z, Front), Band(s, z, Normal), Band(s, z, Back);
    BandOnly(f, z, Front, level);
    BandOnly(n, z, Normal, level);
    BandOnly(b, z, Back, level);
    BandConcat(f, n, z, level);
    BandConcat(f + n, b, z, level);
  }

  /**
   * The z-buffer order: sorted by level with the highest first, a permutation of
   * its input, and stable — the entries of each level keep their input order.
   */
  lemma StackedSpec<T>(s: seq<T>, z: T -> ZOrder)
    ensures SortedDesc(Stacked(s, z), z)
    ensures multiset(Stacked(s, z)) == multiset(s)
    ensures forall level :: Band(Stacked(s, z), z, level) == Band(s, z, level)
  {
    BandMultiset(s, z);
    StackedSorted(s, z);
    forall level ensures Band(Stacked(s, z), z, level) == Band(s, z, level) {
      StackedStable(s, z, level);
    }
  }

  lemma {:induction false} BandConcat<T>(a: seq<T>, b: seq<T>, z: T -> ZOrder, level: ZOrder)
    ensures Band(a + b, z, level) == Band(a, z, level) + Band(b, z, level)
  {
    if a != [] {
      var ab := a + b;
      assert ab[0] == a[0] && ab[1..] == a[1..] + b;
      BandConcat(a[1..], b, z, level);
      if z(a[0]) == level {
        assert Band(ab, z, level) == [a[0]] + Band(a[1..] + b, z, level);
        assert Band(a, z, level) == [a[0]] + Band(a[1..], z, level);
      } else {
        assert Band(ab, z, level) == Band(a[1..] + b, z, level);
        assert Band(a, z, level) == Band(a[1..], z, level);
      }
    } else {
      assert a + b == b;
    }
  }

  /** A sequence whose entries all sit at level `at` contributes only to that band. */
  lemma {:induction false} BandOnly<T>(s: seq<T>, z: T -> ZOrder, at: ZOrder, level: ZOrder)
    requires forall k :: 0 <= k < |s| ==> z(s[k]) == at
    ensures Band(s, z, level) == if level == at then s else []
  {
    if s != [] {
      BandOnly(s[1..], z, at, level);
      assert s == [s[0]] + s[1..];
    }
  }

  /** The insertion sort inherits everything proved of the reference. */
  lemma SortDescSpec<T>(s: seq<T>, z: T -> ZOrder)
    ensures SortedDesc(SortDesc(s, z), z)
    ensures multiset(SortDesc(s, z)) == multiset(s)
    ensures forall level :: Band(SortDesc(s, z), z, level) == Band(s, z, level)
  {
    SortDescIsStacked(s, z);
    StackedSpec(s, z);
  }
}
