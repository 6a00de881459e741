// Shared vocabulary: optional values, error returns, Rust's truncating integer
// division, and the sequence operations that Rust's Vec/VecDeque give the code
// (retain, remove, insert, position).
module Helpers {

  datatype Option<T> = None | Some(value: T)

  /** The errno values the display server hands back to clients. */
  datatype Errno = EBADF | EINVAL

  datatype Result<T> = Ok(value: T) | Err(error: Errno)

  function Min(a: int, b: int): int { if a <= b then a else b }
  function Max(a: int, b: int): int { if a >= b then a else b }

  /** Rust's `/` on signed integers: the quotient is rounded toward zero. */
  function DivTrunc(a: int, b: int): (q: int)
    requires b > 0
    ensures a >= 0 ==> q == a / b
    ensures a < 0 ==> q == -((-a) / b)
  {
    if a >= 0 then a / b
    else -((-a) / b)
  }

  /** Rust's `%` on signed integers: the remainder takes the sign of `a`. */
  function RemTrunc(a: int, b: int): (m: int)
    requires b > 0
    ensures a >= 0 ==> m == a % b
    ensures a < 0 ==> m == -((-a) % b)
  {
    a - DivTrunc(a, b) * b
  }

  /** `Vec::retain(|x| x != v)`: every occurrence of `v` dropped, the rest kept in order. */
  function RemoveAll<T(==)>(s: seq<T>, v: T): (r: seq<T>)
    ensures v !in r
    ensures |r| <= |s|
  {
    if s == [] then []
    else if s[0] == v then RemoveAll(s[1..], v)
    else [s[0]] + RemoveAll(s[1..], v)
  }

  /** `VecDeque::remove(i)`. */
  function RemoveAt<T>(s: seq<T>, i: nat): (r: seq<T>)
    requires i < |s|
    ensures |r| == |s| - 1
    ensures forall k :: 0 <= k < i ==> r[k] == s[k]
    ensures forall k :: i <= k < |r| ==> r[k] == s[k + 1]
  {
    s[..i] + s[i + 1..]
  }

  /** `VecDeque::insert(i, x)`. */
  function InsertAt<T>(s: seq<T>, i: nat, x: T): (r: seq<T>)
    requires i <= |s|
    ensures |r| == |s| + 1 && r[i] == x
    ensures forall k :: 0 <= k < i ==> r[k] == s[k]
    ensures forall k :: i < k < |r| ==> r[k] == s[k - 1]
  {
    s[..i] + [x] + s[i..]
  }

  /** `iter().position(|x| x == v)`: the first index holding `v`. */
  function IndexOf<T(==)>(s: seq<T>, v: T): (i: nat)
    requires v in s
    ensures i < |s| && s[i] == v
    ensures forall k :: 0 <= k < i ==> s[k] != v
  {
    if s[0] == v then 0 else 1 + IndexOf(s[1..], v)
  }

  /** `a` is `b` with some elements left out, the rest in their order. */
  predicate IsSubseq<T(==)>(a: seq<T>, b: seq<T>)
    decreases |b|
  {
    if a == [] then true
    else if b == [] then false
    else if a[0] == b[0] then IsSubseq(a[1..], b[1..])
    else IsSubseq(a, b[1..])
  }

  function Reverse<T>(s: seq<T>): (r: seq<T>)
    ensures |r| == |s|
  {
    if s == [] then [] else Reverse(s[1..]) + [s[0]]
  }

  lemma {:induction false} ReverseAt<T>(s: seq<T>, k: nat)
    requires k < |s|
    ensures Reverse(s)[k] == s[|s| - 1 - k]
  {
    if k < |s| - 1 {
      ReverseAt(s[1..], k);
    }
  }

  lemma {:induction false} SubseqRefl<T>(s: seq<T>)
    ensures IsSubseq(s, s)
  {
    if s != [] {
      SubseqRefl(s[1..]);
    }
  }

  /** `retain` removes exactly the occurrences of `v` and keeps the rest in order. */
  lemma {:induction false} RemoveAllSpec<T>(s: seq<T>, v: T)
    ensures multiset(RemoveAll(s, v)) == multiset(s)[v := 0]
    ensures IsSubseq(RemoveAll(s, v), s)
    ensures v !in s ==> RemoveAll(s, v) == s
  {
    if s != [] {
      RemoveAllSpec(s[1..], v);
      assert s == [s[0]] + s[1..];
      if s[0] != v {
        assert RemoveAll(s, v)[1..] == RemoveAll(s[1..], v);
      }
    }
  }

  lemma {:induction false} DropSubseq<T>(a: seq<T>, b: seq<T>)
    requires a != [] && IsSubseq(a, b)
    ensures IsSubseq(a[1..], b)
    decreases |b|, 1
  {
    if b != [] {
      if a[0] != b[0] {
        DropSubseq(a, b[1..]);
      }
      SubseqSkip(a[1..], b);
    }
  }

  lemma {:induction false} SubseqSkip<T>(a: seq<T>, b: seq<T>)
    requires |b| > 0 && IsSubseq(a, b[1..])
    ensures IsSubseq(a, b)
    decreases |b|, 0
  {
    if a != [] && a[0] == b[0] {
      DropSubseq(a, b[1..]);
    }
  }

  /** Removing one element keeps the rest in order. */
  lemma {:induction false} RemoveAtSubseq<T>(s: seq<T>, i: nat)
    requires i < |s|
    ensures IsSubseq(RemoveAt(s, i), s)
  {
    if i == 0 {
      assert RemoveAt(s, 0) == s[1..];
      SubseqRefl(s[1..]);
      SubseqSkip(s[1..], s);
    } else {
      RemoveAtSubseq(s[1..], i - 1);
      assert RemoveAt(s, i) == [s[0]] + RemoveAt(s[1..], i - 1);
    }
  }

  lemma InsertAtMultiset<T>(s: seq<T>, i: nat, x: T)
    requires i <= |s|
    ensures multiset(InsertAt(s, i, x)) == multiset(s) + multiset{x}
  {
    assert s == s[..i] + s[i..];
  }

  lemma {:induction false} RemoveAtMultiset<T>(s: seq<T>, i: nat)
    requires i < |s|
    ensures multiset(RemoveAt(s, i)) + multiset{s[i]} == multiset(s)
  {
    assert s == s[..i] + [s[i]] + s[i + 1..];
  }

  /** `iter().map(f)`. */
  function MapSeq<A, B>(f: A -> B, s: seq<A>): (r: seq<B>)
    ensures |r| == |s|
    ensures forall k :: 0 <= k < |s| ==> r[k] == f(s[k])
  {
    if s == [] then [] else [f(s[0])] + MapSeq(f, s[1..])
  }

  /** A prefix of a mapped sequence grows by the image of the next element. */
  lemma MapSeqSnoc<A, B>(f: A -> B, s: seq<A>, i: nat)
    requires i < |s|
    ensures MapSeq(f, s)[..i + 1] == MapSeq(f, s)[..i] + [f(s[i])]
  {
    var r := MapSeq(f, s);
    assert r[..i + 1] == r[..i] + [r[i]];
  }

  lemma MapRemoveAt<A, B>(f: A -> B, s: seq<A>, i: nat)
    requires i < |s|
    ensures MapSeq(f, RemoveAt(s, i)) == RemoveAt(MapSeq(f, s), i)
  {
  }

  /** Mapping a permutation gives a permutation. */
  lemma {:induction false} MapMultiset<A, B>(f: A -> B, a: seq<A>, b: seq<A>)
    requires multiset(a) == multiset(b)
    ensures multiset(MapSeq(f, a)) == multiset(MapSeq(f, b))
  {
    if a != [] {
      assert a[0] in multiset(b);
      var i :| 0 <= i < |b| && b[i] == a[0];
      RemoveAtMultiset(b, i);
      assert a == [a[0]] + a[1..];
      assert multiset(a) == multiset{a[0]} + multiset(a[1..]);
      var rest := RemoveAt(b, i);
      var ma, mr := multiset(a[1..]), multiset(rest);
      assert mr + multiset{a[0]} == ma + multiset{a[0]};
      forall y ensures ma[y] == mr[y] {
        assert (mr + multiset{a[0]})[y] == (ma + multiset{a[0]})[y];
      }
      assert ma == mr;
      MapMultiset(f, a[1..], RemoveAt(b, i));
      MapRemoveAt(f, b, i);
      RemoveAtMultiset(MapSeq(f, b), i);
      assert MapSeq(f, a) == [f(a[0])] + MapSeq(f, a[1..]);
    } else {
      assert b == [];
    }
  }
}
