/**
 * The ordering Python uses for the sort keys of the record views, and the
 * stable sort that `sorted(...)` and `list.sort(...)` perform.
 *
 * A sort key is a tuple of integers and strings. Tuples compare
 * lexicographically: the first differing component decides, and a proper
 * prefix is smaller. Strings compare by code point, a proper prefix being
 * smaller. In Python 2 an integer is smaller than any string.
 */
module Ordering {

  datatype Component = Num(n: int) | Text(s: string)

  type Key = seq<Component>

  /** An element paired with the key `sorted(..., key=...)` computes for it. */
  datatype Keyed<T> = Keyed(key: Key, item: T)

  /** Python's `a <= b` on strings. */
  predicate StrLe(a: string, b: string)
    decreases |a|
  {
    if |a| == 0 then true
    else if |b| == 0 then false
    else if a[0] != b[0] then a[0] < b[0]
    else StrLe(a[1..], b[1..])
  }

  /** Python's `x < y` on two distinct tuple components. */
  predicate ComponentLt(x: Component, y: Component) {
    match (x, y)
    case (Num(m), Num(n)) => m < n
    case (Num(_), Text(_)) => true
    case (Text(_), Num(_)) => false
    case (Text(s), Text(t)) => s != t && StrLe(s, t)
  }

  /** Python's `a <= b` on tuples. */
  predicate KeyLe(a: Key, b: Key)
    decreases |a|
  {
    if |a| == 0 then true
    else if |b| == 0 then false
    else if a[0] != b[0] then ComponentLt(a[0], b[0])
    else KeyLe(a[1..], b[1..])
  }

  lemma {:induction false} StrLeTotal(a: string, b: string)
    ensures StrLe(a, b) || StrLe(b, a)
    decreases |a|
  {
    if |a| > 0 && |b| > 0 && a[0] == b[0] {
      StrLeTotal(a[1..], b[1..]);
    }
  }

  lemma {:induction false} StrLeAntisymmetric(a: string, b: string)
    requires StrLe(a, b) && StrLe(b, a)
    ensures a == b
    decreases |a|
  {
    if |a| > 0 {
      StrLeAntisymmetric(a[1..], b[1..]);
      assert a == [a[0]] + a[1..];
      assert b == [b[0]] + b[1..];
    }
  }

  lemma {:induction false} StrLeTransitive(a: string, b: string, c: string)
    requires StrLe(a, b) && StrLe(b, c)
    ensures StrLe(a, c)
    decreases |a|
  {
    if |a| > 0 && |b| > 0 && |c| > 0 && a[0] == b[0] && b[0] == c[0] {
      StrLeTransitive(a[1..], b[1..], c[1..]);
    }
  }

  lemma ComponentLtTrichotomy(x: Component, y: Component)
    ensures x == y || ComponentLt(x, y) || ComponentLt(y, x)
    ensures !(ComponentLt(x, y) && ComponentLt(y, x))
  {
    if x.Text? && y.Text? {
      StrLeTotal(x.s, y.s);
      if StrLe(x.s, y.s) && StrLe(y.s, x.s) {
        StrLeAntisymmetric(x.s, y.s);
      }
    }
  }

  lemma ComponentLtTransitive(x: Component, y: Component, z: Component)
    requires ComponentLt(x, y) && ComponentLt(y, z)
    ensures ComponentLt(x, z)
  {
    if x.Text? && y.Text? && z.Text? {
      StrLeTransitive(x.s, y.s, z.s);
      if x.s == z.s {
        StrLeAntisymmetric(x.s, y.s);
      }
    }
  }

  /** Any two keys are comparable, as Python requires of a sort key. */
  lemma {:induction false} KeyLeTotal(a: Key, b: Key)
    ensures KeyLe(a, b) || KeyLe(b, a)
    decreases |a|
  {
    if |a| > 0 && |b| > 0 {
      if a[0] == b[0] {
        KeyLeTotal(a[1..], b[1..]);
      } else {
        ComponentLtTrichotomy(a[0], b[0]);
      }
    }
  }

  lemma {:induction false} KeyLeAntisymmetric(a: Key, b: Key)
    requires KeyLe(a, b) && KeyLe(b, a)
    ensures a == b
    decreases |a|
  {
    if |a| > 0 {
      if a[0] == b[0] {
        KeyLeAntisymmetric(a[1..], b[1..]);
        assert a == [a[0]] + a[1..];
        assert b == [b[0]] + b[1..];
      } else {
        ComponentLtTrichotomy(a[0], b[0]);
      }
    }
  }

  lemma {:induction false} KeyLeTransitive(a: Key, b: Key, c: Key)
    requires KeyLe(a, b) && KeyLe(b, c)
    ensures KeyLe(a, c)
    decreases |a|
  {
    if |a| > 0 && |b| > 0 && |c| > 0 {
      if a[0] == b[0] && b[0] == c[0] {
        KeyLeTransitive(a[1..], b[1..], c[1..]);
      } else if a[0] == b[0] {
      } else if b[0] == c[0] {
      } else {
        ComponentLtTransitive(a[0], b[0], c[0]);
        ComponentLtTrichotomy(a[0], c[0]);
      }
    }
  }

  /** Every element's key is at most every later element's key. */
  ghost predicate Sorted<T>(xs: seq<Keyed<T>>) {
    forall i, j :: 0 <= i < j < |xs| ==> KeyLe(xs[i].key, xs[j].key)
  }

  /** The elements of `xs` whose key is `k`, in their order in `xs`. */
  function WithKey<T>(xs: seq<Keyed<T>>, k: Key): seq<Keyed<T>>
  {
    if |xs| == 0 then []
    else if xs[0].key == k then [xs[0]] + WithKey(xs[1..], k)
    else WithKey(xs[1..], k)
  }

  /** Places `x` in front of the first element whose key is not below it. */
  function Insert<T>(x: Keyed<T>, xs: seq<Keyed<T>>): (r: seq<Keyed<T>>)
    requires Sorted(xs)
    ensures Sorted(r)
    ensures multiset(r) == multiset(xs) + multiset{x}
    ensures forall k :: WithKey(r, k) == if x.key == k then [x] + WithKey(xs, k) else WithKey(xs, k)
  {
    if |xs| == 0 then [x]
    else if KeyLe(x.key, xs[0].key) then
      InsertFrontSorted(x, xs);
      [x] + xs
    else
      var rest := Insert(x, xs[1..]);
      KeyLeTotal(x.key, xs[0].key);
      assert xs == [xs[0]] + xs[1..];
      InsertConsSorted(xs[0], rest, x, xs[1..]);
      assert forall k :: WithKey([xs[0]] + rest, k) == if xs[0].key == k then [xs[0]] + WithKey(rest, k) else WithKey(rest, k);
      [xs[0]] + rest
  }

  lemma InsertFrontSorted<T>(x: Keyed<T>, xs: seq<Keyed<T>>)
    requires Sorted(xs) && |xs| > 0 && KeyLe(x.key, xs[0].key)
    ensures Sorted([x] + xs)
  {
    var r := [x] + xs;
    forall i, j | 0 <= i < j < |r|
      ensures KeyLe(r[i].key, r[j].key)
    {
      if i == 0 && j > 1 {
        KeyLeTransitive(x.key, xs[0].key, xs[j - 1].key);
      }
    }
  }

  lemma InsertConsSorted<T>(y: Keyed<T>, rest: seq<Keyed<T>>, x: Keyed<T>, tail: seq<Keyed<T>>)
    requires Sorted([y] + tail) && Sorted(rest) && KeyLe(y.key, x.key)
    requires multiset(rest) == multiset(tail) + multiset{x}
    ensures Sorted([y] + rest)
  {
    var r := [y] + rest;
    forall j | 0 < j < |r|
      ensures KeyLe(y.key, r[j].key)
    {
      var e := rest[j - 1];
      assert e in multiset(rest);
      if e == x {
        assert KeyLe(y.key, e.key);
      } else {
        assert e in multiset(tail);
        assert e in tail;
        var k :| 0 <= k < |tail| && tail[k] == e;
        assert ([y] + tail)[0] == y && ([y] + tail)[k + 1] == e;
        assert KeyLe(y.key, e.key);
      }
      assert r[j] == e;
    }
  }

  /**
   * The stable ascending sort Python's `sorted` performs: the result is
   * ordered by key, and the elements sharing any one key keep their
   * relative order from the input.
   */
  function SortByKey<T>(xs: seq<Keyed<T>>): (r: seq<Keyed<T>>)
    ensures Sorted(r)
    ensures multiset(r) == multiset(xs)
    ensures |r| == |xs|
    ensures forall k :: WithKey(r, k) == WithKey(xs, k)
  {
    if |xs| == 0 then []
    else
      assert xs == [xs[0]] + xs[1..];
      assert multiset(xs) == multiset(xs[1..]) + multiset{xs[0]};
      var r := Insert(xs[0], SortByKey(xs[1..]));
      assert |r| == |multiset(r)|;
      r
  }

  /** The elements of a keyed sequence, keys dropped. */
  function Items<T>(ks: seq<Keyed<T>>): (r: seq<T>)
    ensures |r| == |ks|
    ensures forall i :: 0 <= i < |ks| ==> r[i] == ks[i].item
  {
    seq(|ks|, i requires 0 <= i < |ks| => ks[i].item)
  }

  lemma RemoveOne<T>(b: seq<T>, k: nat)
    requires k < |b|
    ensures multiset(b[..k] + b[k + 1..]) == multiset(b) - multiset{b[k]}
  {
    assert b == b[..k] + [b[k]] + b[k + 1..];
    assert multiset(b) == multiset(b[..k]) + multiset{b[k]} + multiset(b[k + 1..]);
  }

  /** `[f(x) for x in s]`. */
  function Map<A, B>(s: seq<A>, f: A -> B): (r: seq<B>)
    ensures |r| == |s|
    ensures forall i :: 0 <= i < |s| ==> r[i] == f(s[i])
  {
    seq(|s|, i requires 0 <= i < |s| => f(s[i]))
  }

  lemma MapSplit<A, B>(b: seq<A>, k: nat, f: A -> B)
    requires k < |b|
    ensures multiset(Map(b, f)) == multiset(Map(b[..k] + b[k + 1..], f)) + multiset{f(b[k])}
  {
    var l, r := Map(b[..k], f), Map(b[k + 1..], f);
    assert Map(b, f) == l + [f(b[k])] + r;
    assert Map(b[..k] + b[k + 1..], f) == l + r;
    assert multiset(l + [f(b[k])] + r) == multiset(l) + multiset{f(b[k])} + multiset(r);
  }

  /** Mapping a function over two permutations of each other gives two permutations of each other. */
  lemma {:induction false} MapPermutation<A, B>(a: seq<A>, b: seq<A>, f: A -> B)
    requires multiset(a) == multiset(b)
    ensures multiset(Map(a, f)) == multiset(Map(b, f))
    decreases |a|
  {
    if |a| == 0 {
      assert |b| == |multiset(b)| == 0;
    } else {
      var k := IndexOf(b, a[0]);
      var b' := b[..k] + b[k + 1..];
      RemoveMatched(a, b, k);
      MapPermutation(a[1..], b', f);
      MapSplit(b, k, f);
      MapCons(a, f);
    }
  }

  /** Removing the first element of `a` and a matching element of `b` keeps them permutations. */
  lemma RemoveMatched<A>(a: seq<A>, b: seq<A>, k: nat)
    requires multiset(a) == multiset(b) && |a| > 0 && k < |b| && b[k] == a[0]
    ensures multiset(a[1..]) == multiset(b[..k] + b[k + 1..])
  {
    RemoveOne(b, k);
    RemoveOne(a, 0);
    assert a[..0] + a[1..] == a[1..];
  }

  lemma MapCons<A, B>(a: seq<A>, f: A -> B)
    requires |a| > 0
    ensures multiset(Map(a, f)) == multiset(Map(a[1..], f)) + multiset{f(a[0])}
  {
    assert Map(a, f) == [f(a[0])] + Map(a[1..], f);
  }

  /** Dropping keys maps a permutation to a permutation. */
  lemma ItemsPermutation<T>(a: seq<Keyed<T>>, b: seq<Keyed<T>>)
    requires multiset(a) == multiset(b)
    ensures multiset(Items(a)) == multiset(Items(b))
  {
    var f := (k: Keyed<T>) => k.item;
    MapPermutation(a, b, f);
    assert Items(a) == Map(a, f);
    assert Items(b) == Map(b, f);
  }

  /** A position at which `x` occurs in `b`. */
  lemma IndexOf<T>(b: seq<T>, x: T) returns (k: nat)
    requires x in multiset(b)
    ensures k < |b| && b[k] == x
  {
    assert x in b;
    k :| 0 <= k < |b| && b[k] == x;
  }

  /** A permutation of keyed elements whose keys are computed by `f` still has keys computed by `f`. */
  lemma KeysFollowItems<T>(ks: seq<Keyed<T>>, src: seq<Keyed<T>>, f: T -> Key)
    requires multiset(ks) == multiset(src)
    requires forall i :: 0 <= i < |src| ==> src[i].key == f(src[i].item)
    ensures forall i :: 0 <= i < |ks| ==> ks[i].key == f(ks[i].item)
  {
    forall i | 0 <= i < |ks|
      ensures ks[i].key == f(ks[i].item)
    {
      var j := IndexOf(src, ks[i]);
    }
  }
}
