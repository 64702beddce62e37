/** The array operations the todo list is built from: `Array.prototype.filter`
    (with and without the element index) and `Array.prototype.map` with the index,
    plus what it means to be an order-preserving subsequence. */
module Sequences {

  /** `s.filter(p)`: the elements satisfying `p`, in their original order. */
  function Filter<T>(s: seq<T>, p: T -> bool): (r: seq<T>)
    ensures |r| <= |s|
    ensures forall i :: 0 <= i < |r| ==> p(r[i])
  {
    if s == [] then [] else (if p(s[0]) then [s[0]] else []) + Filter(s[1..], p)
  }

  /** `s.filter((x, i) => keep(x, i))`: the callback also sees each element's
      index. It never returns more elements than `s` has. */
  function FilterWithIndex<T>(s: seq<T>, keep: (T, nat) -> bool): (r: seq<T>)
    ensures |r| <= |s|
  {
    if s == [] then []
    else
      var last := |s| - 1;
      FilterWithIndex(s[..last], keep) + (if keep(s[last], last) then [s[last]] else [])
  }

  /** The map from position `start` on: the element at offset `i` of `s` becomes
      `f(s[i], start + i)`. */
  function MapFrom<T, U>(s: seq<T>, f: (T, nat) -> U, start: nat): (r: seq<U>)
    ensures |r| == |s|
    ensures forall i :: 0 <= i < |s| ==> r[i] == f(s[i], start + i)
  {
    if s == [] then [] else [f(s[0], start)] + MapFrom(s[1..], f, start + 1)
  }

  /** `s.map((x, i) => f(x, i))`, visiting the elements from the front. */
  function MapWithIndex<T, U>(s: seq<T>, f: (T, nat) -> U): seq<U> {
    MapFrom(s, f, 0)
  }

  /** `sub` can be obtained from `s` by deleting elements, without reordering. */
  predicate IsSubsequence<T(==)>(sub: seq<T>, s: seq<T>)
    decreases |s|
  {
    sub == [] || (s != [] && ((sub[0] == s[0] && IsSubsequence(sub[1..], s[1..])) || IsSubsequence(sub, s[1..])))
  }

  /** Every entry of `xs` plus one. */
  function Incr(xs: seq<nat>): seq<nat> {
    seq(|xs|, k requires 0 <= k < |xs| => xs[k] + 1)
  }

  /** The indexes in `s` of the elements Filter keeps, in order. */
  function Positions<T>(s: seq<T>, p: T -> bool): seq<nat> {
    if s == [] then []
    else if p(s[0]) then [0] + Incr(Positions(s[1..], p))
    else Incr(Positions(s[1..], p))
  }

  /** There is one position per kept element. */
  lemma {:induction false} PositionsLength<T>(s: seq<T>, p: T -> bool)
    ensures |Positions(s, p)| == |Filter(s, p)|
  {
    if s != [] {
      PositionsLength(s[1..], p);
      assert |Incr(Positions(s[1..], p))| == |Filter(s[1..], p)|;
    }
  }

  /** Entry `k` of Positions is where the `k`-th kept element sits in `s`, and
      that element does not lie before its own rank. */
  lemma {:induction false} PositionAt<T>(s: seq<T>, p: T -> bool, k: nat)
    requires k < |Positions(s, p)|
    ensures k < |Filter(s, p)| && k <= Positions(s, p)[k] < |s| && s[Positions(s, p)[k]] == Filter(s, p)[k]
  {
    PositionsLength(s, p);
    PositionsLength(s[1..], p);
    var rest := Positions(s[1..], p);
    var inc := Incr(rest);
    if p(s[0]) {
      assert Positions(s, p) == [0] + inc;
      assert Filter(s, p) == [s[0]] + Filter(s[1..], p);
      if k > 0 {
        PositionAt(s[1..], p, k - 1);
        assert s[rest[k - 1] + 1] == s[1..][rest[k - 1]];
      }
    } else {
      assert Positions(s, p) == inc;
      assert Filter(s, p) == Filter(s[1..], p);
      PositionAt(s[1..], p, k);
      assert s[rest[k] + 1] == s[1..][rest[k]];
    }
  }

  /** Every entry of Positions locates its kept element. */
  lemma PositionsAt<T>(s: seq<T>, p: T -> bool)
    ensures var ps, f := Positions(s, p), Filter(s, p);
      |ps| == |f| && forall k :: 0 <= k < |ps| ==> k <= ps[k] < |s| && s[ps[k]] == f[k]
  {
    PositionsLength(s, p);
    forall k: nat | k < |Positions(s, p)|
      ensures k <= Positions(s, p)[k] < |s| && s[Positions(s, p)[k]] == Filter(s, p)[k]
    {
      PositionAt(s, p, k);
    }
  }

  /** A later entry of Positions is larger. */
  lemma {:induction false} PositionsIncreaseAt<T>(s: seq<T>, p: T -> bool, k: nat, l: nat)
    requires k < l < |Positions(s, p)|
    ensures Positions(s, p)[k] < Positions(s, p)[l]
  {
    var rest := Positions(s[1..], p);
    var inc := Incr(rest);
    if p(s[0]) {
      assert Positions(s, p) == [0] + inc;
      if k > 0 {
        PositionsIncreaseAt(s[1..], p, k - 1, l - 1);
      }
    } else {
      assert Positions(s, p) == inc;
      PositionsIncreaseAt(s[1..], p, k, l);
    }
  }

  /** The entries of Positions increase, so distinct kept elements come from
      distinct places. */
  lemma PositionsIncreasing<T>(s: seq<T>, p: T -> bool)
    ensures var ps := Positions(s, p);
      forall k, l :: 0 <= k < l < |ps| ==> ps[k] < ps[l]
  {
    forall k: nat, l: nat | k < l < |Positions(s, p)| ensures Positions(s, p)[k] < Positions(s, p)[l] {
      PositionsIncreaseAt(s, p, k, l);
    }
  }

  /** The three facts about Positions together. */
  lemma PositionsLocate<T>(s: seq<T>, p: T -> bool)
    ensures var ps, f := Positions(s, p), Filter(s, p);
      && |ps| == |f|
      && (forall k :: 0 <= k < |ps| ==> k <= ps[k] < |s| && s[ps[k]] == f[k])
      && (forall k, l :: 0 <= k < l < |ps| ==> ps[k] < ps[l])
  {
    PositionsAt(s, p);
    PositionsIncreasing(s, p);
  }

  /** Filter keeps the order of `s`. */
  lemma {:induction false} FilterIsSubsequence<T>(s: seq<T>, p: T -> bool)
    ensures IsSubsequence(Filter(s, p), s)
  {
    if s != [] {
      FilterIsSubsequence(s[1..], p);
      var f := Filter(s, p);
      if p(s[0]) {
        assert f == [s[0]] + Filter(s[1..], p);
      } else {
        assert f == Filter(s[1..], p);
        if f != [] {
          assert IsSubsequence(f, s[1..]);
        }
      }
    }
  }

  /** Filter keeps every occurrence of an element satisfying `p` and drops every
      occurrence of one that does not. */
  lemma {:induction false} FilterCounts<T>(s: seq<T>, p: T -> bool)
    ensures forall x :: multiset(Filter(s, p))[x] == if p(x) then multiset(s)[x] else 0
  {
    if s != [] {
      FilterCounts(s[1..], p);
      assert s == [s[0]] + s[1..];
    }
  }

  /** So an element is in the filtered sequence exactly when it is in `s` and satisfies `p`. */
  lemma FilterMembers<T>(s: seq<T>, p: T -> bool)
    ensures forall x :: x in Filter(s, p) <==> x in s && p(x)
  {
    FilterCounts(s, p);
    forall x ensures x in Filter(s, p) <==> x in s && p(x) {
      assert x in Filter(s, p) <==> multiset(Filter(s, p))[x] > 0;
      assert x in s <==> multiset(s)[x] > 0;
    }
  }

  /** A filter that keeps every element of `s` returns `s` itself. */
  lemma {:induction false} FilterKeepsAll<T>(s: seq<T>, p: T -> bool)
    requires forall i :: 0 <= i < |s| ==> p(s[i])
    ensures Filter(s, p) == s
  {
    if s != [] {
      FilterKeepsAll(s[1..], p);
      assert s == [s[0]] + s[1..];
    }
  }

  /** Two chained filters are one filter by the conjunction of their tests. */
  lemma {:induction false} FilterFilter<T>(s: seq<T>, p: T -> bool, q: T -> bool, both: T -> bool)
    requires forall x :: both(x) == (p(x) && q(x))
    ensures Filter(Filter(s, p), q) == Filter(s, both)
  {
    if s != [] {
      FilterFilter(s[1..], p, q, both);
      assert both(s[0]) == (p(s[0]) && q(s[0]));
      var rest := Filter(Filter(s[1..], p), q);
      if p(s[0]) {
        var f := [s[0]] + Filter(s[1..], p);
        assert Filter(s, p) == f;
        assert f[0] == s[0] && f[1..] == Filter(s[1..], p);
        assert Filter(f, q) == (if q(s[0]) then [s[0]] else []) + rest;
      } else {
        assert Filter(s, p) == Filter(s[1..], p);
      }
      assert Filter(s, both) == (if both(s[0]) then [s[0]] else []) + Filter(s[1..], both);
    }
  }

  /** A test and its negation split `s` between them. */
  lemma {:induction false} FilterComplement<T>(s: seq<T>, p: T -> bool, q: T -> bool)
    requires forall x :: q(x) == !p(x)
    ensures |Filter(s, p)| + |Filter(s, q)| == |s|
  {
    if s != [] {
      FilterComplement(s[1..], p, q);
    }
  }

  /** Every kept element sits at its own index in `s` exactly when the filtered
      sequence is a prefix of `s`. */
  lemma {:induction false} PositionsIdentityIff<T>(s: seq<T>, p: T -> bool)
    ensures var ps, f := Positions(s, p), Filter(s, p);
      (forall k :: 0 <= k < |ps| ==> ps[k] == k) <==> f == s[..|f|]
  {
    var ps, f := Positions(s, p), Filter(s, p);
    PositionsLocate(s, p);
    if f == s[..|f|] && f != [] {
      assert p(s[0]) by {
        FilterMembers(s, p);
        assert f[0] in f;
      }
      assert f == [s[0]] + Filter(s[1..], p);
      assert Filter(s[1..], p) == s[1..][..|f| - 1];
      PositionsIdentityIff(s[1..], p);
      PositionsLocate(s[1..], p);
      var rest := Positions(s[1..], p);
      assert forall k :: 0 <= k < |rest| ==> rest[k] == k;
      assert ps == [0] + Incr(rest);
      forall k | 0 <= k < |ps| ensures ps[k] == k {
        if k > 0 {
          assert ps[k] == rest[k - 1] + 1;
          assert rest[k - 1] == k - 1;
        }
      }
    }
  }
}
