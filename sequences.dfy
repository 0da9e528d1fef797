// Filtering and mapping a sequence: the shape of `getCategories`
// (`filter` then `map`) and of the two loops of the index builder that skip
// some entries and push a record for each of the others.

module Sequences {

  /** The indices of the elements of `s` that satisfy `p`, in increasing order:
      exactly the positions a `filter` keeps. */
  function Positions<T>(p: T -> bool, s: seq<T>): (r: seq<nat>)
    ensures |r| <= |s|
    ensures forall k :: 0 <= k < |r| ==> r[k] < |s| && p(s[r[k]])
    ensures forall k, l :: 0 <= k < l < |r| ==> r[k] < r[l]
    ensures forall j :: 0 <= j < |s| && p(s[j]) ==> j in r
    decreases |s|
  {
    if s == [] then []
    else
      var front := s[..|s| - 1];
      var rest := Positions(p, front);
      assert forall j :: 0 <= j < |front| ==> front[j] == s[j];
      if p(s[|s| - 1]) then rest + [|s| - 1] else rest
  }

  /** `s.filter(p).map(f)`, built the way a loop builds it: element by element,
      appending `f(x)` for each `x` that passes `p`. */
  function FilterMap<T, U>(p: T -> bool, f: T -> U, s: seq<T>): (r: seq<U>)
    ensures |r| <= |s|
    decreases |s|
  {
    if s == [] then []
    else
      var rest := FilterMap(p, f, s[..|s| - 1]);
      if p(s[|s| - 1]) then rest + [f(s[|s| - 1])] else rest
  }

  /** One more element appends `f` of it exactly when it passes `p`. */
  lemma FilterMapSnoc<T, U>(p: T -> bool, f: T -> U, s: seq<T>, x: T)
    ensures FilterMap(p, f, s + [x]) == if p(x) then FilterMap(p, f, s) + [f(x)] else FilterMap(p, f, s)
  {
    assert (s + [x])[..|s|] == s;
  }

  /** The result holds `f` of exactly the elements at the positions that pass
      `p`, in their order. */
  lemma {:induction false} FilterMapInOrder<T, U>(p: T -> bool, f: T -> U, s: seq<T>)
    ensures var ps := Positions(p, s);
      && |FilterMap(p, f, s)| == |ps|
      && forall k :: 0 <= k < |ps| ==> FilterMap(p, f, s)[k] == f(s[ps[k]])
    decreases |s|
  {
    if s != [] {
      var front := s[..|s| - 1];
      FilterMapInOrder(p, f, front);
      assert forall j :: 0 <= j < |front| ==> front[j] == s[j];
    }
  }

  /** Every element of the result is `f` of an element that passes `p`. */
  lemma FilterMapElements<T, U>(p: T -> bool, f: T -> U, s: seq<T>)
    ensures forall k :: 0 <= k < |FilterMap(p, f, s)| ==>
      exists j :: 0 <= j < |s| && p(s[j]) && FilterMap(p, f, s)[k] == f(s[j])
  {
    FilterMapInOrder(p, f, s);
    var ps := Positions(p, s);
    forall k | 0 <= k < |FilterMap(p, f, s)|
      ensures exists j :: 0 <= j < |s| && p(s[j]) && FilterMap(p, f, s)[k] == f(s[j])
    {
      var j := ps[k];
      assert p(s[j]) && FilterMap(p, f, s)[k] == f(s[j]);
    }
  }

  /** A value is in the result exactly when it is `f` of an element that passes `p`. */
  lemma {:induction false} FilterMapMember<T, U>(p: T -> bool, f: T -> U, s: seq<T>, y: U)
    ensures y in FilterMap(p, f, s) <==> exists x :: x in s && p(x) && y == f(x)
    decreases |s|
  {
    if s != [] {
      var front := s[..|s| - 1];
      FilterMapMember(p, f, front, y);
      assert s == front + [s[|s| - 1]];
    }
  }

  /** `f` over the whole of `s`. */
  function MapAll<T, U>(f: T -> U, s: seq<T>): (r: seq<U>)
    ensures |r| == |s| && forall i :: 0 <= i < |s| ==> r[i] == f(s[i])
  {
    seq(|s|, i requires 0 <= i < |s| => f(s[i]))
  }

  /** `idx` picks the elements of `xs` out of `ys`, at strictly increasing positions. */
  ghost predicate Embeds<T>(idx: seq<nat>, xs: seq<T>, ys: seq<T>)
  {
    && |idx| == |xs|
    && (forall k :: 0 <= k < |idx| ==> idx[k] < |ys| && xs[k] == ys[idx[k]])
    && (forall k, l :: 0 <= k < l < |idx| ==> idx[k] < idx[l])
  }

  /** `xs` is `ys` with some elements left out and none reordered or invented. */
  ghost predicate IsSubsequence<T>(xs: seq<T>, ys: seq<T>)
  {
    exists idx :: Embeds(idx, xs, ys)
  }

  /** Filtering then mapping keeps an order-preserving selection of the mapped input. */
  lemma FilterMapSubsequence<T, U>(p: T -> bool, f: T -> U, s: seq<T>)
    ensures IsSubsequence(FilterMap(p, f, s), MapAll(f, s))
  {
    FilterMapInOrder(p, f, s);
    assert Embeds(Positions(p, s), FilterMap(p, f, s), MapAll(f, s));
  }
}
