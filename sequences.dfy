/** Keeping and transforming the elements of a sequence in one pass, the
    shape of a loop that appends to a list only some of what it visits. */
module Sequences {
  import opened Wrappers

  /** The values `f` gives for the elements of `s`, in order, skipping the
      elements for which it gives `None`. */
  function FilterMap<A, B>(s: seq<A>, f: A -> Option<B>): seq<B> {
    if s == [] then []
    else
      FilterMap(s[..|s| - 1], f) +
        match f(s[|s| - 1])
        case Some(b) => [b]
        case None => []
  }

  /** One more element adds its value, if any, at the end. */
  lemma FilterMapSnoc<A, B>(s: seq<A>, x: A, f: A -> Option<B>)
    ensures FilterMap(s + [x], f) == FilterMap(s, f) +
      match f(x)
      case Some(b) => [b]
      case None => []
  {
    assert (s + [x])[..|s|] == s;
  }

  /** `FilterMap` selects in order: the k-th result is `f` of element
      `ix[k]`, the positions strictly increase, and a position is among them
      exactly when `f` gives a value there, so every such element gives
      exactly one result and no other element gives any. */
  lemma {:induction false} FilterMapSelects<A, B>(s: seq<A>, f: A -> Option<B>) returns (ix: seq<nat>)
    ensures |ix| == |FilterMap(s, f)|
    ensures forall k :: 0 <= k < |ix| ==> ix[k] < |s| && f(s[ix[k]]) == Some(FilterMap(s, f)[k])
    ensures forall k, m :: 0 <= k < m < |ix| ==> ix[k] < ix[m]
    ensures forall j :: 0 <= j < |s| ==> (f(s[j]).Some? <==> j in ix)
  {
    if s == [] {
      ix := [];
    } else {
      var n := |s| - 1;
      var init := s[..n];
      var ix0 := FilterMapSelects(init, f);
      assert forall j :: 0 <= j < n ==> init[j] == s[j];
      match f(s[n])
      case Some(b) =>
        ix := ix0 + [n];
      case None =>
        ix := ix0;
    }
  }

  /** When `f` gives no value anywhere, nothing is kept. */
  lemma {:induction false} FilterMapNone<A, B>(s: seq<A>, f: A -> Option<B>)
    requires forall j :: 0 <= j < |s| ==> f(s[j]).None?
    ensures FilterMap(s, f) == []
  {
    if s != [] {
      FilterMapNone(s[..|s| - 1], f);
    }
  }

  /** Extending `a + b[..i]` by the next element of `b`. */
  lemma AppendNext<T>(a: seq<T>, b: seq<T>, i: nat)
    requires i < |b|
    ensures a + b[..i + 1] == (a + b[..i]) + [b[i]]
  {
    assert b[..i + 1] == b[..i] + [b[i]];
  }

  /** The two ends of a loop over `b` appending to `a`. */
  lemma AppendBounds<T>(a: seq<T>, b: seq<T>)
    ensures a + b[..0] == a
    ensures a + b[..|b|] == a + b
  {
    assert b[..0] == [];
    assert b[..|b|] == b;
  }
}
