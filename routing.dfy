/**
 * The routing table and the vector-erasing loops of the routing engine
 * (ZHNetwork.cpp): next-hop lookup, route learning from search traffic, and
 * the erase-inside-an-index-loop pattern used for route invalidation, for
 * acknowledged confirmations and for the confirmation sweep.
 */
module Routing {
  import opened Wrappers
  import opened Records

  /** No two entries of the table lead to the same destination. */
  ghost predicate UniqueTargets(v: seq<Route>) {
    forall i, j :: 0 <= i < j < |v| ==> v[i].originalTarget != v[j].originalTarget
  }

  predicate Known(v: seq<Route>, target: Mac) {
    exists i :: 0 <= i < |v| && v[i].originalTarget == target
  }

  /** The next hop of the first entry for `target`, as the scanning loops pick it. */
  function Lookup(v: seq<Route>, target: Mac): (r: Option<Mac>)
    ensures r.None? <==> !Known(v, target)
    ensures r.Some? ==> exists i :: 0 <= i < |v| && v[i] == Route(target, r.value) &&
                                    forall j :: 0 <= j < i ==> v[j].originalTarget != target
  {
    if |v| == 0 then None
    else if v[0].originalTarget == target then Some(v[0].intermediateTarget)
    else
      var r := Lookup(v[1..], target);
      assert forall i :: 0 < i < |v| ==> v[i] == v[1..][i - 1];
      r
  }

  /** With unique destinations, the entry found is the only one for that destination. */
  lemma LookupUnique(v: seq<Route>, k: nat)
    requires UniqueTargets(v) && k < |v|
    ensures Lookup(v, v[k].originalTarget) == Some(v[k].intermediateTarget)
  {
  }

  // ---- Route learning ----

  /** Every entry for `origin` now points at `via`. */
  function Redirected(v: seq<Route>, origin: Mac, via: Mac): (r: seq<Route>)
    ensures |r| == |v|
  {
    seq(|v|, i requires 0 <= i < |v| => if v[i].originalTarget == origin then Route(origin, via) else v[i])
  }

  /**
   * The table after a search packet from `origin` arrived through neighbour
   * `via`: known destinations are redirected, unknown ones added unless the
   * origin is the neighbour itself.
   */
  function Learn(v: seq<Route>, origin: Mac, via: Mac): (r: seq<Route>)
    ensures Known(v, origin) ==> |r| == |v| && Lookup(r, origin) == Some(via)
    ensures !Known(v, origin) && origin != via ==> r == v + [Route(origin, via)]
    ensures !Known(v, origin) && origin == via ==> r == v
    ensures forall t :: t != origin ==> Lookup(r, t) == Lookup(v, t)
    ensures UniqueTargets(v) ==> UniqueTargets(r)
  {
    if Known(v, origin) then
      var r := Redirected(v, origin, via);
      RedirectedLookup(v, origin, via);
      r
    else if origin != via then
      AppendLookup(v, Route(origin, via));
      v + [Route(origin, via)]
    else v
  }

  lemma {:induction false} RedirectedLookup(v: seq<Route>, origin: Mac, via: Mac)
    ensures Known(v, origin) ==> Lookup(Redirected(v, origin, via), origin) == Some(via)
    ensures forall t :: t != origin ==> Lookup(Redirected(v, origin, via), t) == Lookup(v, t)
  {
    if |v| > 0 {
      var r := Redirected(v, origin, via);
      RedirectedLookup(v[1..], origin, via);
      assert r[1..] == Redirected(v[1..], origin, via);
      if v[0].originalTarget != origin && Known(v, origin) {
        var i :| 0 <= i < |v| && v[i].originalTarget == origin;
        assert v[1..][i - 1].originalTarget == origin;
      }
    }
  }

  lemma {:induction false} AppendLookup(v: seq<Route>, e: Route)
    ensures !Known(v, e.originalTarget) ==> Lookup(v + [e], e.originalTarget) == Some(e.intermediateTarget)
    ensures forall t :: t != e.originalTarget ==> Lookup(v + [e], t) == Lookup(v, t)
  {
    if |v| > 0 {
      AppendLookup(v[1..], e);
      assert (v + [e])[1..] == v[1..] + [e];
    } else {
      assert (v + [e])[1..] == [];
    }
  }

  /** After learning, the origin is reached through the neighbour it was seen from, unless that neighbour is the origin itself and no entry existed. */
  lemma LearnTeaches(v: seq<Route>, origin: Mac, via: Mac)
    requires Known(v, origin) || origin != via
    ensures Lookup(Learn(v, origin, via), origin) == Some(via)
  {
    if !Known(v, origin) {
      AppendLookup(v, Route(origin, via));
    }
  }

  /** Seeing the same search packet twice leaves the table as the first sighting left it. */
  lemma LearnIdempotent(v: seq<Route>, origin: Mac, via: Mac)
    ensures Learn(Learn(v, origin, via), origin, via) == Learn(v, origin, via)
  {
    var r := Learn(v, origin, via);
    if Known(v, origin) {
      assert Known(r, origin) by {
        var i :| 0 <= i < |v| && v[i].originalTarget == origin;
        assert r[i].originalTarget == origin;
      }
      assert Redirected(r, origin, via) == r;
    } else if origin != via {
      assert r[|v|].originalTarget == origin;
      assert Redirected(r, origin, via) == r;
    }
  }

  // ---- Erasing inside an index loop ----

  /**
   * The vector left by a loop that, from index `i` on, erases each element
   * satisfying `p` and then advances the index anyway: the element that slid
   * into an erased position is never examined.
   */
  function EraseFrom<T(!new)>(v: seq<T>, i: nat, p: T -> bool): (r: seq<T>)
    ensures |r| <= |v|
    ensures i <= |v| ==> i <= |r| && r[..i] == v[..i]
    decreases |v| - i
  {
    if i >= |v| then v
    else if p(v[i]) then
      var w := v[..i] + v[i + 1..];
      var r := EraseFrom(w, i + 1, p);
      assert w[..i] == v[..i];
      r
    else EraseFrom(v, i + 1, p)
  }

  /**
   * The elements that loop erases, in the order it erases them: each one
   * satisfies `p`, and together with what is left they make up the vector.
   */
  function Erased<T(!new)>(v: seq<T>, i: nat, p: T -> bool): (e: seq<T>)
    ensures forall k :: 0 <= k < |e| ==> p(e[k])
    ensures |e| + |EraseFrom(v, i, p)| == |v|
    decreases |v| - i
  {
    if i >= |v| then []
    else if p(v[i]) then [v[i]] + Erased(v[..i] + v[i + 1..], i + 1, p)
    else Erased(v, i + 1, p)
  }

  /** The elements that do not satisfy `p`, in order. */
  function Remove<T>(v: seq<T>, p: T -> bool): (r: seq<T>)
    ensures |r| <= |v|
  {
    if |v| == 0 then []
    else if p(v[0]) then Remove(v[1..], p)
    else [v[0]] + Remove(v[1..], p)
  }

  /** `Remove` keeps exactly the elements that do not satisfy `p`. */
  lemma {:induction false} RemoveMembers<T>(v: seq<T>, p: T -> bool, x: T)
    ensures x in Remove(v, p) <==> x in v && !p(x)
  {
    if |v| > 0 {
      RemoveMembers(v[1..], p, x);
      assert x in v <==> x == v[0] || x in v[1..];
    }
  }

  /** No element satisfying `p` directly follows another one, from index `i` on. */
  ghost predicate NoAdjacentMatches<T>(v: seq<T>, i: nat, p: T -> bool) {
    forall k :: i <= k && k + 1 < |v| ==> !(p(v[k]) && p(v[k + 1]))
  }

  /** When matches never sit side by side, the loop erases all of them. */
  lemma {:induction false} EraseFromRemovesAll<T(!new)>(v: seq<T>, i: nat, p: T -> bool)
    requires i <= |v| && NoAdjacentMatches(v, i, p)
    ensures EraseFrom(v, i, p) == v[..i] + Remove(v[i..], p)
    decreases |v| - i
  {
    if i == |v| {
      assert v[i..] == [];
      assert v[..i] == v;
    } else if p(v[i]) {
      if i + 1 < |v| {
        EraseMatchThenKeep(v, i, p);
      } else {
        var w := v[..i] + v[i + 1..];
        assert w == v[..i];
        assert v[i..] == [v[i]];
        assert Remove(v[i..], p) == Remove(v[i..][1..], p);
        assert v[i..][1..] == [];
      }
    } else {
      EraseFromRemovesAll(v, i + 1, p);
      KeepStep(v, i, p);
    }
  }

  lemma KeepStep<T(!new)>(v: seq<T>, i: nat, p: T -> bool)
    requires i < |v| && !p(v[i])
    ensures v[..i + 1] + Remove(v[i + 1..], p) == v[..i] + Remove(v[i..], p)
  {
    assert v[i..][1..] == v[i + 1..];
    assert Remove(v[i..], p) == [v[i]] + Remove(v[i + 1..], p);
    assert v[..i + 1] == v[..i] + [v[i]];
  }

  lemma {:induction false} EraseMatchThenKeep<T(!new)>(v: seq<T>, i: nat, p: T -> bool)
    requires i + 1 < |v| && NoAdjacentMatches(v, i, p) && p(v[i])
    ensures EraseFrom(v, i, p) == v[..i] + Remove(v[i..], p)
    decreases |v| - i, 0
  {
    var w := v[..i] + v[i + 1..];
    assert |w| == |v| - 1;
    assert NoAdjacentMatches(w, i + 1, p) by {
      forall k | i + 1 <= k && k + 1 < |w|
        ensures !(p(w[k]) && p(w[k + 1]))
      {
        assert w[k] == v[k + 1] && w[k + 1] == v[k + 2];
      }
    }
    assert EraseFrom(v, i, p) == EraseFrom(w, i + 1, p);
    EraseFromRemovesAll(w, i + 1, p);
    assert w[..i + 1] == v[..i] + [v[i + 1]];
    assert w[i + 1..] == v[i + 2..];
    assert !p(v[i + 1]);
    assert Remove(v[i..], p) == Remove(v[i + 1..], p) by {
      assert v[i..][1..] == v[i + 1..];
    }
    assert Remove(v[i + 1..], p) == [v[i + 1]] + Remove(v[i + 2..], p) by {
      assert v[i + 1..][1..] == v[i + 2..];
    }
  }

  /** Two matches side by side: the loop erases the first and steps over the second. */
  lemma EraseFromSkipsNeighbour<T(!new)>(a: T, b: T, p: T -> bool)
    requires p(a) && p(b)
    ensures EraseFrom([a, b], 0, p) == [b]
  {
    assert [a, b][..0] + [a, b][1..] == [b];
  }

  /** Whether a table entry leads to `target`. */
  function RouteTo(target: Mac): Route -> bool {
    (e: Route) => e.originalTarget == target
  }

  /** Invalidating a destination in a table with unique destinations removes its entry, keeps the others and keeps them unique. */
  lemma InvalidateUnique(v: seq<Route>, target: Mac)
    requires UniqueTargets(v)
    ensures EraseFrom(v, 0, RouteTo(target)) == Remove(v, RouteTo(target))
    ensures Lookup(EraseFrom(v, 0, RouteTo(target)), target) == None
    ensures UniqueTargets(EraseFrom(v, 0, RouteTo(target)))
  {
    var p := RouteTo(target);
    assert NoAdjacentMatches(v, 0, p) by {
      forall k | 0 <= k && k + 1 < |v|
        ensures !(p(v[k]) && p(v[k + 1]))
      {
        assert v[k].originalTarget != v[k + 1].originalTarget;
      }
    }
    EraseFromRemovesAll(v, 0, p);
    assert v[..0] == [] && v[0..] == v;
    var r := Remove(v, p);
    forall j | 0 <= j < |r|
      ensures r[j].originalTarget != target
    {
      RemoveMembers(v, p, r[j]);
    }
    RemoveKeepsUnique(v, target);
  }

  lemma {:induction false} RemoveKeepsUnique(v: seq<Route>, target: Mac)
    requires UniqueTargets(v)
    ensures UniqueTargets(Remove(v, RouteTo(target)))
  {
    if |v| > 0 {
      assert UniqueTargets(v[1..]);
      RemoveKeepsUnique(v[1..], target);
      var rest := Remove(v[1..], RouteTo(target));
      if !RouteTo(target)(v[0]) {
        forall j | 0 <= j < |rest|
          ensures rest[j].originalTarget != v[0].originalTarget
        {
          RemoveMembers(v[1..], RouteTo(target), rest[j]);
        }
        assert Remove(v, RouteTo(target)) == [v[0]] + rest;
      }
    }
  }

  /** Erasing keeps destinations unique whatever is erased. */
  lemma {:induction false} EraseFromKeepsUnique(v: seq<Route>, i: nat, p: Route -> bool)
    requires UniqueTargets(v)
    ensures UniqueTargets(EraseFrom(v, i, p))
    decreases |v| - i
  {
    if i < |v| {
      if p(v[i]) {
        var w := v[..i] + v[i + 1..];
        assert UniqueTargets(w) by {
          forall a, b | 0 <= a < b < |w|
            ensures w[a].originalTarget != w[b].originalTarget
          {
            var a' := if a < i then a else a + 1;
            var b' := if b < i then b else b + 1;
            assert w[a] == v[a'] && w[b] == v[b'];
          }
        }
        EraseFromKeepsUnique(w, i + 1, p);
      } else {
        EraseFromKeepsUnique(v, i + 1, p);
      }
    }
  }

  // ---- The scanning loops ----

  /** The lookup loop of unicastMessage and of the waiting branch: the next hop of the first entry for `target`. */
  method FindRoute(v: seq<Route>, target: Mac) returns (hop: Option<Mac>)
    ensures hop == Lookup(v, target)
  {
    var i := 0;
    assert v[i..] == v;
    while i < |v|
      invariant i <= |v|
      invariant Lookup(v[i..], target) == Lookup(v, target)
    {
      if v[i].originalTarget == target {
        return Some(v[i].intermediateTarget);
      }
      assert v[i..][1..] == v[i + 1..];
      i := i + 1;
    }
    return None;
  }

  /**
   * The routing-update loop of the dispatcher: every entry for `origin` is
   * pointed at `via`; with no entry, one is appended unless the origin is the
   * neighbour itself.
   */
  method LearnRoute(v: seq<Route>, origin: Mac, via: Mac) returns (r: seq<Route>)
    ensures r == Learn(v, origin, via)
  {
    r := v;
    var routeFound := false;
    var i := 0;
    while i < |r|
      invariant i <= |r| == |v|
      invariant forall j :: 0 <= j < i ==> r[j] == Redirected(v, origin, via)[j]
      invariant forall j :: i <= j < |v| ==> r[j] == v[j]
      invariant routeFound <==> exists j :: 0 <= j < i && v[j].originalTarget == origin
    {
      if r[i].originalTarget == origin {
        routeFound := true;
        if r[i].intermediateTarget != via {
          r := r[i := Route(origin, via)];
        }
      }
      i := i + 1;
    }
    if !routeFound {
      r := if origin != via then r + [Route(origin, via)] else r;
      assert r == Learn(v, origin, via);
    } else {
      assert Known(v, origin);
      assert r == Redirected(v, origin, via);
    }
  }

  /** An erase-inside-an-index-loop over the whole vector: each element satisfying `p` is erased and the index advances anyway. */
  method EraseWhere<T(!new)>(v: seq<T>, p: T -> bool) returns (r: seq<T>)
    ensures r == EraseFrom(v, 0, p)
  {
    r := v;
    var i := 0;
    while i < |r|
      invariant i <= |r| + 1
      invariant EraseFrom(r, i, p) == EraseFrom(v, 0, p)
      decreases |r| - i
    {
      if p(r[i]) {
        r := r[..i] + r[i + 1..];
      }
      i := i + 1;
    }
  }
}
