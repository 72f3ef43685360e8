/** Spawning, flushing and merging the work items of one recursion level: however items are
    spawned, run inline or drained, the edge map is that of the plain loop. */
module Scheduling {
  import opened Diagram
  import opened EdgeAlgebra
  import opened Operations

  const FLUSH_THRESHOLD: nat := 256

  type Pair = (Id, Id)

  /** What the recursion returns for a pair of children. */
  type Recursion = Pair -> Id

  predicate Within(e: Edges, g: Edges, ps: seq<Pair>) {
    forall i :: 0 <= i < |ps| ==> ps[i].0 in e && ps[i].1 in g
  }

  lemma WithinAppend(e: Edges, g: Edges, ps: seq<Pair>, p: Pair)
    requires Within(e, g, ps) && p.0 in e && p.1 in g
    ensures Within(e, g, ps + [p])
  {}

  /** A work item comes back with an edge if the labels meet, and empty-handed otherwise. */
  function Emit(e: Edges, g: Edges, rec: Recursion, p: Pair): seq<Item>
    requires p.0 in e && p.1 in g
  {
    if e[p.0] * g[p.1] == {} then [] else [Item(rec(p), e[p.0] * g[p.1])]
  }

  /** Items of a list of pairs, in order. */
  function ItemsOf(e: Edges, g: Edges, rec: Recursion, ps: seq<Pair>): seq<Item>
    requires Within(e, g, ps)
  {
    if ps == [] then []
    else
      var k := |ps| - 1;
      ItemsOf(e, g, rec, ps[..k]) + Emit(e, g, rec, ps[k])
  }

  lemma {:induction false} MergeAppend(e: Edges, xs: seq<Item>, ys: seq<Item>)
    ensures MergeAll(e, xs + ys) == MergeAll(MergeAll(e, xs), ys)
    decreases |xs|
  {
    if xs == [] {
      assert xs + ys == ys;
    } else {
      assert (xs + ys)[1..] == xs[1..] + ys;
      MergeAppend(AddEdge(e, xs[0].child, xs[0].region), xs[1..], ys);
    }
  }

  /** Of the pairs seen so far, each has been merged once or is pending. */
  ghost predicate Split(merged: seq<Pair>, pending: seq<Pair>, all: seq<Pair>) {
    multiset(merged) + multiset(pending) == multiset(all)
  }

  lemma SplitSpawned(merged: seq<Pair>, pending: seq<Pair>, all: seq<Pair>, p: Pair)
    requires Split(merged, pending, all)
    ensures Split(merged, pending + [p], all + [p])
  {}

  lemma SplitInline(merged: seq<Pair>, pending: seq<Pair>, all: seq<Pair>, p: Pair)
    requires Split(merged, pending, all)
    ensures Split(merged + [p], pending, all + [p])
  {}

  lemma SplitDrained(merged: seq<Pair>, pending: seq<Pair>, all: seq<Pair>)
    requires Split(merged, pending, all) && pending != []
    ensures Split(merged + [pending[|pending| - 1]], pending[..|pending| - 1], all)
  {
    assert pending == pending[..|pending| - 1] + [pending[|pending| - 1]];
  }

  /** Merge what an item brought back. */
  method MergeItem(e: Edges, g: Edges, rec: Recursion, res0: Edges, p: Pair, ghost merged: seq<Pair>)
    returns (res: Edges)
    requires p.0 in e && p.1 in g && Within(e, g, merged) && res0 == MergeAll(map[], ItemsOf(e, g, rec, merged))
    ensures res == MergeAll(map[], ItemsOf(e, g, rec, merged + [p]))
  {
    MergeAppend(map[], ItemsOf(e, g, rec, merged), Emit(e, g, rec, p));
    assert (merged + [p])[..|merged|] == merged;
    var region := e[p.0] * g[p.1];
    if region == {} {
      res := res0;
    } else {
      res := AddEdge(res0, rec(p), region);
      assert Emit(e, g, rec, p)[1..] == [];
    }
  }

  /** Progress of the loop: res holds the merged pairs, the others seen so far are pending. */
  ghost predicate Progress(e: Edges, g: Edges, rec: Recursion, res: Edges, pending: seq<Pair>, merged: seq<Pair>,
                           all: seq<Pair>) {
    && Within(e, g, pending) && Within(e, g, merged) && Split(merged, pending, all)
    && res == MergeAll(map[], ItemsOf(e, g, rec, merged))
  }

  /** Bring back the youngest spawned item. */
  method DrainOne(e: Edges, g: Edges, rec: Recursion, res0: Edges, pending0: seq<Pair>, ghost merged0: seq<Pair>,
                  ghost all: seq<Pair>)
    returns (res: Edges, pending: seq<Pair>, ghost merged: seq<Pair>)
    requires pending0 != [] && Progress(e, g, rec, res0, pending0, merged0, all)
    ensures |pending| == |pending0| - 1 && Progress(e, g, rec, res, pending, merged, all)
  {
    SplitDrained(merged0, pending0, all);
    var p := pending0[|pending0| - 1];
    WithinAppend(e, g, merged0, p);
    res := MergeItem(e, g, rec, res0, p, merged0);
    pending, merged := pending0[..|pending0| - 1], merged0 + [p];
  }

  /** Bring back the n youngest spawned items, youngest first. */
  method Drain(e: Edges, g: Edges, rec: Recursion, res0: Edges, pending0: seq<Pair>, n: nat, ghost merged0: seq<Pair>,
               ghost all: seq<Pair>)
    returns (res: Edges, pending: seq<Pair>, ghost merged: seq<Pair>)
    requires n <= |pending0| && Progress(e, g, rec, res0, pending0, merged0, all)
    ensures |pending| == |pending0| - n && Progress(e, g, rec, res, pending, merged, all)
  {
    res, pending, merged := res0, pending0, merged0;
    var i := 0;
    while i < n
      invariant i <= n && |pending| == |pending0| - i && Progress(e, g, rec, res, pending, merged, all)
    {
      res, pending, merged := DrainOne(e, g, rec, res, pending, merged, all);
      i := i + 1;
    }
  }

  /** Spawn the item of a pair, or run it inline. */
  method HandlePair(e: Edges, g: Edges, rec: Recursion, res0: Edges, pending0: seq<Pair>, p: Pair,
                    ghost merged0: seq<Pair>, ghost all: seq<Pair>)
    returns (res: Edges, pending: seq<Pair>, ghost merged: seq<Pair>)
    requires p.0 in e && p.1 in g && Progress(e, g, rec, res0, pending0, merged0, all)
    ensures |pending| <= |pending0| + 1 && Progress(e, g, rec, res, pending, merged, all + [p])
  {
    if * {
      SplitSpawned(merged0, pending0, all, p);
      WithinAppend(e, g, pending0, p);
      res, pending, merged := res0, pending0 + [p], merged0;
    } else {
      SplitInline(merged0, pending0, all, p);
      WithinAppend(e, g, merged0, p);
      res := MergeItem(e, g, rec, res0, p, merged0);
      pending, merged := pending0, merged0 + [p];
    }
  }

  /** Bring back half of the spawned items if the threshold is reached. */
  method Flush(e: Edges, g: Edges, rec: Recursion, res0: Edges, pending0: seq<Pair>, ghost merged0: seq<Pair>,
               ghost all: seq<Pair>)
    returns (res: Edges, pending: seq<Pair>, ghost merged: seq<Pair>)
    requires |pending0| <= FLUSH_THRESHOLD && Progress(e, g, rec, res0, pending0, merged0, all)
    ensures |pending| < FLUSH_THRESHOLD && Progress(e, g, rec, res, pending, merged, all)
    ensures |pending| == if |pending0| >= FLUSH_THRESHOLD then FLUSH_THRESHOLD / 2 else |pending0|
  {
    if |pending0| >= FLUSH_THRESHOLD {
      res, pending, merged := Drain(e, g, rec, res0, pending0, |pending0| - FLUSH_THRESHOLD / 2, merged0, all);
    } else {
      res, pending, merged := res0, pending0, merged0;
    }
  }

  /** One round of the loop, with the number of items pending before the flush. */
  method Round(e: Edges, g: Edges, rec: Recursion, res0: Edges, pending0: seq<Pair>, p: Pair,
               ghost merged0: seq<Pair>, ghost all: seq<Pair>)
    returns (res: Edges, pending: seq<Pair>, ghost merged: seq<Pair>, ghost high: nat)
    requires |pending0| < FLUSH_THRESHOLD && p.0 in e && p.1 in g && Progress(e, g, rec, res0, pending0, merged0, all)
    ensures |pending| < FLUSH_THRESHOLD && high <= FLUSH_THRESHOLD &&
            Progress(e, g, rec, res, pending, merged, all + [p])
  {
    res, pending, merged := HandlePair(e, g, rec, res0, pending0, p, merged0, all);
    high := |pending|;
    res, pending, merged := Flush(e, g, rec, res, pending, merged, all + [p]);
  }

  method Rounds(e: Edges, g: Edges, rec: Recursion, ps: seq<Pair>)
    returns (res: Edges, pending: seq<Pair>, ghost merged: seq<Pair>, ghost peak: nat)
    requires Within(e, g, ps)
    ensures peak <= FLUSH_THRESHOLD && Progress(e, g, rec, res, pending, merged, ps)
  {
    res, pending, merged, peak := map[], [], [], 0;
    ghost var all: seq<Pair> := [];
    var i := 0;
    while i < |ps|
      invariant i <= |ps| && |pending| < FLUSH_THRESHOLD && peak <= FLUSH_THRESHOLD && all == ps[..i]
      invariant Progress(e, g, rec, res, pending, merged, all)
    {
      ghost var high;
      res, pending, merged, high := Round(e, g, rec, res, pending, ps[i], merged, all);
      peak := if high > peak then high else peak;
      all := all + [ps[i]];
      i := i + 1;
    }
    assert all == ps;
  }

  /** The loop of one level: run each item inline or spawn it, flush half of the spawned items
      whenever the threshold is reached, and the rest at the end. Each pair is merged once. */
  method Schedule(e: Edges, g: Edges, rec: Recursion, ps: seq<Pair>)
    returns (res: Edges, ghost merged: seq<Pair>, ghost peak: nat)
    requires Within(e, g, ps)
    ensures multiset(merged) == multiset(ps)
    ensures res == MergeAll(map[], ItemsOf(e, g, rec, ps))
    ensures peak <= FLUSH_THRESHOLD
  {
    var pending;
    res, pending, merged, peak := Rounds(e, g, rec, ps);
    res, pending, merged := Drain(e, g, rec, res, pending, |pending|, merged, ps);
    assert pending == [];
    SameEdges(e, g, rec, merged, ps);
  }

  /** The pairs whose labels meet. */
  function Survivors(e: Edges, g: Edges, ps: seq<Pair>): (r: seq<Pair>)
    requires Within(e, g, ps)
    ensures Within(e, g, r)
  {
    if ps == [] then []
    else
      var k := |ps| - 1;
      Survivors(e, g, ps[..k]) + if e[ps[k].0] * g[ps[k].1] == {} then [] else [ps[k]]
  }

  lemma {:induction false} SurvivorsItems(e: Edges, g: Edges, rec: Recursion, ps: seq<Pair>)
    requires Within(e, g, ps)
    ensures ItemsOf(e, g, rec, Survivors(e, g, ps)) == ItemsOf(e, g, rec, ps)
  {
    if ps != [] {
      var k := |ps| - 1;
      SurvivorsItems(e, g, rec, ps[..k]);
      var q := Survivors(e, g, ps[..k]);
      if e[ps[k].0] * g[ps[k].1] == {} {
        assert q + [] == q;
      } else {
        assert (q + [ps[k]])[..|q|] == q;
      }
    }
  }

  /** Filter the pairs by their labels first, then recurse on the survivors: each is merged
      once, and the edge map is that of the single pass. */
  method TwoPhase(e: Edges, g: Edges, rec: Recursion, ps: seq<Pair>)
    returns (res: Edges, ghost merged: seq<Pair>, ghost peak: nat)
    requires Within(e, g, ps)
    ensures multiset(merged) == multiset(Survivors(e, g, ps))
    ensures res == MergeAll(map[], ItemsOf(e, g, rec, ps))
    ensures peak <= FLUSH_THRESHOLD
  {
    var kept: seq<Pair> := [];
    var i := 0;
    while i < |ps|
      invariant i <= |ps| && kept == Survivors(e, g, ps[..i])
    {
      assert ps[..i + 1][..i] == ps[..i];
      if e[ps[i].0] * g[ps[i].1] != {} {
        kept := kept + [ps[i]];
      }
      i := i + 1;
    }
    assert ps[..i] == ps;
    SurvivorsItems(e, g, rec, ps);
    res, merged, peak := Schedule(e, g, rec, kept);
  }

  // ---------------------------------------------------------------- order and meaning

  ghost predicate Emitted(e: Edges, g: Edges, rec: Recursion, ps: seq<Pair>, i: Item)
    requires Within(e, g, ps)
  {
    exists p :: p in ps && p.0 in e && p.1 in g && i in Emit(e, g, rec, p)
  }

  lemma {:induction false} ItemsEmitted(e: Edges, g: Edges, rec: Recursion, ps: seq<Pair>, i: Item)
    requires Within(e, g, ps)
    ensures i in ItemsOf(e, g, rec, ps) <==> Emitted(e, g, rec, ps, i)
  {
    if ps != [] {
      var k := |ps| - 1;
      ItemsEmitted(e, g, rec, ps[..k], i);
      assert forall p :: p in ps <==> p in ps[..k] || p == ps[k] by { assert ps == ps[..k] + [ps[k]]; }
    }
  }

  /** The order in which buckets list the pairs does not matter. */
  lemma SameEdges(e: Edges, g: Edges, rec: Recursion, ps: seq<Pair>, qs: seq<Pair>)
    requires Within(e, g, ps) && Within(e, g, qs) && multiset(ps) == multiset(qs)
    ensures MergeAll(map[], ItemsOf(e, g, rec, ps)) == MergeAll(map[], ItemsOf(e, g, rec, qs))
  {
    assert forall p :: p in ps <==> p in multiset(ps);
    assert forall p :: p in qs <==> p in multiset(qs);
    forall i ensures i in ItemsOf(e, g, rec, ps) <==> i in ItemsOf(e, g, rec, qs) {
      ItemsEmitted(e, g, rec, ps, i);
      ItemsEmitted(e, g, rec, qs, i);
    }
    MergeOrderIrrelevant(map[], ItemsOf(e, g, rec, ps), ItemsOf(e, g, rec, qs));
  }

  ghost predicate Listing(ps: seq<Pair>) {
    forall i, j :: 0 <= i < j < |ps| ==> ps[i] != ps[j]
  }

  function Elements(ps: seq<Pair>): set<Pair> { set p | p in ps }

  lemma BuiltPair(ws: Widths, s: Store, op: Op, f: nat, e: Edges, g: Edges, rec: Recursion, res: Edges,
                  done: set<Pair>, p: Pair)
    requires Built(ws, s, op, f, e, g, res, done) && p.0 in e && p.1 in g && p !in done
    requires e[p.0] * g[p.1] != {} ==> Computes(ws, s, op, p.0, p.1, rec(p))
    ensures Built(ws, s, op, f, e, g, MergeAll(res, Emit(e, g, rec, p)), done + {p})
  {
    if e[p.0] * g[p.1] == {} {
      PairEmpty(ws, s, op, f, e, g, res, done, p);
    } else {
      RegionPair(ws, s, f, e, g, p.0, p.1);
      BuiltAdd(ws, s, op, f, e, g, res, done, p, rec(p), e[p.0] * g[p.1]);
      assert Emit(e, g, rec, p)[1..] == [];
    }
  }

  /** If the recursion is right on the children, the merged edge map is right on every region
      listed. */
  lemma {:induction false} ScheduledBuilt(ws: Widths, s: Store, op: Op, f: nat, e: Edges, g: Edges, rec: Recursion,
                                          ps: seq<Pair>)
    requires Wf(ws, s) && WfEdges(ws, s, f, e) && WfEdges(ws, s, f, g) && Within(e, g, ps) && Listing(ps)
    requires forall p :: p in ps && e[p.0] * g[p.1] != {} ==> Computes(ws, s, op, p.0, p.1, rec(p))
    ensures Built(ws, s, op, f, e, g, MergeAll(map[], ItemsOf(e, g, rec, ps)), Elements(ps))
    decreases |ps|
  {
    if ps == [] {
      BuiltNothing(ws, s, op, f, e, g);
      assert Elements(ps) == {};
    } else {
      var k := |ps| - 1;
      var p, before := ps[k], ps[..k];
      ScheduledBuilt(ws, s, op, f, e, g, rec, before);
      assert p !in before;
      assert ps == before + [p];
      assert Elements(ps) == Elements(before) + {p};
      MergeAppend(map[], ItemsOf(e, g, rec, before), Emit(e, g, rec, p));
      BuiltPair(ws, s, op, f, e, g, rec, MergeAll(map[], ItemsOf(e, g, rec, before)), Elements(before), p);
    }
  }
}
