/** The collector's invariants: one ascending pass over the fields, then the leaf sweep. */
module Collection {
  import opened Fractions
  import opened Diagram
  import opened Liveness
  import opened StoreSteps

  ghost predicate Submap(t: Store, s: Store) {
    forall i :: i in t ==> i in s && t[i] == s[i]
  }

  /** t is s with only dead nodes removed. */
  ghost predicate Shrunk(ws: Widths, s: Store, t: Store, pins: multiset<Id>) {
    && Wf(ws, s) && Wf(ws, t) && Submap(t, s)
    && Keeps(s, t, LiveSet(ws, s, pins)) && LiveSet(ws, s, pins) <= LiveSet(ws, t, pins)
  }

  lemma ShrunkSelf(ws: Widths, s: Store, pins: multiset<Id>)
    requires Wf(ws, s)
    ensures Shrunk(ws, s, s, pins)
  {}

  lemma ShrunkStep(ws: Widths, s: Store, t: Store, u: Store, pins: multiset<Id>)
    requires Shrunk(ws, s, t, pins) && Wf(ws, u) && Submap(u, t) && Keeps(t, u, LiveSet(ws, t, pins))
    ensures Shrunk(ws, s, u, pins)
  {
    LiveSetStays(ws, t, u, pins, pins);
    forall i | i in LiveSet(ws, s, pins) && i in s ensures KeptAt(s, u, i) {
      assert KeptAt(s, t, i);
      assert i in LiveSet(ws, t, pins) && KeptAt(t, u, i);
    }
  }

  /** Internal nodes the pass has left behind have a count. */
  ghost predicate Swept(s: Store, rc: Counts, f: nat, todo: set<Id>) {
    forall i {:trigger HasCount(rc, i)} ::
      i in s && s[i].Internal? && (s[i].field < f || (s[i].field == f && i !in todo)) ==> HasCount(rc, i)
  }

  lemma SweptStart(ws: Widths, s: Store, rc: Counts)
    requires Wf(ws, s)
    ensures Swept(s, rc, 1, s.Keys)
  {
    forall i | i in s && s[i].Internal? ensures s[i].field >= 1 {
      assert WfNode(ws, s, s[i]);
    }
  }

  /** After the last field every internal node has a count. */
  lemma SweptAll(ws: Widths, s: Store, rc: Counts)
    requires Wf(ws, s) && Swept(s, rc, |ws| + 1, s.Keys)
    ensures forall i {:trigger HasCount(rc, i)} :: i in s && s[i].Internal? ==> HasCount(rc, i)
  {
    forall i | i in s && s[i].Internal? ensures HasCount(rc, i) {
      assert WfNode(ws, s, s[i]);
    }
  }

  /** Leaves are left alone by the sweep of internal nodes. */
  ghost predicate LeavesStay(s: Store, t: Store) {
    forall i :: i in s && s[i].Leaf? ==> i in t && t[i].Leaf?
  }

  lemma LeavesStayStep(s: Store, t: Store, id: Id)
    requires LeavesStay(s, t) && id in t && t[id].Internal?
    ensures LeavesStay(s, Without(t, id))
  {}

  /** Every edge from a table node other than those in todo has been followed. */
  ghost predicate Marking(s: Store, marked: set<Id>, todo: set<Id>) {
    && {FALSE, TRUE} <= marked
    && (forall i :: i in marked ==> Marked(s, i))
    && (forall p :: p in s && s[p].Internal? && p !in todo ==> LeafKids(s, s[p].edges) <= marked)
  }

  function LeafKids(s: Store, e: Edges): set<Id> {
    set c | c in e.Keys && c in s && s[c].Leaf?
  }

  lemma MarkingStep(s: Store, marked: set<Id>, todo: set<Id>, p: Id)
    requires Marking(s, marked, todo) && p in s && s[p].Internal?
    ensures Marking(s, marked + LeafKids(s, s[p].edges), todo - {p})
  {
    forall c | c in LeafKids(s, s[p].edges) ensures Marked(s, c) { IsParent(s, p, c); }
  }

  lemma MarkingDone(s: Store, marked: set<Id>)
    requires Marking(s, marked, {})
    ensures forall i :: i in s && s[i].Leaf? ==> (i in marked <==> Marked(s, i))
  {
    forall i | i in s && s[i].Leaf? && Marked(s, i) ensures i in marked {
      if i != FALSE && i != TRUE {
        var p :| p in Parents(s, i);
        assert i in LeafKids(s, s[p].edges);
      }
    }
  }

  /** Reclaiming a node only lowers counts of deeper fields, which the pass has yet to visit. */
  lemma SweptRelease(ws: Widths, s: Store, rc: Counts, f: nat, todo: set<Id>, id: Id)
    requires Wf(ws, s) && Swept(s, rc, f, todo) && id in todo && id in s && s[id].Internal? && s[id].field == f
    ensures Swept(Without(s, id), Dropped(s, rc, id), f, todo - {id})
  {
    var t, rc' := Without(s, id), Dropped(s, rc, id);
    NodeChildren(ws, s, id);
    forall i | i in t && t[i].Internal? && (t[i].field < f || (t[i].field == f && i !in todo - {id}))
      ensures HasCount(rc', i)
    {
      assert i !in s[id].edges;
      assert HasCount(rc, i);
    }
  }

  lemma SweptKeep(s: Store, rc: Counts, f: nat, todo: set<Id>, id: Id)
    requires Swept(s, rc, f, todo) && (id in s && s[id].Internal? ==> HasCount(rc, id))
    ensures Swept(s, rc, f, todo - {id})
  {
    forall i | i in s && s[i].Internal? && (s[i].field < f || (s[i].field == f && i !in todo - {id}))
      ensures HasCount(rc, i)
    {}
  }

  /** The counts and leaf facts a collection maintains. */
  ghost predicate CollectInv(ws: Widths, boolean: bool, s0: Store, s: Store, frac: map<Id, Frac>, rc: Counts,
                             pins: multiset<Id>) {
    StoreOk(ws, s, boolean) && LeafKeys(s, frac) && RcInv(s, rc, pins) && Shrunk(ws, s0, s, pins)
  }

  lemma CollectRelease(ws: Widths, boolean: bool, s0: Store, s: Store, frac: map<Id, Frac>, rc: Counts,
                       pins: multiset<Id>, id: Id)
    requires CollectInv(ws, boolean, s0, s, frac, rc, pins)
    requires id in s && s[id].Internal? && id in rc && rc[id] == 0
    ensures CollectInv(ws, boolean, s0, Without(s, id), frac, Dropped(s, rc, id), pins)
  {
    ReleaseOk(ws, s, rc, pins, id);
    FactsShrink(s, frac, {id});
    ShrunkStep(ws, s0, s, Without(s, id), pins);
  }

  lemma CollectLeaves(ws: Widths, boolean: bool, s0: Store, s: Store, frac: map<Id, Frac>, rc: Counts,
                      pins: multiset<Id>, dead: set<Id>)
    requires CollectInv(ws, boolean, s0, s, frac, rc, pins)
    requires forall i :: i in dead ==> i in s && s[i].Leaf? && !Marked(s, i)
    ensures CollectInv(ws, boolean, s0, s - dead, frac, rc, pins)
  {
    SweptLeavesWf(ws, s, rc, pins, dead);
    FactsShrink(s, frac, dead);
    ShrunkStep(ws, s0, s, s - dead, pins);
  }

  /** What a finished collection guarantees. */
  ghost predicate Collected(ws: Widths, s0: Store, s: Store, rc: Counts, pins: multiset<Id>) {
    && Shrunk(ws, s0, s, pins)
    && (forall i {:trigger HasCount(rc, i)} :: i in s && s[i].Internal? ==> HasCount(rc, i))
    && (forall i :: i in s0 && s0[i].Leaf? ==> (i in s <==> Marked(s, i)))
  }

  /** Safety spelled out: no surviving edge points to a reclaimed node, and everything live
      still means what it meant. */
  lemma CollectedSafe(ws: Widths, s0: Store, s: Store, rc: Counts, pins: multiset<Id>, a: Id, v: Assignment)
    requires Collected(ws, s0, s, rc, pins) && Fits(ws, v)
    ensures forall i, c :: i in s && s[i].Internal? && c in s[i].edges ==> c in s
    ensures a in s0 && Live(ws, s0, pins, a) ==> a in s && Eval(ws, s, a, v) == Eval(ws, s0, a, v)
  {
    forall i | i in s && s[i].Internal? ensures s[i].edges.Keys <= s.Keys {
      NodeChildren(ws, s, i);
    }
    if a in s0 && Live(ws, s0, pins, a) {
      LiveClosed(ws, s0, pins);
      EvalKept(ws, s0, s, LiveSet(ws, s0, pins), a, v);
    }
  }

  /** A collection that keeps what is live from more roots keeps what is live from fewer. */
  lemma CollectedFewer(ws: Widths, s0: Store, s: Store, rc: Counts, roots: multiset<Id>, pins: multiset<Id>)
    requires Collected(ws, s0, s, rc, roots) && pins <= roots
    ensures Collected(ws, s0, s, rc, pins)
  {
    assert Keeps(s0, s0, LiveSet(ws, s0, pins));
    LiveSetStays(ws, s0, s0, pins, roots);
    KeepsLess(s0, s, LiveSet(ws, s0, pins), LiveSet(ws, s0, roots));
    LiveSetStays(ws, s0, s, pins, pins);
  }

  /** The sweep has left counts exact, and the sticky nodes are roots. */
  ghost predicate ExactFrom(s: Store, rc: Counts, pins: multiset<Id>, roots: multiset<Id>) {
    && RcExact(s, rc, pins) && pins <= roots && (Sticky(s, rc) <= set i | i in roots)
    && (roots == pins ==> Sticky(s, rc) == {})
  }

  lemma ExactStart(s: Store, rc: Counts, pins: multiset<Id>)
    requires RcExact(s, rc, pins)
    ensures ExactFrom(s, rc, pins, Roots(s, rc, pins))
  {
    forall i | i in Sticky(s, rc) ensures Roots(s, rc, pins)[i] > pins[i] {}
  }

  lemma CollectStart(s: Store, rc: Counts, pins: multiset<Id>, raised: bool, peak: nat)
    requires RcInv(s, rc, pins) && Exact(s, rc, pins, raised, peak)
    ensures RcInv(s, rc, Roots(s, rc, pins))
    ensures !raised ==> ExactFrom(s, rc, pins, Roots(s, rc, pins))
  {
    RootsCovered(s, rc, pins);
    if !raised { ExactStart(s, rc, pins); }
  }

  /** What was collected from the references and the sticky nodes, said of the references. */
  lemma CollectDone(ws: Widths, s: Store, rc: Counts, t: Store, rc': Counts, pins: multiset<Id>, raised: bool,
                    peak: nat)
    requires Exact(s, rc, pins, raised, peak) && RcInv(t, rc', Roots(s, rc, pins))
    requires Collected(ws, s, t, rc', Roots(s, rc, pins))
    requires !raised ==> ExactFrom(t, rc', pins, Roots(s, rc, pins))
    ensures Collected(ws, s, t, rc', pins) && RcInv(t, rc', pins) && Exact(t, rc', pins, raised, peak)
    ensures !raised && peak < PROTECTED ==> Roots(s, rc, pins) == pins
  {
    FewerPins(t, rc', Roots(s, rc, pins), pins);
    CollectedFewer(ws, s, t, rc', Roots(s, rc, pins), pins);
    if !raised && peak < PROTECTED { assert Roots(s, rc, pins) == pins; }
  }

  lemma ExactRelease(s: Store, rc: Counts, pins: multiset<Id>, roots: multiset<Id>, id: Id)
    requires ExactFrom(s, rc, pins, roots) && id in s && s[id].Internal?
    ensures ExactFrom(Without(s, id), Dropped(s, rc, id), pins, roots)
  {
    ReleaseExact(s, rc, pins, id);
  }

  /** Completeness: with exact counts, exactly the live nodes survive one pass. */
  lemma CollectedExact(ws: Widths, s0: Store, s: Store, rc: Counts, pins: multiset<Id>, roots: multiset<Id>)
    requires Collected(ws, s0, s, rc, roots) && ExactFrom(s, rc, pins, roots)
    ensures s.Keys == LiveSet(ws, s0, roots)
  {
    forall i | i in s ensures i in LiveSet(ws, s0, roots) {
      SurvivorLive(ws, s0, s, rc, pins, roots, i);
    }
  }

  lemma SurvivorLive(ws: Widths, s0: Store, s: Store, rc: Counts, pins: multiset<Id>, roots: multiset<Id>, i: Id)
    requires Collected(ws, s0, s, rc, roots) && ExactFrom(s, rc, pins, roots) && i in s
    ensures i in s0 && Live(ws, s0, roots, i)
  {
    if s[i].Internal? {
      ExactLive(ws, s, rc, pins, roots, i);
    } else {
      assert Marked(s, i);
      if i != FALSE && i != TRUE {
        var p :| p in Parents(s, i);
        ExactLive(ws, s, rc, pins, roots, p);
        NodeChildren(ws, s, p);
      }
    }
    LiveBefore(ws, s0, s, roots, i);
  }

  /** A node live after dead ones were removed was live before. */
  lemma {:induction false} LiveBefore(ws: Widths, s0: Store, s: Store, pins: multiset<Id>, i: Id)
    requires Wf(ws, s0) && Wf(ws, s) && Submap(s, s0) && i in s && Live(ws, s, pins, i)
    ensures i in s0 && Live(ws, s0, pins, i)
    decreases Level(s, i)
  {
    if i != FALSE && i != TRUE && i !in pins {
      var p :| p in s && s[p].Internal? && i in s[p].edges && Level(s, p) < Level(s, i) && Live(ws, s, pins, p);
      LiveBefore(ws, s0, s, pins, p);
    }
  }
}
