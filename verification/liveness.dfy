/** Reference counts, what they must cover, and which nodes a collection may not touch. */
module Liveness {
  import opened Diagram

  type Counts = map<Id, nat>

  /** A count of UINT32_MAX is sticky: the node is protected. */
  const PROTECTED: nat := 0xFFFF_FFFF

  function Up(n: nat): nat { if n == PROTECTED then n else n + 1 }

  /** Dropping below zero would wrap around to the sticky count. */
  function Down(n: nat): nat { if n == PROTECTED then n else if n == 0 then PROTECTED else n - 1 }

  /** Table nodes with an edge to id. */
  ghost function Parents(s: Store, id: Id): set<Id> {
    set p | p in s && s[p].Internal? && id in s[p].edges
  }

  lemma IsParent(s: Store, p: Id, id: Id)
    requires p in s && s[p].Internal? && id in s[p].edges
    ensures p in Parents(s, id)
  {}

  /** The count covers the references held on the node and the edges into it. It may exceed
      them: an OR leaves counts raised. */
  ghost predicate CountOk(s: Store, rc: Counts, pins: multiset<Id>, id: Id) {
    id in rc && rc[id] <= PROTECTED && (rc[id] == PROTECTED || rc[id] >= pins[id] + |Parents(s, id)|)
  }

  ghost predicate RcInv(s: Store, rc: Counts, pins: multiset<Id>) {
    && (forall i {:trigger CountOk(s, rc, pins, i)} :: i in s && s[i].Internal? ==> CountOk(s, rc, pins, i))
    && (forall i :: i in pins ==> i in s && s[i].Internal?)
  }

  predicate HasCount(rc: Counts, i: Id) { i in rc && rc[i] != 0 }

  /** The count is exactly the number of references and edges, or it is sticky. */
  ghost predicate ExactAt(s: Store, rc: Counts, pins: multiset<Id>, i: Id) {
    i in rc && rc[i] <= PROTECTED && (rc[i] == PROTECTED || rc[i] == pins[i] + |Parents(s, i)|)
  }

  ghost predicate RcExact(s: Store, rc: Counts, pins: multiset<Id>) {
    forall i {:trigger ExactAt(s, rc, pins, i)} :: i in s && s[i].Internal? ==> ExactAt(s, rc, pins, i)
  }

  /** Nodes with a sticky count: the sweep never reclaims them. */
  ghost function Sticky(s: Store, rc: Counts): set<Id> {
    set i | i in s && s[i].Internal? && i in rc && rc[i] == PROTECTED
  }

  /** What a collection starts from: the references held, and the sticky nodes. */
  ghost function Roots(s: Store, rc: Counts, pins: multiset<Id>): multiset<Id> {
    pins + multiset(Sticky(s, rc))
  }

  lemma RootsCovered(s: Store, rc: Counts, pins: multiset<Id>)
    requires RcInv(s, rc, pins)
    ensures RcInv(s, rc, Roots(s, rc, pins))
  {
    forall i | i in s && s[i].Internal? ensures CountOk(s, rc, Roots(s, rc, pins), i) {
      assert CountOk(s, rc, pins, i);
    }
  }

  lemma FewerPins(s: Store, rc: Counts, roots: multiset<Id>, pins: multiset<Id>)
    requires RcInv(s, rc, roots) && pins <= roots
    ensures RcInv(s, rc, pins)
  {
    forall i | i in s && s[i].Internal? ensures CountOk(s, rc, pins, i) { assert CountOk(s, rc, roots, i); }
    forall i | i in pins ensures i in s && s[i].Internal? { assert i in roots; }
  }

  // ---------------------------------------------------------------- live nodes

  ghost predicate Live(ws: Widths, s: Store, pins: multiset<Id>, id: Id)
    requires Wf(ws, s) && id in s
    decreases Level(s, id)
  {
    id == FALSE || id == TRUE || id in pins ||
    exists p :: p in s && s[p].Internal? && id in s[p].edges && Level(s, p) < Level(s, id) && Live(ws, s, pins, p)
  }

  ghost function LiveSet(ws: Widths, s: Store, pins: multiset<Id>): set<Id>
    requires Wf(ws, s)
  {
    set i | i in s && Live(ws, s, pins, i)
  }

  lemma LiveClosed(ws: Widths, s: Store, pins: multiset<Id>)
    requires Wf(ws, s)
    ensures Closed(s, LiveSet(ws, s, pins))
  {
    var k := LiveSet(ws, s, pins);
    forall i | i in k ensures ClosedAt(s, k, i) {
      if s[i].Internal? { NodeChildren(ws, s, i); }
    }
  }

  lemma {:induction false} LiveStays(ws: Widths, s: Store, t: Store, pins: multiset<Id>, more: multiset<Id>, id: Id)
    requires Wf(ws, s) && Wf(ws, t) && Keeps(s, t, LiveSet(ws, s, pins)) && pins <= more
    requires id in s && Live(ws, s, pins, id)
    ensures id in t && Live(ws, t, more, id)
    decreases Level(s, id)
  {
    assert id in LiveSet(ws, s, pins) && KeptAt(s, t, id);
    if id != FALSE && id != TRUE && id !in pins {
      var p :| p in s && s[p].Internal? && id in s[p].edges && Level(s, p) < Level(s, id) && Live(ws, s, pins, p);
      LiveStays(ws, s, t, pins, more, p);
      assert p in LiveSet(ws, s, pins) && KeptAt(s, t, p);
    }
  }

  /** Keeping the live nodes keeps them live. */
  lemma LiveSetStays(ws: Widths, s: Store, t: Store, pins: multiset<Id>, more: multiset<Id>)
    requires Wf(ws, s) && Wf(ws, t) && Keeps(s, t, LiveSet(ws, s, pins)) && pins <= more
    ensures LiveSet(ws, s, pins) <= LiveSet(ws, t, more)
  {
    forall i | i in LiveSet(ws, s, pins) ensures i in LiveSet(ws, t, more) {
      LiveStays(ws, s, t, pins, more, i);
    }
  }

  /** If the live nodes are kept, nothing else becomes live. */
  lemma {:induction false} LiveNoNew(ws: Widths, s: Store, t: Store, pins: multiset<Id>, id: Id)
    requires Wf(ws, s) && Wf(ws, t) && Keeps(s, t, LiveSet(ws, s, pins)) && (forall i :: i in pins ==> i in s)
    requires id in t && Live(ws, t, pins, id)
    ensures id in s && Live(ws, s, pins, id)
    decreases Level(t, id)
  {
    if id != FALSE && id != TRUE && id !in pins {
      var p :| p in t && t[p].Internal? && id in t[p].edges && Level(t, p) < Level(t, id) && Live(ws, t, pins, p);
      LiveNoNew(ws, s, t, pins, p);
      assert p in LiveSet(ws, s, pins) && KeptAt(s, t, p);
      NodeChildren(ws, s, p);
    }
  }

  // ---------------------------------------------------------------- reference steps

  function Raise(rc: Counts, k: set<Id>): Counts {
    map i | i in rc :: if i in k then Up(rc[i]) else rc[i]
  }

  function Lower(rc: Counts, k: set<Id>): Counts {
    map i | i in rc :: if i in k then Down(rc[i]) else rc[i]
  }

  /** The children of an edge map that carry a count. */
  function Kids(s: Store, e: Edges): set<Id> {
    set c | c in e.Keys && c in s && s[c].Internal?
  }

  lemma RaiseOk(s: Store, rc: Counts, pins: multiset<Id>, k: set<Id>)
    requires RcInv(s, rc, pins) && (forall i :: i in k ==> i in s && s[i].Internal?)
    ensures RcInv(s, Raise(rc, k), pins + multiset(k)) && RcInv(s, Raise(rc, k), pins)
  {
    var rc' := Raise(rc, k);
    forall i | i in s && s[i].Internal?
      ensures CountOk(s, rc', pins + multiset(k), i) && CountOk(s, rc', pins, i)
    {
      assert CountOk(s, rc, pins, i);
    }
  }

  /** Taking one more reference on an internal node makes it live and loses nothing. */
  lemma PinOk(ws: Widths, s: Store, rc: Counts, pins: multiset<Id>, id: Id)
    requires Wf(ws, s) && RcInv(s, rc, pins) && id in s && s[id].Internal?
    ensures RcInv(s, Raise(rc, {id}), pins + multiset{id})
    ensures LiveSet(ws, s, pins) <= LiveSet(ws, s, pins + multiset{id}) && id in LiveSet(ws, s, pins + multiset{id})
  {
    RaiseOk(s, rc, pins, {id});
    assert multiset({id}) == multiset{id};
    LiveSetStays(ws, s, s, pins, pins + multiset{id});
  }

  lemma LowerOk(s: Store, rc: Counts, pins: multiset<Id>, i: Id)
    requires RcInv(s, rc, pins) && i in pins
    ensures RcInv(s, Lower(rc, {i}), pins - multiset{i})
  {
    var rc' := Lower(rc, {i});
    forall j | j in s && s[j].Internal? ensures CountOk(s, rc', pins - multiset{i}, j) {
      assert CountOk(s, rc, pins, j);
    }
  }

  lemma ParentsLinked(s: Store, id: Id, f: nat, e: Edges, i: Id)
    requires id !in s
    ensures |Parents(s[id := Internal(f, e)], i)| == |Parents(s, i)| + if i in e then 1 else 0
  {
    var t := s[id := Internal(f, e)];
    assert Parents(t, i) == Parents(s, i) + (if i in e then {id} else {});
    assert id !in Parents(s, i);
  }

  lemma NewNodeOrphan(ws: Widths, s: Store, id: Id, f: nat, e: Edges)
    requires Wf(ws, s) && id !in s && WfEdges(ws, s, f, e)
    ensures Parents(s, id) == {} && id !in e
  {
    EdgesAll(ws, s, f, e);
    forall p | p in s && s[p].Internal? ensures id !in s[p].edges {
      NodeChildren(ws, s, p);
    }
  }

  lemma CountLinked(s: Store, rc: Counts, pins: multiset<Id>, kids: set<Id>, t: Store, rc': Counts, i: Id)
    requires CountOk(s, rc, pins + multiset(kids), i) && i in rc' && rc'[i] == rc[i]
    requires |Parents(t, i)| <= |Parents(s, i)| + if i in kids then 1 else 0
    ensures CountOk(t, rc', pins, i)
  {
    assert (pins + multiset(kids))[i] == pins[i] + if i in kids then 1 else 0;
  }

  /** Linking a node turns the references mk took on its children into edges. */
  lemma LinkOk(ws: Widths, s: Store, rc: Counts, pins: multiset<Id>, id: Id, f: nat, e: Edges)
    requires Wf(ws, s) && id !in s && WfEdges(ws, s, f, e)
    requires RcInv(s, rc, pins + multiset(Kids(s, e)))
    ensures RcInv(s[id := Internal(f, e)], rc[id := 0], pins)
  {
    NewNodeOrphan(ws, s, id, f, e);
    CountsLinked(s, rc, pins, id, f, e);
  }

  lemma CountsLinked(s: Store, rc: Counts, pins: multiset<Id>, id: Id, f: nat, e: Edges)
    requires id !in s && id !in e && Parents(s, id) == {}
    requires RcInv(s, rc, pins + multiset(Kids(s, e)))
    ensures RcInv(s[id := Internal(f, e)], rc[id := 0], pins)
  {
    var t, rc', k := s[id := Internal(f, e)], rc[id := 0], Kids(s, e);
    assert forall i :: i in pins ==> i in pins + multiset(k);
    forall i | i in t && t[i].Internal? ensures CountOk(t, rc', pins, i) {
      ParentsLinked(s, id, f, e, i);
      if i != id {
        assert CountOk(s, rc, pins + multiset(k), i);
        CountLinked(s, rc, pins, k, t, rc', i);
      }
    }
  }

  lemma LinkLeafOk(s: Store, rc: Counts, pins: multiset<Id>, id: Id, v: real)
    requires id !in s && RcInv(s, rc, pins)
    ensures RcInv(s[id := Leaf(v)], rc, pins)
  {
    var t := s[id := Leaf(v)];
    forall i | i in t && t[i].Internal? ensures CountOk(t, rc, pins, i) {
      assert CountOk(s, rc, pins, i);
      assert Parents(t, i) == Parents(s, i);
    }
  }

  // ---------------------------------------------------------------- reclaiming a node

  function Without(s: Store, id: Id): Store { s - {id} }

  /** Counts after the node has dropped its references to its children. */
  function Dropped(s: Store, rc: Counts, id: Id): Counts
    requires id in s && s[id].Internal?
  {
    Lower(rc, Kids(s, s[id].edges)) - {id}
  }

  lemma Unreferenced(s: Store, rc: Counts, pins: multiset<Id>, id: Id)
    requires RcInv(s, rc, pins) && id in s && s[id].Internal? && id in rc && rc[id] == 0
    ensures id !in pins && Parents(s, id) == {}
  {
    assert CountOk(s, rc, pins, id);
  }

  lemma UnreferencedDead(ws: Widths, s: Store, pins: multiset<Id>, id: Id)
    requires Wf(ws, s) && id in s && s[id].Internal? && id !in pins && Parents(s, id) == {}
    ensures !Live(ws, s, pins, id)
  {
    forall p | p in s && s[p].Internal? ensures id !in s[p].edges {
      if id in s[p].edges { IsParent(s, p, id); }
    }
  }

  /** Removing a node nothing points to leaves a well-formed store. */
  lemma WithoutWf(ws: Widths, s: Store, id: Id)
    requires Wf(ws, s) && id in s && id != FALSE && id != TRUE && Parents(s, id) == {}
    ensures Wf(ws, Without(s, id))
  {
    var t := Without(s, id);
    forall i | i in t ensures WfNode(ws, t, t[i]) {
      assert WfNode(ws, s, s[i]);
      if s[i].Internal? {
        if id in s[i].edges { IsParent(s, i, id); }
        forall c | c in s[i].edges ensures EdgeOk(ws, t, s[i].field, s[i].edges, c) {
          assert EdgeOk(ws, s, s[i].field, s[i].edges, c);
        }
      }
    }
    StillUnique(s, t);
  }

  lemma StillUnique(s: Store, t: Store)
    requires Unique(s) && forall i :: i in t ==> i in s && t[i] == s[i]
    ensures Unique(t)
  {
    forall i, j | i in t && j in t && SameNode(t, i, j) ensures i == j {
      assert SameNode(s, i, j);
    }
  }

  lemma ParentsWithout(s: Store, id: Id, i: Id)
    requires id in s && s[id].Internal?
    ensures Parents(Without(s, id), i) == Parents(s, i) - {id}
  {}

  lemma CountDropped(s: Store, rc: Counts, pins: multiset<Id>, id: Id, i: Id)
    requires id in s && s[id].Internal? && i in s && s[i].Internal? && i != id && CountOk(s, rc, pins, i)
    ensures CountOk(Without(s, id), Dropped(s, rc, id), pins, i)
  {
    ParentsWithout(s, id, i);
    if i in s[id].edges {
      assert id in Parents(s, i);
      assert |Parents(s, i) - {id}| == |Parents(s, i)| - 1;
    } else {
      assert id !in Parents(s, i);
      assert Parents(s, i) - {id} == Parents(s, i);
    }
  }

  /** One step of the sweep: a node with count zero is dead, and reclaiming it keeps the
      store well formed, the counts covering, and every live node in place. */
  lemma ReleaseOk(ws: Widths, s: Store, rc: Counts, pins: multiset<Id>, id: Id)
    requires Wf(ws, s) && RcInv(s, rc, pins) && id in s && s[id].Internal? && id in rc && rc[id] == 0
    ensures Wf(ws, Without(s, id)) && RcInv(Without(s, id), Dropped(s, rc, id), pins)
    ensures Keeps(s, Without(s, id), LiveSet(ws, s, pins))
  {
    Unreferenced(s, rc, pins, id);
    UnreferencedDead(ws, s, pins, id);
    WithoutWf(ws, s, id);
    var t, rc' := Without(s, id), Dropped(s, rc, id);
    forall i | i in t && t[i].Internal? ensures CountOk(t, rc', pins, i) {
      assert CountOk(s, rc, pins, i);
      CountDropped(s, rc, pins, id, i);
    }
  }

  /** Exact counts stay exact, and no count becomes sticky. */
  lemma ReleaseExact(s: Store, rc: Counts, pins: multiset<Id>, id: Id)
    requires RcExact(s, rc, pins) && id in s && s[id].Internal?
    ensures RcExact(Without(s, id), Dropped(s, rc, id), pins)
    ensures Sticky(Without(s, id), Dropped(s, rc, id)) <= Sticky(s, rc)
  {
    var t, rc' := Without(s, id), Dropped(s, rc, id);
    forall i | i in t && t[i].Internal?
      ensures ExactAt(t, rc', pins, i) && (rc'[i] == PROTECTED ==> rc[i] == PROTECTED)
    {
      ExactDropped(s, rc, pins, id, i);
    }
  }

  lemma ExactDropped(s: Store, rc: Counts, pins: multiset<Id>, id: Id, i: Id)
    requires id in s && s[id].Internal? && i in s && s[i].Internal? && i != id
    requires RcExact(s, rc, pins)
    ensures ExactAt(Without(s, id), Dropped(s, rc, id), pins, i) && i in rc
    ensures Dropped(s, rc, id)[i] == PROTECTED ==> rc[i] == PROTECTED
  {
    assert ExactAt(s, rc, pins, i);
    ParentsWithout(s, id, i);
    if i in s[id].edges {
      assert id in Parents(s, i);
      assert |Parents(s, i) - {id}| == |Parents(s, i)| - 1;
    } else {
      assert id !in Parents(s, i);
      assert Parents(s, i) - {id} == Parents(s, i);
    }
  }

  /** With exact counts, a store without zero counts holds live internal nodes only. */
  lemma {:induction false} ExactLive(ws: Widths, s: Store, rc: Counts, pins: multiset<Id>, roots: multiset<Id>, id: Id)
    requires Wf(ws, s) && RcExact(s, rc, pins) && id in s && s[id].Internal?
    requires pins <= roots && Sticky(s, rc) <= set i | i in roots
    requires forall i {:trigger HasCount(rc, i)} :: i in s && s[i].Internal? ==> HasCount(rc, i)
    ensures Live(ws, s, roots, id)
    decreases Level(s, id)
  {
    if id !in roots {
      assert HasCount(rc, id) && ExactAt(s, rc, pins, id);
      assert id !in Sticky(s, rc);
      assert |Parents(s, id)| > 0;
      var p :| p in Parents(s, id);
      NodeChildren(ws, s, p);
      ExactLive(ws, s, rc, pins, roots, p);
    }
  }

  // ---------------------------------------------------------------- exact counts

  /** References and edges on a node. */
  ghost function Load(s: Store, pins: multiset<Id>, i: Id): nat { pins[i] + |Parents(s, i)| }

  function Max(x: nat, y: nat): nat { if x < y then y else x }

  /** The new peak after references were taken on k: the old one, or the load of one of k if that
      is more. */
  ghost predicate Peaks(s: Store, pins: multiset<Id>, k: set<Id>, before: nat, after: nat) {
    && before <= after
    && (after == before || exists i :: i in k && Load(s, pins, i) == after)
  }

  ghost function NewPeak(s: Store, pins: multiset<Id>, k: set<Id>, before: nat): (after: nat)
    ensures Peaks(s, pins, k, before, after) && forall i :: i in k ==> Load(s, pins, i) <= after
    decreases |k|
  {
    if k == {} then before
    else
      var i :| i in k;
      var after := NewPeak(s, pins, k - {i}, before);
      Max(after, Load(s, pins, i))
  }

  /** Unless an OR has raised them, counts are exact, and none is sticky as long as no node has had
      UINT32_MAX references and edges. */
  ghost predicate Exact(s: Store, rc: Counts, pins: multiset<Id>, raised: bool, peak: nat) {
    !raised ==> RcExact(s, rc, pins) && (peak < PROTECTED ==> Sticky(s, rc) == {})
  }

  lemma RaiseExact(s: Store, rc: Counts, pins: multiset<Id>, k: set<Id>, raised: bool, before: nat, peak: nat)
    requires Exact(s, rc, pins, raised, before) && before <= peak
    requires forall i :: i in k ==> Load(s, pins + multiset(k), i) <= peak
    ensures Exact(s, Raise(rc, k), pins + multiset(k), raised, peak)
  {
    if !raised {
      forall i | i in s && s[i].Internal?
        ensures ExactAt(s, Raise(rc, k), pins + multiset(k), i)
        ensures peak < PROTECTED && Raise(rc, k)[i] == PROTECTED ==> rc[i] == PROTECTED
      {
        assert ExactAt(s, rc, pins, i);
      }
      forall i | peak < PROTECTED && i in Sticky(s, Raise(rc, k)) ensures i in Sticky(s, rc) {}
    }
  }

  /** References on a set of nodes. */
  lemma RefsOk(ws: Widths, s: Store, rc: Counts, pins: multiset<Id>, k: set<Id>, raised: bool, before: nat, peak: nat)
    requires Wf(ws, s) && RcInv(s, rc, pins) && Exact(s, rc, pins, raised, before) && before <= peak
    requires forall i :: i in k ==> i in s && s[i].Internal? && Load(s, pins + multiset(k), i) <= peak
    ensures RcInv(s, Raise(rc, k), pins + multiset(k)) && Exact(s, Raise(rc, k), pins + multiset(k), raised, peak)
    ensures LiveSet(ws, s, pins) <= LiveSet(ws, s, pins + multiset(k))
  {
    RaiseOk(s, rc, pins, k);
    RaiseExact(s, rc, pins, k, raised, before, peak);
    LiveSetStays(ws, s, s, pins, pins + multiset(k));
  }

  lemma LowerExact(s: Store, rc: Counts, pins: multiset<Id>, i: Id, raised: bool, peak: nat)
    requires Exact(s, rc, pins, raised, peak) && i in pins
    ensures Exact(s, Lower(rc, {i}), pins - multiset{i}, raised, peak)
  {
    if !raised {
      forall j | j in s && s[j].Internal?
        ensures ExactAt(s, Lower(rc, {i}), pins - multiset{i}, j)
        ensures Lower(rc, {i})[j] == PROTECTED ==> rc[j] == PROTECTED
      {
        assert ExactAt(s, rc, pins, j);
      }
      forall j | j in Sticky(s, Lower(rc, {i})) ensures j in Sticky(s, rc) {}
    }
  }

  lemma LinkExact(ws: Widths, s: Store, rc: Counts, pins: multiset<Id>, id: Id, f: nat, e: Edges, raised: bool,
                  peak: nat)
    requires Wf(ws, s) && id !in s && WfEdges(ws, s, f, e) && id !in pins
    requires Exact(s, rc, pins + multiset(Kids(s, e)), raised, peak)
    ensures Exact(s[id := Internal(f, e)], rc[id := 0], pins, raised, peak)
  {
    NewNodeOrphan(ws, s, id, f, e);
    var t, rc', k := s[id := Internal(f, e)], rc[id := 0], Kids(s, e);
    if !raised {
      forall i | i in t && t[i].Internal? ensures ExactAt(t, rc', pins, i) {
        ParentsLinked(s, id, f, e, i);
        if i != id {
          assert ExactAt(s, rc, pins + multiset(k), i);
          assert (pins + multiset(k))[i] == pins[i] + if i in k then 1 else 0;
        }
      }
      forall i | i in Sticky(t, rc') ensures i in Sticky(s, rc) {}
    }
  }

  lemma LeafExact(s: Store, rc: Counts, pins: multiset<Id>, id: Id, v: real, raised: bool, peak: nat)
    requires id !in s && Exact(s, rc, pins, raised, peak)
    ensures Exact(s[id := Leaf(v)], rc, pins, raised, peak)
  {
    var t := s[id := Leaf(v)];
    if !raised {
      forall i | i in t && t[i].Internal? ensures ExactAt(t, rc, pins, i) {
        assert ExactAt(s, rc, pins, i);
        assert Parents(t, i) == Parents(s, i);
      }
      assert Sticky(t, rc) == Sticky(s, rc);
    }
  }

  // ---------------------------------------------------------------- leaves

  /** Leaves the mark phase reaches: the sentinels and every leaf some table node points to. */
  ghost predicate Marked(s: Store, id: Id) {
    id == FALSE || id == TRUE || Parents(s, id) != {}
  }

  lemma SweptLeavesWf(ws: Widths, s: Store, rc: Counts, pins: multiset<Id>, dead: set<Id>)
    requires Wf(ws, s) && RcInv(s, rc, pins)
    requires forall i :: i in dead ==> i in s && s[i].Leaf? && !Marked(s, i)
    ensures Wf(ws, s - dead) && RcInv(s - dead, rc, pins) && Keeps(s, s - dead, LiveSet(ws, s, pins))
    ensures forall i :: Parents(s - dead, i) == Parents(s, i)
  {
    var t := s - dead;
    forall i ensures Parents(t, i) == Parents(s, i) {
      forall p | p in Parents(s, i) ensures p in Parents(t, i) {}
    }
    forall i | i in t ensures WfNode(ws, t, t[i]) {
      assert WfNode(ws, s, s[i]);
      if s[i].Internal? {
        forall c | c in s[i].edges ensures EdgeOk(ws, t, s[i].field, s[i].edges, c) {
          assert EdgeOk(ws, s, s[i].field, s[i].edges, c);
          assert i in Parents(s, c);
        }
      }
    }
    forall i | i in t && t[i].Internal? ensures CountOk(t, rc, pins, i) {
      assert CountOk(s, rc, pins, i);
    }
    StillUnique(s, t);
    forall i | i in dead ensures !Live(ws, s, pins, i) {
      if Live(ws, s, pins, i) {
        var p :| p in s && s[p].Internal? && i in s[p].edges;
        IsParent(s, p, i);
      }
    }
  }
}
