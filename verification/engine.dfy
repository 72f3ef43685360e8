/** The engine: unique table, reference counts, operation caches, and the recursive operations
    that work on them. */
module Engines {
  import opened Labels
  import opened Fractions
  import opened Diagram
  import opened EdgeAlgebra
  import opened Operations
  import opened Liveness
  import opened StoreSteps
  import opened Collection

  /** Result of an operation: a node, or an error. */
  datatype Outcome = Got(id: Id) | Failed

  class Engine {
    const ws: Widths
    /** Boolean runs use and/or/not only; arithmetic runs share the two binary caches with them. */
    const boolean: bool
    /** Whether the node limit may be reached, and a collection run, inside an operation. */
    const collects: bool
    const univ: seq<Label>
    const slot: (Id, Id) -> nat
    /** The order in which buckets list the edges of a node. */
    const order: Edges -> seq<Id>

    var nodes: Store
    var frac: map<Id, Frac>
    var rc: Counts
    var andCache: seq<Slot>
    var orCache: seq<Slot>
    var notCache: seq<Slot>
    /** References held by clients and by running operations. */
    ghost var pins: multiset<Id>
    /** Whether an OR has left counts raised. */
    ghost var raised: bool
    /** The most references and edges that any node has had. */
    ghost var peak: nat

    ghost predicate Valid()
      reads this
    {
      && StoreOk(ws, nodes, boolean)
      && LeafKeys(nodes, frac)
      && RcInv(nodes, rc, pins)
      && CacheOk(ws, nodes, AndOp(), andCache)
      && CacheOk(ws, nodes, OrOp(), orCache)
      && CacheOk(ws, nodes, Minus, notCache)
      && (collects ==> boolean)
      && UnivOk(ws, univ)
      && (raised ==> boolean) && Exact(nodes, rc, pins, raised, peak)
    }

    function AndOp(): Op { if boolean then And else Times }

    function OrOp(): Op { if boolean then Or else Plus }

    /** Nodes that no collection inside an operation can remove. */
    ghost function Keep(): set<Id>
      requires Valid()
      reads this
    {
      if collects then LiveSet(ws, nodes, pins) else nodes.Keys
    }

    lemma KeepClosed()
      requires Valid()
      ensures Closed(nodes, Keep()) && FALSE in Keep() && TRUE in Keep()
    {
      LiveClosed(ws, nodes, pins);
      AllClosed(ws, nodes);
    }

    constructor (widths: Widths, universes: seq<Label>, booleanRun: bool, mayCollect: bool, cacheSize: nat,
                 hash: (Id, Id) -> nat, listing: Edges -> seq<Id>)
      requires Layout(widths) && cacheSize > 0 && (mayCollect ==> booleanRun)
      requires UnivOk(widths, universes)
      ensures Valid() && ws == widths && boolean == booleanRun && collects == mayCollect && pins == multiset{}
      ensures !raised && peak == 0 && order == listing
      ensures nodes == map[FALSE := Leaf(0.0), TRUE := Leaf(1.0)]
    {
      ws, univ, boolean, collects, slot, order := widths, universes, booleanRun, mayCollect, hash, listing;
      nodes := map[FALSE := Leaf(0.0), TRUE := Leaf(1.0)];
      frac := map[FALSE := Frac(0, 1), TRUE := Frac(1, 1)];
      rc, pins, raised, peak := map[], multiset{}, false, 0;
      andCache, orCache, notCache := Cleared(cacheSize), Cleared(cacheSize), Cleared(cacheSize);
      new;
      InitialFacts(nodes, frac);
    }

    // -------------------------------------------------------------- references

    /** Take a reference. Leaves carry none: their count is sticky. */
    method Pin(id: Id)
      requires Valid() && id in nodes && nodes[id].Internal?
      modifies this`rc, this`pins, this`peak
      ensures Valid() && old(Keep()) <= Keep() && id in Keep()
      ensures pins == old(pins) + multiset{id} && rc == Raise(old(rc), {id})
      ensures peak == Max(old(peak), Load(nodes, pins, id))
    {
      PinOk(ws, nodes, rc, pins, id);
      assert multiset({id}) == multiset{id};
      RaiseExact(nodes, rc, pins, {id}, raised, peak, Max(peak, Load(nodes, pins + multiset{id}, id)));
      peak := Max(peak, Load(nodes, pins + multiset{id}, id));
      rc := Raise(rc, {id});
      pins := pins + multiset{id};
    }

    /** Give back references that are held. */
    method Unpin(held: seq<Id>)
      requires Valid() && multiset(held) <= pins
      modifies this`rc, this`pins
      ensures Valid() && pins == old(pins) - multiset(held)
    {
      ghost var base := pins - multiset(held);
      var rest := held;
      while rest != []
        invariant Valid() && pins == base + multiset(rest)
        decreases |rest|
      {
        var id := rest[|rest| - 1];
        LastOut(rest);
        rest := rest[..|rest| - 1];
        UnpinOne(id);
      }
    }

    method UnpinOne(id: Id)
      requires Valid() && id in pins
      modifies this`rc, this`pins
      ensures Valid() && pins == old(pins) - multiset{id} && rc == Lower(old(rc), {id})
    {
      LowerOk(nodes, rc, pins, id);
      LowerExact(nodes, rc, pins, id, raised, peak);
      rc := Lower(rc, {id});
      pins := pins - multiset{id};
    }

    // -------------------------------------------------------------- collection

    /** One pass over the fields in ascending order, reclaiming nodes whose count is zero. */
    method Sweep(ghost roots: multiset<Id>)
      requires CollectInv(ws, boolean, nodes, nodes, frac, rc, roots)
      modifies this`nodes, this`rc
      ensures CollectInv(ws, boolean, old(nodes), nodes, frac, rc, roots)
      ensures forall i {:trigger HasCount(rc, i)} :: i in nodes && nodes[i].Internal? ==> HasCount(rc, i)
      ensures LeavesStay(old(nodes), nodes)
      ensures ExactFrom(old(nodes), old(rc), pins, roots) ==> ExactFrom(nodes, rc, pins, roots)
    {
      SweptStart(ws, nodes, rc);
      var f := 1;
      while f <= |ws|
        invariant 1 <= f <= |ws| + 1
        invariant CollectInv(ws, boolean, old(nodes), nodes, frac, rc, roots)
        invariant Swept(nodes, rc, f, nodes.Keys)
        invariant LeavesStay(old(nodes), nodes)
        invariant ExactFrom(old(nodes), old(rc), pins, roots) ==> ExactFrom(nodes, rc, pins, roots)
      {
        SweepField(f, old(nodes), roots);
        f := f + 1;
      }
      SweptAll(ws, nodes, rc);
    }

    method SweepField(f: nat, ghost s0: Store, ghost roots: multiset<Id>)
      requires CollectInv(ws, boolean, s0, nodes, frac, rc, roots)
      requires Swept(nodes, rc, f, nodes.Keys) && LeavesStay(s0, nodes)
      modifies this`nodes, this`rc
      ensures CollectInv(ws, boolean, s0, nodes, frac, rc, roots)
      ensures Swept(nodes, rc, f + 1, nodes.Keys) && LeavesStay(s0, nodes)
      ensures ExactFrom(old(nodes), old(rc), pins, roots) ==> ExactFrom(nodes, rc, pins, roots)
    {
      var todo := set i | i in nodes.Keys && nodes[i].Internal? && nodes[i].field == f;
      while todo != {}
        invariant CollectInv(ws, boolean, s0, nodes, frac, rc, roots)
        invariant Swept(nodes, rc, f, todo) && LeavesStay(s0, nodes)
        invariant forall i :: i in todo ==> i in nodes && nodes[i].Internal? && nodes[i].field == f
        invariant ExactFrom(old(nodes), old(rc), pins, roots) ==> ExactFrom(nodes, rc, pins, roots)
        decreases |todo|
      {
        var id :| id in todo;
        SweepNode(f, s0, todo, id, roots);
        todo := todo - {id};
      }
    }

    /** Reclaim one node if nothing refers to it, dropping its references to its children. */
    method SweepNode(f: nat, ghost s0: Store, ghost todo: set<Id>, id: Id, ghost roots: multiset<Id>)
      requires CollectInv(ws, boolean, s0, nodes, frac, rc, roots)
      requires Swept(nodes, rc, f, todo) && LeavesStay(s0, nodes)
      requires id in todo && id in nodes && nodes[id].Internal? && nodes[id].field == f
      modifies this`nodes, this`rc
      ensures CollectInv(ws, boolean, s0, nodes, frac, rc, roots)
      ensures Swept(nodes, rc, f, todo - {id}) && LeavesStay(s0, nodes)
      ensures nodes == old(nodes) || nodes == Without(old(nodes), id)
      ensures ExactFrom(old(nodes), old(rc), pins, roots) ==> ExactFrom(nodes, rc, pins, roots)
    {
      assert CountOk(nodes, rc, roots, id);
      if rc[id] == 0 {
        CollectRelease(ws, boolean, s0, nodes, frac, rc, roots, id);
        SweptRelease(ws, nodes, rc, f, todo, id);
        LeavesStayStep(s0, nodes, id);
        if ExactFrom(nodes, rc, pins, roots) { ExactRelease(nodes, rc, pins, roots, id); }
        nodes, rc := Without(nodes, id), Dropped(nodes, rc, id);
      } else {
        SweptKeep(nodes, rc, f, todo, id);
      }
    }

    /** The leaves that table nodes point to, and the sentinels. */
    method MarkLeaves() returns (marked: set<Id>)
      requires Wf(ws, nodes)
      ensures forall i :: i in nodes && nodes[i].Leaf? ==> (i in marked <==> Marked(nodes, i))
    {
      marked := {FALSE, TRUE};
      var todo := set i | i in nodes.Keys && nodes[i].Internal?;
      while todo != {}
        invariant todo <= nodes.Keys && forall i :: i in todo ==> nodes[i].Internal?
        invariant Marking(nodes, marked, todo)
        decreases |todo|
      {
        var p :| p in todo;
        MarkingStep(nodes, marked, todo, p);
        marked := marked + LeafKids(nodes, nodes[p].edges);
        todo := todo - {p};
      }
      MarkingDone(nodes, marked);
    }

    /** Mark the leaves that table nodes point to, and reclaim the rest except the sentinels. */
    method SweepLeaves(ghost s0: Store, ghost roots: multiset<Id>)
      requires CollectInv(ws, boolean, s0, nodes, frac, rc, roots)
      modifies this`nodes
      ensures CollectInv(ws, boolean, s0, nodes, frac, rc, roots)
      ensures Submap(nodes, old(nodes))
      ensures forall i :: i in old(nodes) && old(nodes)[i].Leaf? ==> (i in nodes <==> Marked(nodes, i))
      ensures forall i {:trigger Parents(nodes, i)} :: Parents(nodes, i) == Parents(old(nodes), i)
    {
      var marked := MarkLeaves();
      var dead := set i | i in nodes.Keys && nodes[i].Leaf? && i !in marked;
      CollectLeaves(ws, boolean, s0, nodes, frac, rc, roots, dead);
      SweptLeavesWf(ws, nodes, rc, roots, dead);
      nodes := nodes - dead;
    }

    method SweepAll(ghost roots: multiset<Id>)
      requires StoreOk(ws, nodes, boolean) && LeafKeys(nodes, frac) && RcInv(nodes, rc, roots)
      modifies this`nodes, this`rc
      ensures StoreOk(ws, nodes, boolean) && LeafKeys(nodes, frac) && RcInv(nodes, rc, roots)
      ensures Collected(ws, old(nodes), nodes, rc, roots)
      ensures ExactFrom(old(nodes), old(rc), pins, roots) ==>
                ExactFrom(nodes, rc, pins, roots) && nodes.Keys == LiveSet(ws, old(nodes), roots)
    {
      ShrunkSelf(ws, nodes, roots);
      ghost var s0, rc0 := nodes, rc;
      Sweep(roots);
      ghost var s1 := nodes;
      SweepLeaves(s0, roots);
      CollectEnd(ws, s0, s1, nodes, rc, roots);
      if ExactFrom(s0, rc0, pins, roots) {
        ExactAfterLeaves(s1, nodes, rc, pins, roots);
        CollectedExact(ws, s0, nodes, rc, pins, roots);
      }
    }

    /** Cached results may name reclaimed nodes, so every slot is emptied. */
    method ClearCaches()
      requires |andCache| > 0 && |orCache| > 0 && |notCache| > 0
      modifies this`andCache, this`orCache, this`notCache
      ensures andCache == Cleared(|old(andCache)|) && orCache == Cleared(|old(orCache)|)
      ensures notCache == Cleared(|old(notCache)|)
      ensures CacheOk(ws, nodes, AndOp(), andCache) && CacheOk(ws, nodes, OrOp(), orCache) &&
              CacheOk(ws, nodes, Minus, notCache)
    {
      andCache, orCache, notCache := Cleared(|andCache|), Cleared(|orCache|), Cleared(|notCache|);
      ClearedOk(ws, nodes, AndOp(), |andCache|);
      ClearedOk(ws, nodes, OrOp(), |orCache|);
      ClearedOk(ws, nodes, Minus, |notCache|);
    }

    /** Full collection: sweep, leaf sweep, then empty the caches. */
    method Collect()
      requires Valid()
      modifies this`nodes, this`rc, this`andCache, this`orCache, this`notCache
      ensures Valid() && Collected(ws, old(nodes), nodes, rc, pins)
      ensures Collected(ws, old(nodes), nodes, rc, Roots(old(nodes), old(rc), pins))
      ensures !raised ==> nodes.Keys == LiveSet(ws, old(nodes), Roots(old(nodes), old(rc), pins))
      ensures !raised && peak < PROTECTED ==> nodes.Keys == LiveSet(ws, old(nodes), pins)
      ensures andCache == Cleared(|old(andCache)|) && orCache == Cleared(|old(orCache)|)
      ensures notCache == Cleared(|old(notCache)|)
      ensures Keeps(old(nodes), nodes, LiveSet(ws, old(nodes), pins)) &&
              LiveSet(ws, old(nodes), pins) <= LiveSet(ws, nodes, pins)
    {
      SweepRoots();
      ClearCaches();
    }

    method SweepRoots()
      requires StoreOk(ws, nodes, boolean) && LeafKeys(nodes, frac) && RcInv(nodes, rc, pins)
      requires Exact(nodes, rc, pins, raised, peak)
      modifies this`nodes, this`rc
      ensures StoreOk(ws, nodes, boolean) && LeafKeys(nodes, frac) && RcInv(nodes, rc, pins)
      ensures Exact(nodes, rc, pins, raised, peak) && Collected(ws, old(nodes), nodes, rc, pins)
      ensures Collected(ws, old(nodes), nodes, rc, Roots(old(nodes), old(rc), pins))
      ensures !raised ==> nodes.Keys == LiveSet(ws, old(nodes), Roots(old(nodes), old(rc), pins))
      ensures !raised && peak < PROTECTED ==> nodes.Keys == LiveSet(ws, old(nodes), pins)
    {
      ghost var s0, rc0, roots := nodes, rc, Roots(nodes, rc, pins);
      CollectStart(nodes, rc, pins, raised, peak);
      SweepAll(roots);
      CollectDone(ws, s0, rc0, nodes, rc, pins, raised, peak);
    }

    // -------------------------------------------------------------- unique tables

    /** The canonical leaf for a fraction. */
    method MkLeaf(q: Frac) returns (r: Id)
      requires Valid() && !boolean && Canonical(q)
      modifies this`nodes, this`frac
      ensures Valid() && Keeps(old(nodes), nodes, old(nodes).Keys)
      ensures r in nodes && nodes[r] == Leaf(Value(q)) && forall i :: i in nodes && i !in old(nodes) ==> i == r
    {
      if i :| i in nodes && nodes[i].Leaf? && i in frac && frac[i] == q {
        KeyIffValue(nodes, frac, i, q);
        r := i;
      } else {
        forall i | i in nodes ensures nodes[i] != Leaf(Value(q)) {
          if nodes[i].Leaf? { KeyIffValue(nodes, frac, i, q); }
        }
        ghost var w := FreshId(nodes);
        assert w !in nodes;
        var id :| id !in nodes;
        CanonicalRepresentable(q);
        GrowFacts(id, Leaf(Value(q)));
        LinkLeafOk(nodes, rc, pins, id, Value(q));
        LeafExact(nodes, rc, pins, id, Value(q), raised, peak);
        LeafKeysInsertLeaf(nodes, frac, id, q);
        nodes, frac := nodes[id := Leaf(Value(q))], frac[id := q];
        r := id;
      }
    }

    /** Adding a node leaves everything said about the existing ones true. */
    lemma GrowFacts(id: Id, n: Node)
      requires Valid() && id !in nodes && WfNode(ws, nodes, n) && (n.Leaf? ==> !boolean && Representable(n.value))
      requires forall i :: i in nodes ==> nodes[i] != n
      ensures var t := nodes[id := n];
              && StoreOk(ws, t, boolean) && Keeps(nodes, t, nodes.Keys)
              && CacheOk(ws, t, AndOp(), andCache) && CacheOk(ws, t, OrOp(), orCache) && CacheOk(ws, t, Minus, notCache)
    {
      var t := nodes[id := n];
      InsertWf(ws, nodes, id, n);
      InsertRep(nodes, id, n);
      CacheKept(ws, nodes, t, AndOp(), andCache);
      CacheKept(ws, nodes, t, OrOp(), orCache);
      CacheKept(ws, nodes, t, Minus, notCache);
    }

    /** Create or reuse the node with these edges. A collection may run before a new node is
        linked; the references taken on the children keep them. */
    method Mk(f: nat, e: Edges) returns (r: Id)
      requires Valid() && WfEdges(ws, nodes, f, e) && e.Keys <= Keep()
      modifies this
      ensures raised == old(raised)
      ensures Valid() && pins == old(pins) && Keeps(old(nodes), nodes, old(Keep())) && old(Keep()) <= Keep()
      ensures Denotes(ws, nodes, f, e, r) && Level(nodes, r) >= f
      ensures r !in old(nodes) ==> Fresh(r)
      ensures Peaks(old(nodes), old(pins) + multiset(Kids(old(nodes), e)), Kids(old(nodes), e), old(peak), peak)
    {
      if |e| == 0 {
        assert e == map[];
        EmptyDenotes(ws, nodes, f);
        return FALSE;
      }
      if |e| == 1 {
        var c :| c in e;
        if e[c] == univ[f - 1] {
          FullDenotes(ws, nodes, f, e, c);
          EdgesAll(ws, nodes, f, e);
          return c;
        }
        OnlyOne(e, c);
      }
      forall c | c in e ensures e[c] != FieldUniv(ws, f) {
        if e[c] == FieldUniv(ws, f) { FullAlone(ws, nodes, f, e, c); }
      }
      if i :| i in nodes && nodes[i] == Internal(f, e) {
        DenotesOwn(ws, nodes, i);
        r := i;
      } else {
        r := Insert(f, e);
      }
    }

    /** A new node has count zero and nothing refers to it. */
    ghost predicate Fresh(r: Id)
      reads this
    {
      r in nodes && r in rc && rc[r] == 0 && r !in pins && Parents(nodes, r) == {}
    }

    method Insert(f: nat, e: Edges) returns (r: Id)
      requires Valid() && WfNode(ws, nodes, Internal(f, e)) && e.Keys <= Keep()
      requires forall i :: i in nodes ==> nodes[i] != Internal(f, e)
      modifies this
      ensures Fresh(r)
      ensures Peaks(old(nodes), old(pins) + multiset(Kids(old(nodes), e)), Kids(old(nodes), e), old(peak), peak)
      ensures raised == old(raised)
      ensures Valid() && pins == old(pins) && Keeps(old(nodes), nodes, old(Keep())) && old(Keep()) <= Keep()
      ensures Denotes(ws, nodes, f, e, r) && Level(nodes, r) >= f
    {
      ghost var k, s, p := Keep(), nodes, pins;
      RefChildren(Kids(nodes, e));
      r := CollectLink(f, e, p, k);
      KeepsLess(s, nodes, k, k);
      LiveSetStays(ws, s, nodes, p, p);
    }

    /** The children are referenced: collect if need be, then link. */
    method CollectLink(f: nat, e: Edges, ghost p: multiset<Id>, ghost k: set<Id>) returns (r: Id)
      requires Valid() && WfNode(ws, nodes, Internal(f, e)) && k <= nodes.Keys && e.Keys <= k
      requires collects ==> k <= LiveSet(ws, nodes, pins)
      requires forall i :: i in nodes ==> nodes[i] != Internal(f, e)
      requires pins == p + multiset(Kids(nodes, e))
      modifies this`nodes, this`rc, this`pins, this`andCache, this`orCache, this`notCache
      ensures Valid() && pins == p && Keeps(old(nodes), nodes, k) && Fresh(r)
      ensures Denotes(ws, nodes, f, e, r) && Level(nodes, r) >= f
    {
      ghost var s1 := nodes;
      if collects {
        MaybeCollect(f, e);
        KeepsLess(s1, nodes, k, LiveSet(ws, s1, pins));
      }
      ghost var s2 := nodes;
      r := Link(f, e, p);
      KeepsTrans(s1, s2, nodes, k, s2.Keys);
    }

    /** The node limit may or may not have been reached. */
    method MaybeCollect(f: nat, e: Edges)
      requires Valid() && WfNode(ws, nodes, Internal(f, e)) && e.Keys <= LiveSet(ws, nodes, pins)
      modifies this`nodes, this`rc, this`andCache, this`orCache, this`notCache
      ensures Valid() && Submap(nodes, old(nodes)) && WfNode(ws, nodes, Internal(f, e))
      ensures Keeps(old(nodes), nodes, LiveSet(ws, old(nodes), pins))
      ensures Kids(nodes, e) == Kids(old(nodes), e)
    {
      if * {
        ghost var s := nodes;
        Collect();
        WfEdgesKept(ws, s, nodes, LiveSet(ws, s, pins), f, e);
      }
    }

    /** Count the edges that are about to be added. */
    method RefChildren(kids: set<Id>)
      requires Valid() && forall c :: c in kids ==> c in nodes && nodes[c].Internal?
      modifies this`rc, this`pins, this`peak
      ensures Valid() && pins == old(pins) + multiset(kids) && rc == Raise(old(rc), kids)
      ensures LiveSet(ws, nodes, old(pins)) <= LiveSet(ws, nodes, pins)
      ensures Peaks(nodes, pins, kids, old(peak), peak)
    {
      ghost var high := NewPeak(nodes, pins + multiset(kids), kids, peak);
      RefsOk(ws, nodes, rc, pins, kids, raised, peak, high);
      peak := high;
      rc := Raise(rc, kids);
      pins := pins + multiset(kids);
    }

    method Link(f: nat, e: Edges, ghost p: multiset<Id>) returns (r: Id)
      requires Valid() && WfNode(ws, nodes, Internal(f, e))
      requires forall i :: i in nodes ==> nodes[i] != Internal(f, e)
      requires pins == p + multiset(Kids(nodes, e))
      modifies this`nodes, this`rc, this`pins
      ensures Valid() && pins == p && Keeps(old(nodes), nodes, old(nodes).Keys)
      ensures Denotes(ws, nodes, f, e, r) && Level(nodes, r) >= f
      ensures Fresh(r) && rc == old(rc)[r := 0] && nodes == old(nodes)[r := Internal(f, e)]
    {
      ghost var w := FreshId(nodes);
      assert w !in nodes;
      var id :| id !in nodes;
      GrowFacts(id, Internal(f, e));
      LinkOk(ws, nodes, rc, p, id, f, e);
      NewNodeOrphan(ws, nodes, id, f, e);
      assert CountOk(nodes[id := Internal(f, e)], rc[id := 0], p, id);
      LinkExact(ws, nodes, rc, p, id, f, e, raised, peak);
      LeafKeysInsertNode(nodes, frac, id, f, e);
      InsertDenotes(ws, nodes, id, f, e);
      nodes, rc := nodes[id := Internal(f, e)], rc[id := 0];
      pins := p;
      r := id;
    }
    // -------------------------------------------------------------- binary operations

    /** Hold a reference on an intermediate result until the enclosing operation is done. */
    method Hold(id: Id, held: seq<Id>, ghost base: multiset<Id>) returns (h: seq<Id>)
      requires Valid() && id in nodes && pins == base + multiset(held)
      modifies this`rc, this`pins, this`peak
      ensures Valid() && old(Keep()) <= Keep() && id in Keep() && pins == base + multiset(h)
    {
      if nodes[id].Internal? {
        Pin(id);
        h := held + [id];
      } else {
        KeepClosed();
        h := held;
      }
    }

    /** Merge a finished item: hold its child and add its edge. */
    method Merge(res: Edges, id: Id, l: Label, held: seq<Id>, ghost base: multiset<Id>)
      returns (res': Edges, held': seq<Id>)
      requires Valid() && id in nodes && pins == base + multiset(held) && res.Keys <= Keep()
      modifies this`rc, this`pins, this`peak
      ensures Valid() && old(Keep()) <= Keep() && pins == base + multiset(held')
      ensures res' == AddEdge(res, id, l) && res'.Keys <= Keep()
    {
      held' := Hold(id, held, base);
      res' := AddEdge(res, id, l);
    }

    /** The edges of a, seen at field f: its own, or itself under every value if it is deeper. */
    function EdgesAt(a: Id, f: nat): Edges
      requires a in nodes && 1 <= f <= |univ|
      reads this
    {
      if nodes[a].Internal? && nodes[a].field == f then nodes[a].edges else map[a := univ[f - 1]]
    }

    function Measure(a: Id, b: Id): nat
      requires a in nodes && b in nodes
      reads this
    {
      Depth(nodes, a) + Depth(nodes, b)
    }

    /** Operations of this run and the values they work on. */
    predicate InMode(op: Op) { boolean <==> BooleanOp(op) }

    /** Pointwise op on a and b. A node is returned exactly when every pointwise result exists. */
    method Apply(op: Op, a: Id, b: Id) returns (r: Outcome)
      requires Valid() && InMode(op) && a in Keep() && b in Keep()
      modifies this
      ensures raised == old(raised) || op.Or?
      ensures Valid() && pins == old(pins) && Keeps(old(nodes), nodes, old(Keep())) && old(Keep()) <= Keep()
      ensures r.Got? ==> Computes(ws, nodes, op, a, b, r.id) && !(op.Divide? && b == FALSE)
      ensures r.Failed? ==> (op.Divide? && b == FALSE) || Undefined(ws, nodes, op, a, b)
      ensures r.Got? && Commutative(op) && FastPath(op, a, b).Miss? && !(old(nodes[a].Leaf?) && old(nodes[b].Leaf?)) ==>
                Cached(op, a, b, r.id)
      decreases Measure(a, b), 5
    {
      var q := FastPath(op, a, b);
      if q.Hit? {
        FastPathSound(ws, nodes, op, a, b);
        r := Got(q.id);
      } else if q.Fail? {
        r := Failed;
      } else if op.Minus? && a == FALSE {
        var n := Negate(b);
        r := Got(n);
      } else if nodes[a].Leaf? && nodes[b].Leaf? {
        r := LeafOp(op, a, b);
      } else {
        r := CacheGet(op, a, b);
        if r.Failed? {
          r := Build(op, a, b);
          if r.Got? {
            CachePut(op, a, b, r.id);
          }
        }
      }
    }

    /** Arithmetic on two leaves. */
    method LeafOp(op: Op, a: Id, b: Id) returns (r: Outcome)
      requires Valid() && InMode(op) && a in nodes && b in nodes && nodes[a].Leaf? && nodes[b].Leaf?
      requires FastPath(op, a, b).Miss?
      modifies this`nodes, this`frac
      ensures Valid() && Keeps(old(nodes), nodes, old(nodes).Keys) && old(Keep()) <= Keep()
      ensures r.Got? ==> Computes(ws, nodes, op, a, b, r.id)
      ensures r.Failed? ==> Undefined(ws, nodes, op, a, b)
    {
      assert !boolean;
      assert LeafKey(nodes, frac, a) && LeafKey(nodes, frac, b);
      NonZeroLeaf(ws, nodes, b);
      var q := FracOp(op, frac[a], frac[b]);
      ghost var s0 := nodes;
      if q.Some? {
        var id := MkLeaf(q.value);
        KeepsLess(s0, nodes, s0.Keys, s0.Keys);
        assert KeptAt(s0, nodes, a) && KeptAt(s0, nodes, b);
        LeafComputes(ws, nodes, op, a, b, id);
        r := Got(id);
      } else {
        LeafUndefined(ws, nodes, op, a, b);
        r := Failed;
      }
    }

    function CacheOf(op: Op): seq<Slot>
      reads this
    {
      if op.And? || op.Times? then andCache else orCache
    }

    /** The slot of the ordered operand pair holds r for it. */
    predicate Cached(op: Op, a: Id, b: Id, r: Id)
      reads this
    {
      var x, y := if a > b then b else a, if a > b then a else b;
      |CacheOf(op)| > 0 && CacheOf(op)[slot(x, y) % |CacheOf(op)|] == Full(x, y, r)
    }

    /** A cache with that slot filled and all others as they were. */
    function Put(cache: seq<Slot>, a: Id, b: Id, r: Id): seq<Slot> {
      var x, y := if a > b then b else a, if a > b then a else b;
      if |cache| > 0 then cache[slot(x, y) % |cache| := Full(x, y, r)] else cache
    }

    /** The cached result of a commutative operation, whichever way round it was stored. */
    method CacheGet(op: Op, a: Id, b: Id) returns (r: Outcome)
      requires Valid() && InMode(op)
      ensures r.Got? ==> Commutative(op) && Computes(ws, nodes, op, a, b, r.id)
      ensures forall q :: r == Got(q) <==> Commutative(op) && Cached(op, a, b, q)
    {
      r := Failed;
      if Commutative(op) {
        var x, y := if a > b then b else a, if a > b then a else b;
        var cache := CacheOf(op);
        var i := slot(x, y) % |cache|;
        var c := cache[i];
        assert SlotOk(ws, nodes, op, cache[i]);
        if c.Full? && c.x == x && c.y == y {
          if a > b { ComputesSym(ws, nodes, op, x, y, c.r); }
          r := Got(c.r);
        }
      }
    }

    /** Store a result under the ordered operand pair, replacing whatever held the slot. */
    method CachePut(op: Op, a: Id, b: Id, r: Id)
      requires Valid() && InMode(op) && Computes(ws, nodes, op, a, b, r)
      modifies this`andCache, this`orCache
      ensures Valid() && (Commutative(op) ==> Cached(op, a, b, r))
      ensures andCache == if op.And? || op.Times? then Put(old(andCache), a, b, r) else old(andCache)
      ensures orCache == if op.Or? || op.Plus? then Put(old(orCache), a, b, r) else old(orCache)
    {
      if Commutative(op) {
        var x, y := if a > b then b else a, if a > b then a else b;
        if a > b { ComputesSym(ws, nodes, op, a, b, r); }
        if op.And? || op.Times? {
          andCache := StoreSlot(ws, nodes, op, andCache, slot(x, y) % |andCache|, x, y, r);
        } else {
          orCache := StoreSlot(ws, nodes, op, orCache, slot(x, y) % |orCache|, x, y, r);
        }
      }
    }

    /** The recursive case: pair up the edges at the top field, add residuals, make the node. */
    method Build(op: Op, a: Id, b: Id) returns (r: Outcome)
      requires Valid() && InMode(op) && a in Keep() && b in Keep() && a != FALSE && b != FALSE
      requires (nodes[a].Internal? || nodes[b].Internal?) && FastPath(op, a, b).Miss?
      modifies this
      ensures raised == old(raised) || op.Or?
      ensures Valid() && pins == old(pins) && Keeps(old(nodes), nodes, old(Keep())) && old(Keep()) <= Keep()
      ensures r.Got? ==> Computes(ws, nodes, op, a, b, r.id)
      ensures r.Failed? ==> Undefined(ws, nodes, op, a, b)
      decreases Measure(a, b), 4
    {
      LevelBound(ws, nodes, a);
      LevelBound(ws, nodes, b);
      var f := Min(Level(nodes, a), Level(nodes, b));
      TopField(a, b);
      var e, g := EdgesAt(a, f), EdgesAt(b, f);
      EdgesAtOk(a, f, e);
      EdgesAtOk(b, f, g);
      PairsSmaller(a, b, f, e, g);
      if op.Divide? && !(Support(e) <= Support(g)) {
        ConflictUndefined(ws, nodes, f, e, g, a, b);
        r := Failed;
      } else {
        if op.Or? && Level(nodes, a) == Level(nodes, b) {
          CloneResiduals(e, g);
        }
        r := BuildAt(op, a, b, f, e, g);
      }
    }

    lemma TopField(a: Id, b: Id)
      requires Valid() && a in nodes && b in nodes && (nodes[a].Internal? || nodes[b].Internal?)
      ensures var f := Min(Level(nodes, a), Level(nodes, b)); 1 <= f <= |ws| && |univ| == |ws| && |ws| < LEAF_FIELD
    {
      LevelBound(ws, nodes, a);
      LevelBound(ws, nodes, b);
      if nodes[a].Internal? { NodeChildren(ws, nodes, a); }
      if nodes[b].Internal? { NodeChildren(ws, nodes, b); }
    }

    lemma EdgesAtOk(a: Id, f: nat, e: Edges)
      requires Valid() && a in Keep() && a != FALSE && 1 <= f <= |ws| && |univ| == |ws| && f <= Level(nodes, a)
      requires e == EdgesAt(a, f)
      ensures Denotes(ws, nodes, f, e, a) && Views(ws, nodes, f, e, a) && e.Keys <= Keep()
    {
      KeepClosed();
      if nodes[a].Internal? && nodes[a].field == f {
        DenotesOwn(ws, nodes, a);
        assert ClosedAt(nodes, Keep(), a);
      } else {
        LevelBound(ws, nodes, a);
        DenotesBelow(ws, nodes, f, a, univ[f - 1]);
      }
    }

    /** At the top field at least one operand descends. */
    lemma PairsSmaller(a: Id, b: Id, f: nat, e: Edges, g: Edges)
      requires Valid() && a in nodes && b in nodes && f == Min(Level(nodes, a), Level(nodes, b)) && 1 <= f <= |ws|
      requires |univ| == |ws|
      requires e == EdgesAt(a, f) && g == EdgesAt(b, f) && f < LEAF_FIELD
      ensures forall p :: p in PairsOf(e, g) ==> p.0 in nodes && p.1 in nodes && Measure(p.0, p.1) < Measure(a, b)
    {
      if nodes[a].Internal? { NodeChildren(ws, nodes, a); }
      if nodes[b].Internal? { NodeChildren(ws, nodes, b); }
    }

    /** The OR residual clones take a reference on every child and do not give it back. */
    method CloneResiduals(e: Edges, g: Edges)
      requires Valid() && boolean
      modifies this`rc, this`raised
      ensures Valid() && raised && Cloned(nodes, old(rc), rc, e, g)
    {
      CloneOk(nodes, rc, pins, e, g);
      rc := Raise(Raise(rc, Kids(nodes, e)), Kids(nodes, g));
      raised := true;
    }

    method BuildAt(op: Op, a: Id, b: Id, f: nat, e: Edges, g: Edges) returns (r: Outcome)
      requires Valid() && InMode(op) && a in Keep() && b in Keep() && e.Keys <= Keep() && g.Keys <= Keep()
      requires Denotes(ws, nodes, f, e, a) && Denotes(ws, nodes, f, g, b) && Min(Level(nodes, a), Level(nodes, b)) == f
      requires forall p :: p in PairsOf(e, g) ==> Measure(p.0, p.1) < Measure(a, b)
      requires Walks(ws, nodes, op, f, e, g, a, b) && (op.Divide? ==> Support(e) <= Support(g))
      modifies this
      ensures raised == old(raised) || op.Or?
      ensures Valid() && pins == old(pins) && Keeps(old(nodes), nodes, old(Keep())) && old(Keep()) <= Keep()
      ensures r.Got? ==> Computes(ws, nodes, op, a, b, r.id)
      ensures r.Failed? ==> Undefined(ws, nodes, op, a, b)
      decreases Measure(a, b), 3
    {
      KeepClosed();
      ghost var s0, k0 := nodes, Keep();
      var ok, res, held := Pairs(op, a, b, f, e, g);
      if ok {
        DenotesKept(ws, s0, nodes, k0, f, e, a);
        DenotesKept(ws, s0, nodes, k0, f, g, b);
        LevelsKept(s0, nodes, k0, (a, b));
        WalksKept(ws, s0, nodes, k0, op, f, e, g, a, b);
        var id := Complete(op, a, b, f, e, g, res, held, old(pins), s0, k0);
        r := Got(id);
      } else {
        Unpin(held);
        KeptStays(s0, k0, old(pins));
        r := Failed;
      }
    }

    method Residuals(op: Op, f: nat, e: Edges, g: Edges, res: Edges, held: seq<Id>, ghost base: multiset<Id>)
      returns (res': Edges, held': seq<Id>)
      requires Valid() && InMode(op) && Additive(op) && f < LEAF_FIELD && pins == base + multiset(held)
      requires e.Keys <= Keep() && g.Keys <= Keep()
      requires Built(ws, nodes, op, f, e, g, res, PairsOf(e, g)) && res.Keys <= Keep()
      modifies this
      ensures raised == old(raised) || op.Or?
      ensures Valid() && Keeps(old(nodes), nodes, old(Keep())) && old(Keep()) <= Keep() &&
              pins == base + multiset(held')
      ensures Built(ws, nodes, op, f, e, g, res', AdditivePairs(e, g)) && res'.Keys <= Keep()
    {
      ghost var s0, k0 := nodes, Keep();
      var res1, held1 := ResidualLeft(op, f, e, g, res, held, PairsOf(e, g), base);
      res', held' := ResidualRight(op, f, e, g, res1, held1, PairsOf(e, g) + LeftPairs(e), base);
      KeepsLess(s0, nodes, k0, k0);
    }

    /** Residual regions for the additive operations, then the node. */
    method Complete(op: Op, a: Id, b: Id, f: nat, e: Edges, g: Edges, res: Edges, held: seq<Id>,
                    ghost base: multiset<Id>, ghost s0: Store, ghost k0: set<Id>)
      returns (r: Id)
      requires Valid() && InMode(op) && pins == base + multiset(held)
      requires Closed(s0, k0) && Keeps(s0, nodes, k0) && k0 <= Keep() && Wf(ws, s0) && Kept(s0, k0, base)
      requires Denotes(ws, nodes, f, e, a) && Denotes(ws, nodes, f, g, b) && a in k0 && b in k0 && e.Keys <= k0
      requires g.Keys <= k0
      requires Min(Level(nodes, a), Level(nodes, b)) == f < LEAF_FIELD && (op.Divide? ==> Support(e) <= Support(g))
      requires Walks(ws, nodes, op, f, e, g, a, b)
      requires Built(ws, nodes, op, f, e, g, res, PairsOf(e, g)) && res.Keys <= Keep()
      modifies this
      ensures raised == old(raised) || op.Or?
      ensures Valid() && pins == base && Keeps(s0, nodes, k0) && k0 <= Keep()
      ensures Computes(ws, nodes, op, a, b, r)
    {
      if Additive(op) {
        ghost var s1, k1 := nodes, Keep();
        KeepClosed();
        var res2, held2 := Residuals(op, f, e, g, res, held, base);
        KeepsTrans(s0, s1, nodes, k0, k1);
        DenotesKept(ws, s1, nodes, k1, f, e, a);
        DenotesKept(ws, s1, nodes, k1, f, g, b);
        LevelsKept(s1, nodes, k1, (a, b));
        r := Finish(op, a, b, f, e, g, res2, held2, AdditivePairs(e, g), base, s0, k0);
      } else {
        r := Finish(op, a, b, f, e, g, res, held, PairsOf(e, g), base, s0, k0);
      }
    }

    /** Intersection pairs: recurse on the children where the labels meet. */
    method Pairs(op: Op, a: Id, b: Id, f: nat, e: Edges, g: Edges) returns (ok: bool, res: Edges, held: seq<Id>)
      requires Valid() && InMode(op)
      requires Denotes(ws, nodes, f, e, a) && Denotes(ws, nodes, f, g, b)
      requires a in Keep() && b in Keep() && e.Keys <= Keep() && g.Keys <= Keep()
      requires forall p :: p in PairsOf(e, g) ==> Measure(p.0, p.1) < Measure(a, b)
      modifies this
      ensures raised == old(raised) || op.Or?
      ensures Valid() && Keeps(old(nodes), nodes, old(Keep())) && old(Keep()) <= Keep()
      ensures pins == old(pins) + multiset(held)
      ensures ok ==> Built(ws, nodes, op, f, e, g, res, PairsOf(e, g)) && res.Keys <= Keep()
      ensures !ok ==> Undefined(ws, nodes, op, a, b)
      decreases Measure(a, b), 2
    {
      KeepClosed();
      ok, res, held := PairsIn(op, a, b, f, e, g, PairsOf(e, g), nodes, Keep(), pins, raised, Measure(a, b));
    }

    /** The pairs of a set, taken in any order until one fails. */
    method PairsIn(op: Op, a: Id, b: Id, f: nat, e: Edges, g: Edges, all: set<(Id, Id)>,
                   ghost s0: Store, ghost k0: set<Id>, ghost base: multiset<Id>, ghost was: bool, ghost bound: nat)
      returns (ok: bool, res: Edges, held: seq<Id>)
      requires Valid() && InMode(op) && s0 == nodes && k0 == Keep() && base == pins && was == raised
      requires Operands(ws, s0, k0, f, e, g, a, b)
      requires forall p :: p in all ==> p.0 in e && p.1 in g && Depth(s0, p.0) + Depth(s0, p.1) < bound
      modifies this
      ensures raised == was || op.Or?
      ensures Valid() && Keeps(s0, nodes, k0) && k0 <= Keep()
      ensures pins == base + multiset(held)
      ensures ok ==> Built(ws, nodes, op, f, e, g, res, all) && res.Keys <= Keep()
      ensures !ok ==> Undefined(ws, nodes, op, a, b)
      decreases bound, 1
    {
      ok, res, held := true, map[], [];
      var todo := all;
      BuiltNothing(ws, nodes, op, f, e, g);
      assert all - todo == {};
      while todo != {} && ok
        invariant Valid() && Keeps(s0, nodes, k0) && k0 <= Keep() && pins == base + multiset(held) && todo <= all
        invariant raised == was || op.Or?
        invariant ok ==> Built(ws, nodes, op, f, e, g, res, all - todo) && res.Keys <= Keep()
        invariant !ok ==> Undefined(ws, nodes, op, a, b)
        decreases |todo|
      {
        var p :| p in todo;
        ok, res, held := OneOf(op, a, b, f, e, g, res, held, all, todo, p, s0, k0, base, was, bound);
        todo := todo - {p};
      }
      assert ok ==> all - todo == all;
    }

    method OneOf(op: Op, a: Id, b: Id, f: nat, e: Edges, g: Edges, res: Edges, held: seq<Id>,
                 ghost all: set<(Id, Id)>, ghost todo: set<(Id, Id)>, p: (Id, Id),
                 ghost s0: Store, ghost k0: set<Id>, ghost base: multiset<Id>, ghost was: bool, ghost bound: nat)
      returns (ok: bool, res': Edges, held': seq<Id>)
      requires Valid() && InMode(op) && Keeps(s0, nodes, k0) && k0 <= Keep()
      requires pins == base + multiset(held) && (raised == was || op.Or?)
      requires Operands(ws, s0, k0, f, e, g, a, b) && p in todo && todo <= all
      requires p.0 in e && p.1 in g && Depth(s0, p.0) + Depth(s0, p.1) < bound
      requires Built(ws, nodes, op, f, e, g, res, all - todo) && res.Keys <= Keep()
      modifies this
      ensures raised == was || op.Or?
      ensures Valid() && Keeps(s0, nodes, k0) && k0 <= Keep()
      ensures pins == base + multiset(held')
      ensures ok ==> Built(ws, nodes, op, f, e, g, res', all - (todo - {p})) && res'.Keys <= Keep()
      ensures !ok ==> Undefined(ws, nodes, op, a, b)
      decreases bound, 0
    {
      OneDone(all, todo, p);
      LevelsKept(s0, nodes, k0, p);
      ok, res', held' := OnePair(op, a, b, f, e, g, res, held, all - todo, p, s0, k0, base, was);
    }

    method OnePair(op: Op, a: Id, b: Id, f: nat, e: Edges, g: Edges, res: Edges, held: seq<Id>,
                   ghost done: set<(Id, Id)>,
                   p: (Id, Id), ghost s0: Store, ghost k0: set<Id>, ghost base: multiset<Id>, ghost was: bool)
      returns (ok: bool, res': Edges, held': seq<Id>)
      requires Valid() && InMode(op) && Keeps(s0, nodes, k0) && k0 <= Keep()
      requires pins == base + multiset(held) && (raised == was || op.Or?)
      requires Operands(ws, s0, k0, f, e, g, a, b)
      requires p.0 in e && p.1 in g && p !in done
      requires Built(ws, nodes, op, f, e, g, res, done) && res.Keys <= Keep()
      modifies this
      ensures raised == was || op.Or?
      ensures Valid() && Keeps(s0, nodes, k0) && k0 <= Keep()
      ensures pins == base + multiset(held')
      ensures ok ==> Built(ws, nodes, op, f, e, g, res', done + {p}) && res'.Keys <= Keep()
      ensures !ok ==> Undefined(ws, nodes, op, a, b)
      decreases Measure(p.0, p.1), 6
    {
      ok, res', held' := true, res, held;
      var inter := e[p.0] * g[p.1];
      if inter == {} {
        PairEmpty(ws, nodes, op, f, e, g, res, done, p);
      } else {
        ghost var s1, k1 := nodes, Keep();
        KeepClosed();
        var r := Apply(op, p.0, p.1);
        KeepsTrans(s0, s1, nodes, k0, k1);
        ok := r.Got?;
        if ok {
          PairStep(ws, s1, nodes, k1, op, f, e, g, res, done, p, r.id);
          res', held' := Merge(res, r.id, inter, held, base);
        } else {
          PairUndefined(ws, s0, nodes, k0, op, f, e, g, a, b, p);
        }
      }
    }
    /** Regions where only the first operand is non-zero: its child is kept. */
    method ResidualLeft(op: Op, f: nat, e: Edges, g: Edges, res0: Edges, held0: seq<Id>, ghost done: set<(Id, Id)>,
                        ghost base: multiset<Id>)
      returns (res: Edges, held: seq<Id>)
      requires Valid() && (BooleanOp(op) ==> boolean) && Additive(op)
      requires Built(ws, nodes, op, f, e, g, res0, done) && done !! LeftPairs(e)
      requires pins == base + multiset(held0) && res0.Keys <= Keep()
      modifies this`rc, this`pins, this`peak
      ensures Valid() && old(Keep()) <= Keep() && pins == base + multiset(held)
      ensures Built(ws, nodes, op, f, e, g, res, done + LeftPairs(e)) && res.Keys <= Keep()
    {
      res, held := res0, held0;
      var supp := Support(g);
      var todo := LeftPairs(e);
      assert done + (LeftPairs(e) - todo) == done;
      while todo != {}
        invariant Valid() && old(Keep()) <= Keep() && pins == base + multiset(held)
        invariant todo <= LeftPairs(e)
        invariant Built(ws, nodes, op, f, e, g, res, done + (LeftPairs(e) - todo)) && res.Keys <= Keep()
        decreases |todo|
      {
        var p :| p in todo;
        assert done + (LeftPairs(e) - todo) + {p} == done + (LeftPairs(e) - (todo - {p}));
        res, held := OneLeft(op, f, e, g, supp, res, held, done + (LeftPairs(e) - todo), p.0, base);
        todo := todo - {p};
      }
      assert LeftPairs(e) - todo == LeftPairs(e);
    }

    method OneLeft(op: Op, f: nat, e: Edges, g: Edges, supp: Label, res0: Edges, held0: seq<Id>,
                   ghost done: set<(Id, Id)>, c: Id,
                   ghost base: multiset<Id>)
      returns (res: Edges, held: seq<Id>)
      requires Valid() && (BooleanOp(op) ==> boolean) && Additive(op) && supp == Support(g)
      requires Built(ws, nodes, op, f, e, g, res0, done) && c in e && (c, FALSE) !in done
      requires pins == base + multiset(held0) && res0.Keys <= Keep()
      modifies this`rc, this`pins, this`peak
      ensures Valid() && old(Keep()) <= Keep() && pins == base + multiset(held)
      ensures Built(ws, nodes, op, f, e, g, res, done + {(c, FALSE)}) && res.Keys <= Keep()
    {
      var l := e[c] - supp;
      LeftStep(ws, nodes, op, f, e, g, res0, done, c);
      if l == {} {
        res, held := res0, held0;
      } else {
        EdgesAll(ws, nodes, f, e);
        res, held := Merge(res0, c, l, held0, base);
      }
    }

    /** Regions where only the second operand is non-zero: its child is kept, or negated. */
    method ResidualRight(op: Op, f: nat, e: Edges, g: Edges, res0: Edges, held0: seq<Id>, ghost done: set<(Id, Id)>,
                         ghost base: multiset<Id>)
      returns (res: Edges, held: seq<Id>)
      requires Valid() && InMode(op) && Additive(op) && f < LEAF_FIELD
      requires Built(ws, nodes, op, f, e, g, res0, done) && done !! RightPairs(g)
      requires pins == base + multiset(held0) && res0.Keys <= Keep() && e.Keys <= Keep() && g.Keys <= Keep()
      modifies this
      ensures raised == old(raised) || op.Or?
      ensures Valid() && Keeps(old(nodes), nodes, old(Keep())) && old(Keep()) <= Keep() && pins == base + multiset(held)
      ensures Built(ws, nodes, op, f, e, g, res, done + RightPairs(g)) && res.Keys <= Keep()
      decreases LEAF_FIELD - f, 1
    {
      res, held := res0, held0;
      var todo := RightPairs(g);
      assert done + (RightPairs(g) - todo) == done;
      KeepClosed();
      ghost var s0, k0 := nodes, Keep();
      while todo != {}
        invariant Valid() && Keeps(s0, nodes, k0) && k0 <= Keep() && pins == base + multiset(held)
        invariant todo <= RightPairs(g) && (raised == old(raised) || op.Or?)
        invariant Built(ws, nodes, op, f, e, g, res, done + (RightPairs(g) - todo)) && res.Keys <= Keep()
        decreases |todo|
      {
        var p :| p in todo;
        assert done + (RightPairs(g) - todo) + {p} == done + (RightPairs(g) - (todo - {p}));
        res, held := OneRight(op, f, e, g, res, held, done + (RightPairs(g) - todo), p.1, s0, k0, base);
        todo := todo - {p};
      }
      assert RightPairs(g) - todo == RightPairs(g);
    }

    method OneRight(op: Op, f: nat, e: Edges, g: Edges, res0: Edges, held0: seq<Id>, ghost done: set<(Id, Id)>, d: Id,
                    ghost s0: Store, ghost k0: set<Id>, ghost base: multiset<Id>)
      returns (res: Edges, held: seq<Id>)
      requires Valid() && InMode(op) && Additive(op) && f < LEAF_FIELD
      requires Built(ws, nodes, op, f, e, g, res0, done) && d in g && (FALSE, d) !in done
      requires Keeps(s0, nodes, k0) && k0 <= Keep()
      requires pins == base + multiset(held0) && res0.Keys <= Keep() && e.Keys <= Keep() && g.Keys <= Keep()
      modifies this
      ensures raised == old(raised) || op.Or?
      ensures Valid() && Keeps(s0, nodes, k0) && k0 <= Keep() && old(Keep()) <= Keep() && pins == base + multiset(held)
      ensures Built(ws, nodes, op, f, e, g, res, done + {(FALSE, d)}) && res.Keys <= Keep()
      decreases LEAF_FIELD - f, 0
    {
      var l := g[d] - Support(e);
      if l == {} {
        RegionRight(ws, nodes, f, e, g, d);
        BuiltSkip(ws, nodes, op, f, e, g, res0, done, (FALSE, d));
        res, held := res0, held0;
      } else {
        ghost var s1, k1 := nodes, Keep();
        KeepClosed();
        EdgesAll(ws, nodes, f, g);
        LevelBound(ws, nodes, d);
        var r := RightChild(op, d);
        KeepsTrans(s0, s1, nodes, k0, k1);
        BuiltKept(ws, s1, nodes, k1, op, f, e, g, res0, done);
        RightStep(ws, nodes, op, f, e, g, res0, done, d, r);
        res, held := Merge(res0, r, l, held0, base);
      }
    }

    /** The value of an additive operation with a zero first operand. */
    method RightChild(op: Op, d: Id) returns (r: Id)
      requires Valid() && InMode(op) && Additive(op) && d in Keep()
      modifies this
      ensures raised == old(raised) || op.Or?
      ensures Valid() && pins == old(pins) && Keeps(old(nodes), nodes, old(Keep())) && old(Keep()) <= Keep()
      ensures Computes(ws, nodes, op, FALSE, d, r)
      decreases LEAF_FIELD - Level(nodes, d), 4
    {
      if op.Minus? {
        r := Negate(d);
      } else {
        KeepsRight(ws, nodes, op, d);
        r := d;
      }
    }

    /** Pointwise negation; it never overflows. */
    method Negate(a: Id) returns (r: Id)
      requires Valid() && InMode(Minus) && a in Keep()
      modifies this
      ensures raised == old(raised)
      ensures Valid() && pins == old(pins) && Keeps(old(nodes), nodes, old(Keep())) && old(Keep()) <= Keep()
      ensures Computes(ws, nodes, Minus, FALSE, a, r)
      decreases LEAF_FIELD - Level(nodes, a), 3
    {
      if nodes[a].Leaf? {
        assert LeafKey(nodes, frac, a);
        var q := LeafNegate(frac[a]);
        ghost var s0 := nodes;
        r := MkLeaf(q);
        KeepsLess(s0, nodes, s0.Keys, s0.Keys);
        NegateLeaf(ws, s0, nodes, a, r);
      } else {
        r := NegateNode(a);
      }
    }

    method NegateNode(a: Id) returns (r: Id)
      requires Valid() && InMode(Minus) && a in Keep() && nodes[a].Internal?
      modifies this
      ensures raised == old(raised)
      ensures Valid() && pins == old(pins) && Keeps(old(nodes), nodes, old(Keep())) && old(Keep()) <= Keep()
      ensures Computes(ws, nodes, Minus, FALSE, a, r)
      decreases LEAF_FIELD - Level(nodes, a), 2
    {
      var f, g := nodes[a].field, nodes[a].edges;
      LevelBound(ws, nodes, a);
      KeepClosed();
      assert ClosedAt(nodes, Keep(), a);
      ghost var s0, k0 := nodes, Keep();
      DenotesOwn(ws, nodes, a);
      EmptyDenotes(ws, nodes, f);
      BuiltNothing(ws, nodes, Minus, f, map[], g);
      var res, held := ResidualRight(Minus, f, map[], g, map[], [], {}, pins);
      DenotesKept(ws, s0, nodes, k0, f, g, a);
      DenotesKept(ws, s0, nodes, k0, f, map[], FALSE);
      assert KeptAt(s0, nodes, a);
      assert {} + RightPairs(g) == RightPairs(g);
      r := Finish(Minus, FALSE, a, f, map[], g, res, held, RightPairs(g), old(pins), s0, k0);
    }

    /** Turn the finished edge map into a node and give back the references. */
    method Finish(op: Op, a: Id, b: Id, f: nat, e: Edges, g: Edges, res: Edges, held: seq<Id>,
                  ghost done: set<(Id, Id)>,
                  ghost base: multiset<Id>, ghost s0: Store, ghost k0: set<Id>)
      returns (r: Id)
      requires Valid() && (BooleanOp(op) ==> boolean) && pins == base + multiset(held)
      requires Closed(s0, k0) && Keeps(s0, nodes, k0) && k0 <= Keep() && Wf(ws, s0) && Kept(s0, k0, base)
      requires Denotes(ws, nodes, f, e, a) && Denotes(ws, nodes, f, g, b) && a in k0 && b in k0 && e.Keys <= k0
      requires g.Keys <= k0
      requires Min(Level(nodes, a), Level(nodes, b)) <= f && Walks(ws, nodes, op, f, e, g, a, b)
      requires Built(ws, nodes, op, f, e, g, res, done) && AllDone(op, e, g, done) && res.Keys <= Keep()
      modifies this
      ensures raised == old(raised)
      ensures Valid() && pins == base && Keeps(s0, nodes, k0) && k0 <= Keep()
      ensures Computes(ws, nodes, op, a, b, r)
    {
      ghost var s1, k1 := nodes, Keep();
      r := MkBuilt(op, a, b, f, e, g, res, done);
      KeepsTrans(s0, s1, nodes, k0, k1);
      Unpin(held);
      KeptStays(s0, k0, base);
    }

    method MkBuilt(ghost op: Op, ghost a: Id, ghost b: Id, f: nat, ghost e: Edges, ghost g: Edges, res: Edges,
                   ghost done: set<(Id, Id)>)
      returns (r: Id)
      requires Valid() && (BooleanOp(op) ==> boolean)
      requires Denotes(ws, nodes, f, e, a) && Denotes(ws, nodes, f, g, b) && a in Keep() && b in Keep()
      requires e.Keys <= Keep() && g.Keys <= Keep()
      requires Min(Level(nodes, a), Level(nodes, b)) <= f && Walks(ws, nodes, op, f, e, g, a, b)
      requires Built(ws, nodes, op, f, e, g, res, done) && AllDone(op, e, g, done) && res.Keys <= Keep()
      modifies this
      ensures raised == old(raised) && pins == old(pins)
      ensures Valid() && Keeps(old(nodes), nodes, old(Keep())) && old(Keep()) <= Keep()
      ensures Computes(ws, nodes, op, a, b, r)
    {
      ghost var s1, k1 := nodes, Keep();
      KeepClosed();
      r := Mk(f, res);
      FinishOk(ws, s1, nodes, k1, op, f, e, g, res, done, a, b, r, boolean);
    }

    /** k is what a collection has to keep in s while only base is referenced. */
    ghost predicate Kept(s: Store, k: set<Id>, base: multiset<Id>)
      requires Wf(ws, s)
    {
      k == if collects then LiveSet(ws, s, base) else s.Keys
    }

    lemma KeptStays(s: Store, k: set<Id>, base: multiset<Id>)
      requires Valid() && Wf(ws, s) && Kept(s, k, base) && Keeps(s, nodes, k) && pins == base
      ensures k <= Keep()
    {
      if collects {
        LiveSetStays(ws, s, nodes, base, base);
      } else {
        KeepsLess(s, nodes, k, k);
      }
    }
  }

  /** Edge maps of two operands, as a set k of nodes that are kept has them. */
  ghost predicate Operands(ws: Widths, s: Store, k: set<Id>, f: nat, e: Edges, g: Edges, a: Id, b: Id) {
    && Closed(s, k) && a in k && b in k && e.Keys <= k && g.Keys <= k
    && Denotes(ws, s, f, e, a) && Denotes(ws, s, f, g, b)
  }

  /** Every internal child has gone up by the number of the two maps it is in, up to the sticky
      count, and nothing else has changed. */
  ghost predicate Cloned(s: Store, rc: Counts, rc': Counts, e: Edges, g: Edges) {
    && rc'.Keys == rc.Keys
    && (forall i :: i in rc && i in s && s[i].Internal? ==>
          rc'[i] == Min(rc[i] + (if i in e then 1 else 0) + (if i in g then 1 else 0), PROTECTED))
    && (forall i :: i in rc && (i !in s || s[i].Leaf?) ==> rc'[i] == rc[i])
  }

  lemma CloneOk(s: Store, rc: Counts, pins: multiset<Id>, e: Edges, g: Edges)
    requires RcInv(s, rc, pins)
    ensures var rc' := Raise(Raise(rc, Kids(s, e)), Kids(s, g));
            RcInv(s, rc', pins) && Cloned(s, rc, rc', e, g)
  {
    RaiseOk(s, rc, pins, Kids(s, e));
    RaiseOk(s, Raise(rc, Kids(s, e)), pins, Kids(s, g));
    forall i | i in s && s[i].Internal? ensures i in rc && rc[i] <= PROTECTED { assert CountOk(s, rc, pins, i); }
  }

  method StoreSlot(ghost ws: Widths, ghost s: Store, ghost op: Op, cache: seq<Slot>, i: nat, x: Id, y: Id, r: Id)
    returns (c: seq<Slot>)
    requires CacheOk(ws, s, op, cache) && i < |cache| && Computes(ws, s, op, x, y, r)
    ensures c == cache[i := Full(x, y, r)] && CacheOk(ws, s, op, c)
  {
    c := cache[i := Full(x, y, r)];
    forall j | 0 <= j < |c| ensures SlotOk(ws, s, op, c[j]) {
      if j != i { assert SlotOk(ws, s, op, cache[j]); }
    }
  }

  /** What a leaf operation returned is the operation's result, or there is none. */
  ghost predicate LeafResult(op: Op, x: real, y: real, r: Option<Frac>) {
    match r
    case None => !DefinedAt(op, x, y)
    case Some(q) => Canonical(q) && DefinedAt(op, x, y) && Agrees(op, x, y, Value(q))
  }

  lemma AddResult(x: real, y: real, r: Option<Frac>)
    requires Exactly(x + y, r)
    ensures LeafResult(Plus, x, y, r)
  {
    ExactlyRepresentable(x + y, r);
  }

  lemma SubResult(x: real, y: real, r: Option<Frac>)
    requires Exactly(x - y, r)
    ensures LeafResult(Minus, x, y, r)
  {
    ExactlyRepresentable(x - y, r);
  }

  lemma MulResult(x: real, y: real, r: Option<Frac>)
    requires Exactly(Product(x, y), r)
    ensures LeafResult(Times, x, y, r)
  {
    ExactlyRepresentable(Product(x, y), r);
  }

  lemma DivResult(x: real, y: real, r: Option<Frac>)
    requires y != 0.0 && Exactly(x / y, r)
    ensures LeafResult(Divide, x, y, r)
  {
    ExactlyRepresentable(x / y, r);
  }

  method FracAdd(a: Frac, b: Frac) returns (r: Option<Frac>)
    requires Canonical(a) && Canonical(b)
    ensures LeafResult(Plus, Value(a), Value(b), r)
  {
    r := LeafAdd(a, b);
    AddResult(Value(a), Value(b), r);
  }

  method FracSub(a: Frac, b: Frac) returns (r: Option<Frac>)
    requires Canonical(a) && Canonical(b)
    ensures LeafResult(Minus, Value(a), Value(b), r)
  {
    r := LeafSub(a, b);
    SubResult(Value(a), Value(b), r);
  }

  method FracMul(a: Frac, b: Frac) returns (r: Option<Frac>)
    requires Canonical(a) && Canonical(b)
    ensures LeafResult(Times, Value(a), Value(b), r)
  {
    r := LeafMul(a, b);
    MulResult(Value(a), Value(b), r);
  }

  method FracDiv(a: Frac, b: Frac) returns (r: Option<Frac>)
    requires Canonical(a) && Canonical(b) && Value(b) != 0.0
    ensures LeafResult(Divide, Value(a), Value(b), r)
  {
    r := LeafDiv(a, b);
    DivResult(Value(a), Value(b), r);
  }

  method FracOp(op: Op, a: Frac, b: Frac) returns (r: Option<Frac>)
    requires !BooleanOp(op) && Canonical(a) && Canonical(b) && (op.Divide? ==> Value(b) != 0.0)
    ensures LeafResult(op, Value(a), Value(b), r)
  {
    match op
    case Plus => r := FracAdd(a, b);
    case Minus => r := FracSub(a, b);
    case Times => r := FracMul(a, b);
    case Divide => r := FracDiv(a, b);
  }

  lemma NonZeroLeaf(ws: Widths, s: Store, b: Id)
    requires Wf(ws, s) && b in s && s[b].Leaf?
    ensures b == FALSE <==> s[b].value == 0.0
  {
    if s[b].value == 0.0 { assert SameNode(s, b, FALSE); }
  }

  lemma LeafComputes(ws: Widths, s: Store, op: Op, a: Id, b: Id, r: Id)
    requires Wf(ws, s) && a in s && b in s && r in s && s[a].Leaf? && s[b].Leaf? && s[r].Leaf?
    requires FastPath(op, a, b).Miss?
    requires DefinedAt(op, s[a].value, s[b].value) && Agrees(op, s[a].value, s[b].value, s[r].value)
    ensures Computes(ws, s, op, a, b, r)
  {
    NonZeroLeaf(ws, s, b);
    forall v | Fits(ws, v) ensures ResultAt(ws, s, op, a, b, r, v) {}
  }

  lemma LeafUndefined(ws: Widths, s: Store, op: Op, a: Id, b: Id)
    requires Wf(ws, s) && a in s && b in s && s[a].Leaf? && s[b].Leaf? && !DefinedAt(op, s[a].value, s[b].value)
    ensures Undefined(ws, s, op, a, b)
  {
    var v := ZeroAssignment(ws);
    assert Fits(ws, v) && Eval(ws, s, a, v) == s[a].value && Eval(ws, s, b, v) == s[b].value;
  }

  lemma NegateLeaf(ws: Widths, s: Store, t: Store, a: Id, r: Id)
    requires Wf(ws, s) && Wf(ws, t) && RepLeaves(t) && a in s && r in t && s[a].Leaf? && t[r].Leaf?
    requires Keeps(s, t, s.Keys)
    requires t[r].value == -s[a].value
    ensures Computes(ws, t, Minus, FALSE, a, r)
  {
    assert KeptAt(s, t, a);
    forall v | Fits(ws, v) ensures ResultAt(ws, t, Minus, FALSE, a, r, v) {
      SentinelValues(ws, t, v);
      EvalRepresentable(ws, t, r, v);
    }
  }

  lemma FinishOk(ws: Widths, s: Store, t: Store, k: set<Id>, op: Op, f: nat, e: Edges, g: Edges, res: Edges,
                 done: set<(Id, Id)>,
                 a: Id, b: Id, r: Id, boolean: bool)
    requires Built(ws, s, op, f, e, g, res, done) && AllDone(op, e, g, done) && Domain(op, s) && StoreOk(ws, t, boolean)
    requires BooleanOp(op) ==> boolean
    requires Closed(s, k) && Keeps(s, t, k) && e.Keys <= k && g.Keys <= k && res.Keys <= k && a in k && b in k
    requires Denotes(ws, s, f, e, a) && Denotes(ws, s, f, g, b) && Denotes(ws, t, f, res, r)
    requires Min(Level(s, a), Level(s, b)) <= f <= Level(t, r) && Walks(ws, s, op, f, e, g, a, b)
    ensures Computes(ws, t, op, a, b, r)
  {
    WalksKept(ws, s, t, k, op, f, e, g, a, b);
    BuiltKept(ws, s, t, k, op, f, e, g, res, done);
    DenotesKept(ws, s, t, k, f, e, a);
    DenotesKept(ws, s, t, k, f, g, b);
    assert KeptAt(s, t, a) && KeptAt(s, t, b);
    BuiltComputes(ws, t, op, f, e, g, res, done, a, b, r);
  }

  lemma CollectEnd(ws: Widths, s0: Store, s1: Store, s: Store, rc: Counts, pins: multiset<Id>)
    requires Shrunk(ws, s0, s1, pins) && Shrunk(ws, s0, s, pins) && Submap(s, s1)
    requires forall i {:trigger HasCount(rc, i)} :: i in s1 && s1[i].Internal? ==> HasCount(rc, i)
    requires LeavesStay(s0, s1)
    requires forall i :: i in s1 && s1[i].Leaf? ==> (i in s <==> Marked(s, i))
    ensures Collected(ws, s0, s, rc, pins)
  {}

  lemma ExactAfterLeaves(s1: Store, s: Store, rc: Counts, pins: multiset<Id>, roots: multiset<Id>)
    requires ExactFrom(s1, rc, pins, roots) && Submap(s, s1)
    requires forall i {:trigger Parents(s, i)} :: Parents(s, i) == Parents(s1, i)
    ensures ExactFrom(s, rc, pins, roots)
  {
    forall i | i in s && s[i].Internal? ensures ExactAt(s, rc, pins, i) {
      assert ExactAt(s1, rc, pins, i) && Parents(s, i) == Parents(s1, i);
    }
  }

  /** Distance of a node's field from the leaves. */
  function Depth(s: Store, id: Id): nat
    requires id in s
  {
    if Level(s, id) <= LEAF_FIELD then LEAF_FIELD - Level(s, id) else 0
  }

  lemma LevelsKept(s: Store, t: Store, k: set<Id>, p: (Id, Id))
    requires Keeps(s, t, k) && p.0 in k && p.1 in k && p.0 in s && p.1 in s
    ensures p.0 in t && p.1 in t && Level(t, p.0) == Level(s, p.0) && Level(t, p.1) == Level(s, p.1)
  {
    assert KeptAt(s, t, p.0) && KeptAt(s, t, p.1);
  }

  lemma OnlyOne(e: Edges, c: Id)
    requires |e| == 1 && c in e
    ensures forall d :: d in e ==> d == c
  {
    assert |e.Keys - {c}| == 0;
    forall d | d in e ensures d == c {
      assert d !in e.Keys - {c};
    }
  }

  lemma LastOut(held: seq<Id>)
    requires held != []
    ensures multiset(held) == multiset(held[..|held| - 1]) + multiset{held[|held| - 1]}
  {
    assert held == held[..|held| - 1] + [held[|held| - 1]];
  }

  lemma InitialFacts(s: Store, frac: map<Id, Frac>)
    requires s == map[FALSE := Leaf(0.0), TRUE := Leaf(1.0)] && frac == map[FALSE := Frac(0, 1), TRUE := Frac(1, 1)]
    ensures RepLeaves(s) && LeafKeys(s, frac) && BoolStore(s)
  {
    SmallRepresentable();
    ZeroRatio(1);
    assert Canonical(Frac(1, 1)) && Value(Frac(1, 1)) == 1.0;
    forall i | i in s ensures RepLeaf(s, i) && LeafKey(s, frac, i) {}
  }
}
