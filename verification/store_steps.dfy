/** Store transitions the engine makes, as facts about values: inserting nodes and leaves,
    cached results, and what each step leaves intact. */
module StoreSteps {
  import opened Labels
  import opened Fractions
  import opened Diagram
  import opened Operations

  /** One direct-mapped cache slot: operands and result. */
  datatype Slot = Empty | Full(x: Id, y: Id, r: Id)

  ghost predicate SlotOk(ws: Widths, s: Store, op: Op, c: Slot) {
    c.Full? ==> Computes(ws, s, op, c.x, c.y, c.r)
  }

  /** Every filled slot holds a right answer. */
  ghost predicate CacheOk(ws: Widths, s: Store, op: Op, cache: seq<Slot>) {
    |cache| > 0 && forall i {:trigger SlotOk(ws, s, op, cache[i])} :: 0 <= i < |cache| ==> SlotOk(ws, s, op, cache[i])
  }

  /** univ[f - 1] is the label "true" of field f. */
  ghost predicate UnivOk(ws: Widths, univ: seq<Label>) {
    |univ| == |ws| && forall i :: 0 <= i < |ws| ==> univ[i] == Univ(ws[i])
  }

  ghost predicate StoreOk(ws: Widths, s: Store, boolean: bool) {
    Wf(ws, s) && RepLeaves(s) && (boolean ==> BoolStore(s))
  }

  lemma AllClosed(ws: Widths, s: Store)
    requires Wf(ws, s)
    ensures Closed(s, s.Keys)
  {
    forall i | i in s ensures ClosedAt(s, s.Keys, i) {
      if s[i].Internal? { NodeChildren(ws, s, i); }
    }
  }

  lemma CacheKept(ws: Widths, s: Store, t: Store, op: Op, cache: seq<Slot>)
    requires CacheOk(ws, s, op, cache) && Wf(ws, s) && Wf(ws, t) && Keeps(s, t, s.Keys)
    ensures CacheOk(ws, t, op, cache)
  {
    AllClosed(ws, s);
    forall i | 0 <= i < |cache| ensures SlotOk(ws, t, op, cache[i]) {
      assert SlotOk(ws, s, op, cache[i]);
      if cache[i].Full? {
        ComputesKept(ws, s, t, s.Keys, op, cache[i].x, cache[i].y, cache[i].r);
      }
    }
  }

  function Cleared(n: nat): seq<Slot> { seq(n, _ => Empty) }

  lemma ClearedOk(ws: Widths, s: Store, op: Op, n: nat)
    requires n > 0
    ensures CacheOk(ws, s, op, Cleared(n))
  {}

  // ---------------------------------------------------------------- inserting a node

  /** A store extended by one node. */
  lemma InsertWf(ws: Widths, s: Store, id: Id, n: Node)
    requires Wf(ws, s) && id !in s && WfNode(ws, s, n)
    requires forall i :: i in s ==> s[i] != n
    ensures Wf(ws, s[id := n]) && Keeps(s, s[id := n], s.Keys)
  {
    var t := s[id := n];
    forall i | i in t ensures WfNode(ws, t, t[i]) {
      if i != id { assert WfNode(ws, s, s[i]); }
      WfNodeGrows(ws, s, id, n, t[i]);
    }
    forall i, j | i in t && j in t && SameNode(t, i, j) ensures i == j {
      if i != id && j != id { assert SameNode(s, i, j); }
    }
  }

  lemma WfNodeGrows(ws: Widths, s: Store, id: Id, n: Node, m: Node)
    requires id !in s && WfNode(ws, s, m)
    ensures WfNode(ws, s[id := n], m)
  {
    if m.Internal? {
      forall c | c in m.edges ensures EdgeOk(ws, s[id := n], m.field, m.edges, c) {
        assert EdgeOk(ws, s, m.field, m.edges, c);
      }
    }
  }

  lemma InsertRep(s: Store, id: Id, n: Node)
    requires RepLeaves(s) && id !in s && (n.Leaf? ==> Representable(n.value))
    ensures RepLeaves(s[id := n])
  {
    var t := s[id := n];
    forall i | i in t ensures RepLeaf(t, i) {
      if i != id { assert RepLeaf(s, i); }
    }
  }

  /** The new node stands for its edge map. */
  lemma InsertDenotes(ws: Widths, s: Store, id: Id, f: nat, e: Edges)
    requires Wf(ws, s) && id !in s && WfNode(ws, s, Internal(f, e)) && Wf(ws, s[id := Internal(f, e)])
    ensures Denotes(ws, s[id := Internal(f, e)], f, e, id)
  {
    DenotesOwn(ws, s[id := Internal(f, e)], id);
  }

  /** An empty edge map stands for FALSE. */
  lemma EmptyDenotes(ws: Widths, s: Store, f: nat)
    requires Wf(ws, s) && 1 <= f <= |ws|
    ensures Denotes(ws, s, f, map[], FALSE)
  {
    forall v | Fits(ws, v) ensures Eval(ws, s, FALSE, v) == EvalEdges(ws, s, f, map[], v) {
      assert ChildAt(map[], v[f - 1]) == FALSE;
    }
  }

  /** An edge map with a full label is that one edge and stands for its child. */
  lemma FullDenotes(ws: Widths, s: Store, f: nat, e: Edges, c: Id)
    requires Wf(ws, s) && WfEdges(ws, s, f, e) && c in e && e[c] == FieldUniv(ws, f)
    ensures Denotes(ws, s, f, e, c)
  {
    assert EdgeOk(ws, s, f, e, c);
    forall v | Fits(ws, v) ensures Eval(ws, s, c, v) == EvalEdges(ws, s, f, e, v) {
      ChildAtUnique(e, v[f - 1], c);
    }
  }

  /** A full label leaves no room for a second edge. */
  lemma FullAlone(ws: Widths, s: Store, f: nat, e: Edges, c: Id)
    requires WfEdges(ws, s, f, e) && c in e && e[c] == FieldUniv(ws, f)
    ensures e.Keys == {c} && |e| == 1
  {
    EdgesAll(ws, s, f, e);
    forall d | d in e ensures d == c {
      var x :| x in e[d];
      NotApart(e, c, d, x);
    }
    assert e.Keys == {c};
  }

  lemma FreshId(s: Store) returns (m: Id)
    ensures m !in s
  {
    m := Above(s.Keys);
  }

  lemma {:induction false} Above(k: set<Id>) returns (m: Id)
    ensures forall i :: i in k ==> i < m
    decreases |k|
  {
    m := 0;
    if k != {} {
      var x :| x in k;
      var n := Above(k - {x});
      m := if x < n then n else x + 1;
      assert forall i :: i in k ==> i == x || i in k - {x};
    }
  }

  // ---------------------------------------------------------------- leaves

  /** The numerator and denominator stored with a leaf are its value in lowest terms. */
  ghost predicate LeafKey(s: Store, frac: map<Id, Frac>, i: Id)
    requires i in s
  {
    s[i].Leaf? ==> i in frac && Canonical(frac[i]) && s[i].value == Value(frac[i])
  }

  ghost predicate LeafKeys(s: Store, frac: map<Id, Frac>) {
    forall i {:trigger LeafKey(s, frac, i)} :: i in s ==> LeafKey(s, frac, i)
  }

  /** Two leaves with the same stored fraction, and only those, have the same value. */
  lemma KeyIffValue(s: Store, frac: map<Id, Frac>, i: Id, q: Frac)
    requires LeafKeys(s, frac) && i in s && s[i].Leaf? && Canonical(q)
    ensures i in frac && (frac[i] == q <==> s[i].value == Value(q))
  {
    assert LeafKey(s, frac, i);
    if s[i].value == Value(q) { CanonicalUnique(frac[i], q); }
  }

  lemma LeafKeysInsertLeaf(s: Store, frac: map<Id, Frac>, id: Id, q: Frac)
    requires LeafKeys(s, frac) && id !in s && Canonical(q)
    ensures LeafKeys(s[id := Leaf(Value(q))], frac[id := q])
  {
    var t := s[id := Leaf(Value(q))];
    forall i | i in t ensures LeafKey(t, frac[id := q], i) {
      if i != id { assert LeafKey(s, frac, i); }
    }
  }

  lemma LeafKeysInsertNode(s: Store, frac: map<Id, Frac>, id: Id, f: nat, e: Edges)
    requires LeafKeys(s, frac) && id !in s
    ensures LeafKeys(s[id := Internal(f, e)], frac)
  {
    var t := s[id := Internal(f, e)];
    forall i | i in t ensures LeafKey(t, frac, i) {
      if i != id { assert LeafKey(s, frac, i); }
    }
  }

  /** Dropping nodes keeps the value-domain facts. */
  lemma FactsShrink(s: Store, frac: map<Id, Frac>, d: set<Id>)
    ensures RepLeaves(s) ==> RepLeaves(s - d)
    ensures LeafKeys(s, frac) ==> LeafKeys(s - d, frac)
    ensures BoolStore(s) ==> BoolStore(s - d)
  {
    var t := s - d;
    if RepLeaves(s) {
      forall i | i in t ensures RepLeaf(t, i) { assert RepLeaf(s, i); }
    }
    if LeafKeys(s, frac) {
      forall i | i in t ensures LeafKey(t, frac, i) { assert LeafKey(s, frac, i); }
    }
  }
}
