/** Decision diagrams as a store of nodes. A node id stands for a node pointer; an edge map
    sends a child to the label under which it is taken. */
module Diagram {
  import opened Labels

  type Id = nat
  type Edges = map<Id, Label>

  const FALSE: Id := 0
  const TRUE: Id := 1

  /** Field number of leaves, deeper than every declared field. */
  const LEAF_FIELD: nat := 0xFFFF_FFFF

  datatype Node = Leaf(value: real) | Internal(field: nat, edges: Edges)

  type Store = map<Id, Node>

  /** widths[f - 1] is the bit width of field f. */
  type Widths = seq<nat>

  /** One value per declared field. */
  type Assignment = seq<Bits>

  predicate Layout(ws: Widths) {
    0 < |ws| < LEAF_FIELD - 1 && forall i :: 0 <= i < |ws| ==> ws[i] > 0
  }

  predicate Fits(ws: Widths, v: Assignment) {
    |v| == |ws| && forall i :: 0 <= i < |ws| ==> |v[i]| == ws[i]
  }

  ghost function FieldUniv(ws: Widths, f: nat): Label
    requires 1 <= f <= |ws|
  {
    Univ(ws[f - 1])
  }

  function Level(s: Store, id: Id): nat
    requires id in s
  {
    match s[id]
    case Leaf(_) => LEAF_FIELD
    case Internal(f, _) => f
  }

  function Min(x: nat, y: nat): nat { if x < y then x else y }

  // ---------------------------------------------------------------- edge maps

  predicate Apart(e: Edges, c: Id, d: Id)
    requires c in e && d in e
  {
    e[c] !! e[d]
  }

  ghost predicate Disjoint(e: Edges) {
    forall c, d {:trigger Apart(e, c, d)} :: c in e && d in e && c != d ==> Apart(e, c, d)
  }

  function Support(e: Edges): Label {
    set c, x | c in e && x in e[c] :: x
  }

  /** The child taken at field value x; outside the support the value is zero. */
  ghost function ChildAt(e: Edges, x: Bits): (r: Id)
    ensures (r in e && x in e[r]) || (r == FALSE && x !in Support(e))
  {
    if x in Support(e) then
      var c :| c in e && x in e[c];
      c
    else FALSE
  }

  lemma NotApart(e: Edges, c: Id, d: Id, x: Bits)
    requires c in e && d in e && x in e[c] && x in e[d]
    ensures !Apart(e, c, d)
  {}

  lemma ChildAtUnique(e: Edges, x: Bits, c: Id)
    requires Disjoint(e) && c in e && x in e[c]
    ensures ChildAt(e, x) == c
  {
    assert x in Support(e);
    var d := ChildAt(e, x);
    if d != c { NotApart(e, c, d, x); }
  }

  ghost predicate EdgeOk(ws: Widths, s: Store, f: nat, e: Edges, c: Id)
    requires 1 <= f <= |ws| && c in e
  {
    c in s && Level(s, c) > f && e[c] != {} && e[c] <= FieldUniv(ws, f)
  }

  /** Edges a node of field f may carry: existing deeper children, non-empty disjoint labels
      over the field's values, no edge to FALSE. */
  ghost predicate WfEdges(ws: Widths, s: Store, f: nat, e: Edges) {
    && 1 <= f <= |ws|
    && FALSE !in e
    && Disjoint(e)
    && forall c {:trigger EdgeOk(ws, s, f, e, c)} :: c in e ==> EdgeOk(ws, s, f, e, c)
  }

  lemma EdgesAll(ws: Widths, s: Store, f: nat, e: Edges)
    requires WfEdges(ws, s, f, e)
    ensures forall c :: c in e ==> c in s && Level(s, c) > f && e[c] != {} && e[c] <= FieldUniv(ws, f)
  {
    forall c | c in e ensures EdgeOk(ws, s, f, e, c) {}
  }

  // ---------------------------------------------------------------- well-formed stores

  ghost predicate WfNode(ws: Widths, s: Store, n: Node) {
    match n
    case Leaf(_) => true
    case Internal(f, e) =>
      WfEdges(ws, s, f, e) && e != map[] && forall c :: c in e ==> e[c] != FieldUniv(ws, f)
  }

  /** A node with one edge that leaves some value out. */
  lemma SingleEdge(ws: Widths, s: Store, f: nat, c: Id, l: Label, out: Bits)
    requires 1 <= f <= |ws| && c in s && c != FALSE && Level(s, c) > f
    requires l != {} && l <= FieldUniv(ws, f) && out in FieldUniv(ws, f) && out !in l
    ensures WfNode(ws, s, Internal(f, map[c := l]))
  {
    assert EdgeOk(ws, s, f, map[c := l], c);
  }

  /** The child taken at a value exists and is deeper. */
  lemma ChildOk(ws: Widths, s: Store, f: nat, e: Edges, x: Bits)
    requires WfEdges(ws, s, f, e) && Sentinels(s) && f < LEAF_FIELD
    ensures ChildAt(e, x) in s && Level(s, ChildAt(e, x)) > f
  {
    var c := ChildAt(e, x);
    if c in e { assert EdgeOk(ws, s, f, e, c); }
  }

  predicate SameNode(s: Store, i: Id, j: Id)
    requires i in s && j in s
  {
    s[i] == s[j]
  }

  /** No two entries hold the same content. */
  ghost predicate Unique(s: Store) {
    forall i, j {:trigger SameNode(s, i, j)} :: i in s && j in s && SameNode(s, i, j) ==> i == j
  }

  ghost predicate Sentinels(s: Store) {
    FALSE in s && s[FALSE] == Leaf(0.0) && TRUE in s && s[TRUE] == Leaf(1.0)
  }

  ghost predicate Wf(ws: Widths, s: Store) {
    Layout(ws) && Sentinels(s) && Unique(s) && forall i {:trigger WfNode(ws, s, s[i])} :: i in s ==> WfNode(ws, s, s[i])
  }

  lemma NodeChildren(ws: Widths, s: Store, i: Id)
    requires Wf(ws, s) && i in s && s[i].Internal?
    ensures 1 <= s[i].field <= |ws| && WfEdges(ws, s, s[i].field, s[i].edges)
    ensures forall c :: c in s[i].edges ==> c in s && Level(s, c) > s[i].field
  {
    assert WfNode(ws, s, s[i]);
    EdgesAll(ws, s, s[i].field, s[i].edges);
  }

  /** Walking down: the child taken under v exists and is deeper. */
  lemma NodeChild(ws: Widths, s: Store, i: Id, v: Assignment)
    requires Wf(ws, s) && i in s && s[i].Internal? && Fits(ws, v)
    ensures 1 <= s[i].field <= |ws| && WfEdges(ws, s, s[i].field, s[i].edges)
    ensures var c := ChildAt(s[i].edges, v[s[i].field - 1]);
            c in s && Level(s, c) > s[i].field && Eval(ws, s, i, v) == Eval(ws, s, c, v)
  {
    assert WfNode(ws, s, s[i]);
    ChildOk(ws, s, s[i].field, s[i].edges, v[s[i].field - 1]);
  }

  lemma LevelBound(ws: Widths, s: Store, id: Id)
    requires Wf(ws, s) && id in s
    ensures 1 <= Level(s, id) <= LEAF_FIELD
  {
    assert WfNode(ws, s, s[id]);
  }

  // ---------------------------------------------------------------- meaning

  ghost function Eval(ws: Widths, s: Store, id: Id, v: Assignment): real
    requires Wf(ws, s) && id in s && Fits(ws, v)
    decreases LEAF_FIELD - Level(s, id)
  {
    match s[id]
    case Leaf(q) => q
    case Internal(f, e) =>
      assert WfNode(ws, s, s[id]);
      ChildOk(ws, s, f, e, v[f - 1]);
      Eval(ws, s, ChildAt(e, v[f - 1]), v)
  }

  /** Meaning of an edge map standing at field f. */
  ghost function EvalEdges(ws: Widths, s: Store, f: nat, e: Edges, v: Assignment): real
    requires Wf(ws, s) && WfEdges(ws, s, f, e) && Fits(ws, v)
  {
    ChildOk(ws, s, f, e, v[f - 1]);
    Eval(ws, s, ChildAt(e, v[f - 1]), v)
  }

  lemma SentinelValues(ws: Widths, s: Store, v: Assignment)
    requires Wf(ws, s) && Fits(ws, v)
    ensures Eval(ws, s, FALSE, v) == 0.0 && Eval(ws, s, TRUE, v) == 1.0
  {}

  /** A node does not look at fields above its own. */
  lemma {:induction false} EvalLocal(ws: Widths, s: Store, id: Id, v: Assignment, w: Assignment)
    requires Wf(ws, s) && id in s && Fits(ws, v) && Fits(ws, w)
    requires forall i :: 0 <= i < |ws| && i + 1 >= Level(s, id) ==> v[i] == w[i]
    ensures Eval(ws, s, id, v) == Eval(ws, s, id, w)
    decreases LEAF_FIELD - Level(s, id)
  {
    LevelBound(ws, s, id);
    if s[id].Internal? {
      NodeChild(ws, s, id, v);
      NodeChild(ws, s, id, w);
      EvalLocal(ws, s, ChildAt(s[id].edges, v[s[id].field - 1]), v, w);
    }
  }

  function Put(v: Assignment, f: nat, x: Bits): Assignment
    requires 1 <= f <= |v|
  {
    v[f - 1 := x]
  }

  /** Changing a field above a node does not change its value. */
  lemma PutFits(ws: Widths, v: Assignment, f: nat, x: Bits)
    requires Fits(ws, v) && 1 <= f <= |ws| && |x| == ws[f - 1]
    ensures Fits(ws, Put(v, f, x))
  {}

  lemma {:induction false} EvalPutAbove(ws: Widths, s: Store, id: Id, v: Assignment, f: nat, x: Bits)
    requires Wf(ws, s) && id in s && Fits(ws, v) && 1 <= f <= |ws| && x in FieldUniv(ws, f)
    requires f < Level(s, id)
    ensures Fits(ws, Put(v, f, x)) && Eval(ws, s, id, Put(v, f, x)) == Eval(ws, s, id, v)
  {
    PutFits(ws, v, f, x);
    EvalLocal(ws, s, id, Put(v, f, x), v);
  }

  // ---------------------------------------------------------------- changing the store

  ghost predicate ClosedAt(s: Store, k: set<Id>, i: Id)
    requires i in s
  {
    s[i].Internal? ==> s[i].edges.Keys <= k
  }

  /** A set of nodes that contains its own children. */
  ghost predicate Closed(s: Store, k: set<Id>) {
    && k <= s.Keys
    && FALSE in k
    && forall i {:trigger ClosedAt(s, k, i)} :: i in k ==> ClosedAt(s, k, i)
  }

  ghost predicate KeptAt(s: Store, t: Store, i: Id)
    requires i in s
  {
    i in t && t[i] == s[i]
  }

  /** Every node of k is in t with the content it had in s. */
  ghost predicate Keeps(s: Store, t: Store, k: set<Id>) {
    forall i {:trigger KeptAt(s, t, i)} :: i in k && i in s ==> KeptAt(s, t, i)
  }

  lemma {:induction false} EvalKept(ws: Widths, s: Store, t: Store, k: set<Id>, id: Id, v: Assignment)
    requires Wf(ws, s) && Wf(ws, t) && Closed(s, k) && Keeps(s, t, k) && id in k && Fits(ws, v)
    ensures id in t && Eval(ws, s, id, v) == Eval(ws, t, id, v)
    decreases LEAF_FIELD - Level(s, id)
  {
    assert ClosedAt(s, k, id) && KeptAt(s, t, id);
    if s[id].Internal? {
      NodeChild(ws, s, id, v);
      NodeChild(ws, t, id, v);
      EvalKept(ws, s, t, k, ChildAt(s[id].edges, v[s[id].field - 1]), v);
    }
  }

  lemma KeepsLess(s: Store, t: Store, k: set<Id>, l: set<Id>)
    requires Keeps(s, t, l) && k <= l && k <= s.Keys
    ensures Keeps(s, t, k) && k <= t.Keys
  {
    forall i | i in k ensures i in t { assert KeptAt(s, t, i); }
  }

  lemma KeepsTrans(s: Store, t: Store, u: Store, k: set<Id>, l: set<Id>)
    requires Keeps(s, t, k) && Keeps(t, u, l) && k <= l
    ensures Keeps(s, u, k)
  {
    forall i | i in k && i in s ensures KeptAt(s, u, i) {
      assert KeptAt(s, t, i) && KeptAt(t, u, i);
    }
  }

  // ---------------------------------------------------------------- canonicity

  ghost predicate SameFunction(ws: Widths, s: Store, a: Id, b: Id)
    requires Wf(ws, s) && a in s && b in s
  {
    forall v :: Fits(ws, v) ==> Eval(ws, s, a, v) == Eval(ws, s, b, v)
  }

  function ZeroAssignment(ws: Widths): (v: Assignment)
    ensures Fits(ws, v)
  {
    seq(|ws|, i requires 0 <= i < |ws| => Zeros(ws[i]))
  }

  /** Cofactor: fixing field f to x turns node a of field f into its child at x. */
  lemma EvalAtChild(ws: Widths, s: Store, a: Id, x: Bits, v: Assignment)
    requires Wf(ws, s) && a in s && s[a].Internal? && Fits(ws, v)
    requires 1 <= s[a].field <= |ws| && x in FieldUniv(ws, s[a].field)
    ensures ChildAt(s[a].edges, x) in s && Level(s, ChildAt(s[a].edges, x)) > s[a].field
    ensures var w := Put(v, s[a].field, x);
            Fits(ws, w) && Eval(ws, s, a, w) == Eval(ws, s, ChildAt(s[a].edges, x), v)
  {
    assert WfNode(ws, s, s[a]);
    ChildOk(ws, s, s[a].field, s[a].edges, x);
    EvalPutAbove(ws, s, ChildAt(s[a].edges, x), v, s[a].field, x);
  }

  /** Two edge maps without empty labels that choose the same child everywhere are equal. */
  lemma EdgesExtensional(e: Edges, g: Edges, u: Label)
    requires Disjoint(e) && Disjoint(g) && FALSE !in e && FALSE !in g
    requires forall c :: c in e ==> e[c] != {} && e[c] <= u
    requires forall c :: c in g ==> g[c] != {} && g[c] <= u
    requires forall x :: x in u ==> ChildAt(e, x) == ChildAt(g, x)
    ensures e == g
  {
    EdgesIncluded(e, g, u);
    EdgesIncluded(g, e, u);
    MutualInclusion(e, g);
  }

  lemma MutualInclusion(e: Edges, g: Edges)
    requires forall c :: c in e ==> c in g && e[c] <= g[c]
    requires forall c :: c in g ==> c in e && g[c] <= e[c]
    ensures e == g
  {
    assert e.Keys == g.Keys;
    assert forall c :: c in e ==> e[c] == g[c];
  }

  lemma EdgesIncluded(e: Edges, g: Edges, u: Label)
    requires Disjoint(e) && FALSE !in e
    requires forall c :: c in e ==> e[c] != {} && e[c] <= u
    requires forall x :: x in u ==> ChildAt(e, x) == ChildAt(g, x)
    ensures forall c :: c in e ==> c in g && e[c] <= g[c]
  {
    forall c | c in e ensures c in g && e[c] <= g[c] {
      forall x | x in e[c] ensures c in g && x in g[c] {
        ChildAtUnique(e, x, c);
        assert ChildAt(g, x) == c;
      }
      var x :| x in e[c];
    }
  }

  /** A node whose cofactors all denote b, with b below it, cannot be well formed. */
  lemma NotConstant(ws: Widths, s: Store, a: Id, b: Id)
    requires Wf(ws, s) && a in s && s[a].Internal?
    ensures 1 <= s[a].field <= |ws|
    ensures !forall x :: x in FieldUniv(ws, s[a].field) ==> ChildAt(s[a].edges, x) == b
  {
    var e, f := s[a].edges, s[a].field;
    assert WfNode(ws, s, s[a]);
    EdgesAll(ws, s, f, e);
    var c :| c in e;
    var x :| x in e[c];
    ChildAtUnique(e, x, c);
    var y :| y in FieldUniv(ws, f) && y !in e[c];
    if ChildAt(e, y) == b && c == b {
      assert false;
    }
  }

  /** Nodes that denote the same function are the same node, whatever their top fields. */
  lemma {:induction false} Canonicity(ws: Widths, s: Store, a: Id, b: Id)
    requires Wf(ws, s) && a in s && b in s
    ensures SameFunction(ws, s, a, b) <==> a == b
    decreases (LEAF_FIELD - Level(s, a)) + (LEAF_FIELD - Level(s, b))
  {
    assert WfNode(ws, s, s[a]) && WfNode(ws, s, s[b]);
    if SameFunction(ws, s, a, b) {
      if Level(s, a) == Level(s, b) {
        CanonicitySameField(ws, s, a, b);
      } else if Level(s, a) < Level(s, b) {
        CanonicityAbove(ws, s, a, b);
      } else {
        assert SameFunction(ws, s, b, a);
        CanonicityAbove(ws, s, b, a);
      }
    }
  }

  lemma {:induction false} CanonicitySameField(ws: Widths, s: Store, a: Id, b: Id)
    requires Wf(ws, s) && a in s && b in s && Level(s, a) == Level(s, b) && SameFunction(ws, s, a, b)
    ensures a == b
    decreases (LEAF_FIELD - Level(s, a)) + (LEAF_FIELD - Level(s, b)), 0
  {
    assert WfNode(ws, s, s[a]) && WfNode(ws, s, s[b]);
    if s[a].Leaf? {
      var v := ZeroAssignment(ws);
      assert Eval(ws, s, a, v) == Eval(ws, s, b, v);
    } else {
      var f, e, g := s[a].field, s[a].edges, s[b].edges;
      forall x | x in FieldUniv(ws, f) ensures ChildAt(e, x) == ChildAt(g, x) {
        forall v | Fits(ws, v)
          ensures ChildAt(e, x) in s && ChildAt(g, x) in s
          ensures Eval(ws, s, ChildAt(e, x), v) == Eval(ws, s, ChildAt(g, x), v)
        {
          EvalAtChild(ws, s, a, x, v);
          EvalAtChild(ws, s, b, x, v);
        }
        EvalAtChild(ws, s, a, x, ZeroAssignment(ws));
        EvalAtChild(ws, s, b, x, ZeroAssignment(ws));
        Canonicity(ws, s, ChildAt(e, x), ChildAt(g, x));
      }
      EdgesAll(ws, s, f, e);
      EdgesAll(ws, s, f, g);
      EdgesExtensional(e, g, FieldUniv(ws, f));
    }
    assert SameNode(s, a, b);
  }

  lemma {:induction false} CanonicityAbove(ws: Widths, s: Store, a: Id, b: Id)
    requires Wf(ws, s) && a in s && b in s && Level(s, a) < Level(s, b)
    ensures !SameFunction(ws, s, a, b)
    decreases (LEAF_FIELD - Level(s, a)) + (LEAF_FIELD - Level(s, b)), 0
  {
    assert WfNode(ws, s, s[a]) && WfNode(ws, s, s[b]);
    var f, e := s[a].field, s[a].edges;
    if SameFunction(ws, s, a, b) {
      forall x | x in FieldUniv(ws, f) ensures ChildAt(e, x) == b {
        forall v | Fits(ws, v)
          ensures ChildAt(e, x) in s
          ensures Eval(ws, s, ChildAt(e, x), v) == Eval(ws, s, b, v)
        {
          EvalAtChild(ws, s, a, x, v);
          EvalPutAbove(ws, s, b, v, f, x);
        }
        EvalAtChild(ws, s, a, x, ZeroAssignment(ws));
        Canonicity(ws, s, ChildAt(e, x), b);
      }
      NotConstant(ws, s, a, b);
    }
  }

  /** Every node but FALSE is non-zero somewhere. */
  lemma NonZeroSomewhere(ws: Widths, s: Store, a: Id) returns (v: Assignment)
    requires Wf(ws, s) && a in s && a != FALSE
    ensures Fits(ws, v) && Eval(ws, s, a, v) != 0.0
  {
    Canonicity(ws, s, a, FALSE);
    v :| Fits(ws, v) && Eval(ws, s, a, v) != Eval(ws, s, FALSE, v);
    SentinelValues(ws, s, v);
  }
}
