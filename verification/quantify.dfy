/** Quantifying out one field: what it means, and existential quantification of Boolean
    diagrams. */
module Quantify {
  import opened Labels
  import opened Diagram
  import opened EdgeAlgebra
  import opened Operations
  import opened StoreSteps
  import opened Engines
  import opened BooleanOps

  /** What is computed from the values of a diagram over all values of a field. */
  datatype Quantifier = Some_ | Sum

  /** Eval as a total function. */
  ghost function ValueAt(ws: Widths, s: Store, a: Id, v: Assignment): real {
    if Wf(ws, s) && a in s && Fits(ws, v) then Eval(ws, s, a, v) else 0.0
  }

  ghost function Along(ws: Widths, s: Store, a: Id, v: Assignment, t: nat): Bits -> real
    requires 1 <= t <= |v|
  {
    x => ValueAt(ws, s, a, Put(v, t, x))
  }

  /** The quantified value of a at v over all values of field t. */
  ghost function QuantAt(ws: Widths, s: Store, q: Quantifier, t: nat, a: Id, v: Assignment): real
    requires 1 <= t <= |ws| && Fits(ws, v)
  {
    match q
    case Some_ => if exists x :: x in FieldUniv(ws, t) && Along(ws, s, a, v, t)(x) != 0.0 then 1.0 else 0.0
    case Sum => SumOver(FieldUniv(ws, t), Along(ws, s, a, v, t))
  }

  /** r denotes a with field t quantified out. */
  ghost predicate Quantified(ws: Widths, s: Store, q: Quantifier, t: nat, a: Id, r: Id) {
    && Wf(ws, s) && a in s && r in s && 1 <= t <= |ws| && Level(s, r) >= Level(s, a)
    && forall v {:trigger Fits(ws, v)} :: Fits(ws, v) ==> Eval(ws, s, r, v) == QuantAt(ws, s, q, t, a, v)
  }

  /** Two nodes with the same values along field t have the same quantified value. */
  lemma QuantSame(ws: Widths, s: Store, z: Store, q: Quantifier, t: nat, a: Id, b: Id, v: Assignment, w: Assignment)
    requires 1 <= t <= |ws| && Fits(ws, v) && Fits(ws, w)
    requires forall x :: x in FieldUniv(ws, t) ==> Along(ws, s, a, v, t)(x) == Along(ws, z, b, w, t)(x)
    ensures QuantAt(ws, s, q, t, a, v) == QuantAt(ws, z, q, t, b, w)
  {
    if q.Sum? {
      SumSame(FieldUniv(ws, t), Along(ws, s, a, v, t), Along(ws, z, b, w, t));
    }
  }

  lemma QuantifiedKept(ws: Widths, s: Store, z: Store, k: set<Id>, q: Quantifier, t: nat, a: Id, r: Id)
    requires Quantified(ws, s, q, t, a, r) && Wf(ws, z) && Closed(s, k) && Keeps(s, z, k) && a in k && r in k
    ensures Quantified(ws, z, q, t, a, r)
  {
    assert KeptAt(s, z, a) && KeptAt(s, z, r);
    forall v | Fits(ws, v) ensures Eval(ws, z, r, v) == QuantAt(ws, z, q, t, a, v) {
      EvalKept(ws, s, z, k, r, v);
      forall x | x in FieldUniv(ws, t) ensures Along(ws, s, a, v, t)(x) == Along(ws, z, a, v, t)(x) {
        PutFits(ws, v, t, x);
        EvalKept(ws, s, z, k, a, Put(v, t, x));
      }
      QuantSame(ws, s, z, q, t, a, a, v, v);
    }
  }

  /** Zero stays zero. */
  lemma QuantifiedFalse(ws: Widths, s: Store, q: Quantifier, t: nat)
    requires Wf(ws, s) && 1 <= t <= |ws|
    ensures Quantified(ws, s, q, t, FALSE, FALSE)
  {
    forall v | Fits(ws, v) ensures Eval(ws, s, FALSE, v) == QuantAt(ws, s, q, t, FALSE, v) {
      forall x | x in FieldUniv(ws, t) ensures Along(ws, s, FALSE, v, t)(x) == 0.0 {
        PutFits(ws, v, t, x);
      }
      if q.Sum? {
        SumConst(FieldUniv(ws, t), Along(ws, s, FALSE, v, t), 0.0);
        RepeatedIs(|FieldUniv(ws, t)|, 0.0);
      }
    }
  }

  // ---------------------------------------------------------------- another field on top

  /** Quantifying below a node of another field goes child by child. */
  lemma QuantDescends(ws: Widths, s: Store, q: Quantifier, t: nat, f: nat, g: Edges, a: Id, v: Assignment)
    requires Denotes(ws, s, f, g, a) && Fits(ws, v) && 1 <= t <= |ws| && f != t
    ensures QuantAt(ws, s, q, t, a, v) == QuantAt(ws, s, q, t, ChildAt(g, v[f - 1]), v)
  {
    var c := ChildAt(g, v[f - 1]);
    ChildOk(ws, s, f, g, v[f - 1]);
    forall x | x in FieldUniv(ws, t) ensures Along(ws, s, a, v, t)(x) == Along(ws, s, c, v, t)(x) {
      PutFits(ws, v, t, x);
      var w := Put(v, t, x);
      assert Eval(ws, s, a, w) == EvalEdges(ws, s, f, g, w);
    }
    QuantSame(ws, s, s, q, t, a, c, v, v);
  }

  ghost predicate MappedAt(ws: Widths, s: Store, q: Quantifier, t: nat, g: Edges, res: Edges, done: set<Id>, x: Bits) {
    var c := ChildAt(g, x);
    if c in done then Quantified(ws, s, q, t, c, ChildAt(res, x)) else ChildAt(res, x) == FALSE
  }

  /** The rebuilt edge map has the quantified children on the labels done so far. */
  ghost predicate Mapped(ws: Widths, s: Store, q: Quantifier, t: nat, f: nat, g: Edges, res: Edges, done: set<Id>) {
    && Wf(ws, s) && WfEdges(ws, s, f, g) && WfEdges(ws, s, f, res)
    && forall x {:trigger ChildAt(res, x)} :: x in FieldUniv(ws, f) ==> MappedAt(ws, s, q, t, g, res, done, x)
  }

  lemma MappedNothing(ws: Widths, s: Store, q: Quantifier, t: nat, f: nat, g: Edges)
    requires Wf(ws, s) && WfEdges(ws, s, f, g)
    ensures Mapped(ws, s, q, t, f, g, map[], {})
  {
    forall x | x in FieldUniv(ws, f) ensures MappedAt(ws, s, q, t, g, map[], {}, x) {
      assert ChildAt(map[], x) == FALSE;
    }
  }

  lemma MappedKept(ws: Widths, s: Store, z: Store, k: set<Id>, q: Quantifier, t: nat, f: nat, g: Edges, res: Edges,
                   done: set<Id>)
    requires Mapped(ws, s, q, t, f, g, res, done) && Wf(ws, z) && Closed(s, k) && Keeps(s, z, k) && g.Keys <= k
    requires res.Keys <= k
    ensures Mapped(ws, z, q, t, f, g, res, done)
  {
    WfEdgesKept(ws, s, z, k, f, g);
    WfEdgesKept(ws, s, z, k, f, res);
    forall x | x in FieldUniv(ws, f) ensures MappedAt(ws, z, q, t, g, res, done, x) {
      assert MappedAt(ws, s, q, t, g, res, done, x);
      if ChildAt(g, x) in done {
        QuantifiedKept(ws, s, z, k, q, t, ChildAt(g, x), ChildAt(res, x));
      }
    }
  }

  lemma MappedAdd(ws: Widths, s: Store, q: Quantifier, t: nat, f: nat, g: Edges, res: Edges, done: set<Id>, c: Id,
                  r: Id)
    requires Mapped(ws, s, q, t, f, g, res, done) && c in g && c !in done && Quantified(ws, s, q, t, c, r)
    ensures Mapped(ws, s, q, t, f, g, AddEdge(res, r, g[c]), done + {c})
  {
    assert EdgeOk(ws, s, f, g, c);
    forall x | x in g[c] ensures x !in Support(res) {
      ChildAtUnique(g, x, c);
      assert MappedAt(ws, s, q, t, g, res, done, x);
    }
    AddEdgeWf(ws, s, f, res, r, g[c]);
    forall x | x in FieldUniv(ws, f) ensures MappedAt(ws, s, q, t, g, AddEdge(res, r, g[c]), done + {c}, x) {
      AddEdgeChild(res, r, g[c], x);
      assert MappedAt(ws, s, q, t, g, res, done, x);
      if x in g[c] { ChildAtUnique(g, x, c); }
    }
  }

  /** A fully rebuilt node denotes the quantified function. */
  lemma MappedQuantified(ws: Widths, s: Store, q: Quantifier, t: nat, f: nat, g: Edges, res: Edges, a: Id, r: Id)
    requires Mapped(ws, s, q, t, f, g, res, g.Keys) && Denotes(ws, s, f, g, a) && Denotes(ws, s, f, res, r)
    requires 1 <= t <= |ws| && f != t && Level(s, a) <= Level(s, r)
    ensures Quantified(ws, s, q, t, a, r)
  {
    QuantifiedFalse(ws, s, q, t);
    forall v | Fits(ws, v) ensures Eval(ws, s, r, v) == QuantAt(ws, s, q, t, a, v) {
      var x := v[f - 1];
      assert MappedAt(ws, s, q, t, g, res, g.Keys, x);
      QuantDescends(ws, s, q, t, f, g, a, v);
      assert Eval(ws, s, r, v) == EvalEdges(ws, s, f, res, v);
    }
  }

  // ---------------------------------------------------------------- the field itself on top

  /** The child of a node of field t at value x is the node's value there. */
  lemma AlongTop(ws: Widths, s: Store, a: Id, v: Assignment, x: Bits)
    requires Wf(ws, s) && a in s && s[a].Internal? && Fits(ws, v) && 1 <= s[a].field <= |ws|
    requires x in FieldUniv(ws, s[a].field)
    ensures ChildAt(s[a].edges, x) in s && Along(ws, s, a, v, s[a].field)(x) == Eval(ws, s, ChildAt(s[a].edges, x), v)
  {
    EvalAtChild(ws, s, a, x, v);
  }

  /** A node below field t has the same value all along it. */
  lemma AlongBelow(ws: Widths, s: Store, a: Id, v: Assignment, t: nat, x: Bits)
    requires Wf(ws, s) && a in s && Fits(ws, v) && 1 <= t <= |ws| && t < Level(s, a) && x in FieldUniv(ws, t)
    ensures Along(ws, s, a, v, t)(x) == Eval(ws, s, a, v)
  {
    EvalPutAbove(ws, s, a, v, t, x);
  }

  /** res is the disjunction of the children done so far. */
  ghost predicate AnyChild(ws: Widths, s: Store, done: set<Id>, res: Id) {
    && Wf(ws, s) && res in s && done <= s.Keys
    && forall v {:trigger Fits(ws, v)} :: Fits(ws, v) ==> AnyChildAt(ws, s, done, res, v)
  }

  ghost predicate AnyChildAt(ws: Widths, s: Store, done: set<Id>, res: Id, v: Assignment)
    requires Wf(ws, s) && Fits(ws, v) && res in s
  {
    Eval(ws, s, res, v) == if exists c :: c in done && ValueAt(ws, s, c, v) != 0.0 then 1.0 else 0.0
  }

  lemma AnyChildAdd(ws: Widths, s: Store, t: Store, done: set<Id>, c: Id, res: Id, r: Id)
    requires AnyChild(ws, s, done, res) && Wf(ws, t) && Keeps(s, t, s.Keys) && c in s && Computes(ws, t, Or, res, c, r)
    ensures AnyChild(ws, t, done + {c}, r)
  {
    AllClosed(ws, s);
    forall d | d in done + {c} ensures d in t { assert KeptAt(s, t, d); }
    forall v | Fits(ws, v) ensures AnyChildAt(ws, t, done + {c}, r, v) {
      assert AnyChildAt(ws, s, done, res, v) && ResultAt(ws, t, Or, res, c, r, v);
      EvalKept(ws, s, t, s.Keys, res, v);
      EvalKept(ws, s, t, s.Keys, c, v);
      forall d | d in done ensures ValueAt(ws, s, d, v) == ValueAt(ws, t, d, v) {
        EvalKept(ws, s, t, s.Keys, d, v);
      }
      if exists d :: d in done && ValueAt(ws, s, d, v) != 0.0 {
        var d :| d in done && ValueAt(ws, s, d, v) != 0.0;
        assert d in done + {c} && ValueAt(ws, t, d, v) != 0.0;
      }
    }
  }

  lemma AnyChildExists(ws: Widths, s: Store, a: Id, r: Id)
    requires Wf(ws, s) && a in s && s[a].Internal? && AnyChild(ws, s, s[a].edges.Keys, r) && Level(s, r) >= Level(s, a)
    ensures Quantified(ws, s, Some_, s[a].field, a, r)
  {
    var t, e := s[a].field, s[a].edges;
    NodeChildren(ws, s, a);
    EdgesAll(ws, s, t, e);
    forall v | Fits(ws, v) ensures Eval(ws, s, r, v) == QuantAt(ws, s, Some_, t, a, v) {
      assert AnyChildAt(ws, s, e.Keys, r, v);
      if exists c :: c in e.Keys && ValueAt(ws, s, c, v) != 0.0 {
        var c :| c in e.Keys && ValueAt(ws, s, c, v) != 0.0;
        var x :| x in e[c];
        ChildAtUnique(e, x, c);
        AlongTop(ws, s, a, v, x);
        assert x in FieldUniv(ws, t) && Along(ws, s, a, v, t)(x) != 0.0;
      }
      if exists x :: x in FieldUniv(ws, t) && Along(ws, s, a, v, t)(x) != 0.0 {
        var x :| x in FieldUniv(ws, t) && Along(ws, s, a, v, t)(x) != 0.0;
        AlongTop(ws, s, a, v, x);
        SentinelValues(ws, s, v);
        assert ChildAt(e, x) in e.Keys && ValueAt(ws, s, ChildAt(e, x), v) != 0.0;
      }
    }
  }

  /** A Boolean node below the quantified field is its own quantification. */
  lemma ExistsBelow(ws: Widths, s: Store, t: nat, a: Id)
    requires Wf(ws, s) && BoolStore(s) && a in s && 1 <= t <= |ws| && t < Level(s, a)
    ensures Quantified(ws, s, Some_, t, a, a)
  {
    forall v | Fits(ws, v) ensures Eval(ws, s, a, v) == QuantAt(ws, s, Some_, t, a, v) {
      EvalBool(ws, s, a, v);
      var z := Zeros(ws[t - 1]);
      AlongBelow(ws, s, a, v, t, z);
      forall x | x in FieldUniv(ws, t) ensures Along(ws, s, a, v, t)(x) == Eval(ws, s, a, v) {
        AlongBelow(ws, s, a, v, t, x);
      }
    }
  }

  /** Existential quantification. Partial results are not referenced, so no collection may run. */
  method Exist(en: Engine, a: Id, t: nat) returns (r: Id)
    requires en.Valid() && en.boolean && !en.collects && a in en.nodes && 1 <= t <= |en.ws|
    modifies en
    ensures en.Valid() && en.pins == old(en.pins) && Keeps(old(en.nodes), en.nodes, old(en.nodes).Keys)
    ensures Quantified(en.ws, en.nodes, Some_, t, a, r)
    decreases Depth(en.nodes, a), 2
  {
    if en.nodes[a].Leaf? {
      ExistsBelow(en.ws, en.nodes, t, a);
      r := a;
    } else if en.nodes[a].field == t {
      r := OrChildren(en, a);
    } else {
      r := ExistBelow(en, a, t);
    }
  }

  /** Collapse a node of the quantified field: OR of its children. */
  method OrChildren(en: Engine, a: Id) returns (r: Id)
    requires en.Valid() && en.boolean && !en.collects && a in en.nodes && en.nodes[a].Internal?
    modifies en
    ensures en.Valid() && en.pins == old(en.pins) && Keeps(old(en.nodes), en.nodes, old(en.nodes).Keys)
    ensures Quantified(en.ws, en.nodes, Some_, old(en.nodes[a].field), a, r)
  {
    ghost var s0 := en.nodes;
    var e, t := en.nodes[a].edges, en.nodes[a].field;
    NodeChildren(en.ws, en.nodes, a);
    LevelBound(en.ws, en.nodes, a);
    r := FALSE;
    var todo := e.Keys;
    forall v | Fits(en.ws, v) ensures AnyChildAt(en.ws, en.nodes, {}, FALSE, v) { SentinelValues(en.ws, en.nodes, v); }
    assert e.Keys - todo == {};
    while todo != {}
      invariant en.Valid() && en.pins == old(en.pins) && Keeps(s0, en.nodes, s0.Keys)
      invariant todo <= e.Keys && AnyChild(en.ws, en.nodes, e.Keys - todo, r) && Level(en.nodes, r) >= t
      decreases |todo|
    {
      var c :| c in todo;
      assert e.Keys - todo + {c} == e.Keys - (todo - {c});
      r := OrChild(en, s0, e, t, e.Keys - todo, c, r);
      todo := todo - {c};
    }
    assert e.Keys - todo == e.Keys;
    assert KeptAt(s0, en.nodes, a);
    AnyChildExists(en.ws, en.nodes, a, r);
  }

  method OrChild(en: Engine, ghost s0: Store, ghost e: Edges, ghost t: nat, ghost done: set<Id>, c: Id, acc: Id)
    returns (r: Id)
    requires en.Valid() && en.boolean && !en.collects && Wf(en.ws, s0) && Keeps(s0, en.nodes, s0.Keys)
    requires c in s0 && Level(s0, c) > t && AnyChild(en.ws, en.nodes, done, acc) && Level(en.nodes, acc) >= t
    modifies en
    ensures en.Valid() && en.pins == old(en.pins) && Keeps(s0, en.nodes, s0.Keys)
    ensures AnyChild(en.ws, en.nodes, done + {c}, r) && Level(en.nodes, r) >= t
  {
    ghost var s1 := en.nodes;
    assert KeptAt(s0, en.nodes, c);
    KeepsLess(s0, s1, s0.Keys, s0.Keys);
    r := Or2(en, acc, c);
    assert KeptAt(s1, en.nodes, c) && KeptAt(s1, en.nodes, acc);
    KeepsTrans(s0, s1, en.nodes, s0.Keys, s1.Keys);
    AnyChildAdd(en.ws, s1, en.nodes, done, c, acc, r);
  }

  /** Keep the node's own field and quantify in its children. */
  method ExistBelow(en: Engine, a: Id, t: nat) returns (r: Id)
    requires en.Valid() && en.boolean && !en.collects && a in en.nodes && 1 <= t <= |en.ws|
    requires en.nodes[a].Internal? && en.nodes[a].field != t
    modifies en
    ensures en.Valid() && en.pins == old(en.pins) && Keeps(old(en.nodes), en.nodes, old(en.nodes).Keys)
    ensures Quantified(en.ws, en.nodes, Some_, t, a, r)
    decreases Depth(en.nodes, a), 1
  {
    ghost var s0 := en.nodes;
    var f, g := en.nodes[a].field, en.nodes[a].edges;
    NodeChildren(en.ws, en.nodes, a);
    LevelBound(en.ws, en.nodes, a);
    MappedNothing(en.ws, en.nodes, Some_, t, f, g);
    var res: Edges := map[];
    var todo := g.Keys;
    assert g.Keys - todo == {};
    while todo != {}
      invariant en.Valid() && en.pins == old(en.pins) && Keeps(s0, en.nodes, s0.Keys) && todo <= g.Keys
      invariant Mapped(en.ws, en.nodes, Some_, t, f, g, res, g.Keys - todo)
      decreases |todo|
    {
      var c :| c in todo;
      assert g.Keys - todo + {c} == g.Keys - (todo - {c});
      res := ExistChild(en, t, f, g, res, g.Keys - todo, c, s0);
      todo := todo - {c};
    }
    assert g.Keys - todo == g.Keys;
    r := Rebuild(en, Some_, t, f, g, res, a, s0);
  }

  method ExistChild(en: Engine, t: nat, f: nat, g: Edges, res: Edges, ghost done: set<Id>, c: Id, ghost s0: Store)
    returns (res': Edges)
    requires en.Valid() && en.boolean && !en.collects && 1 <= t <= |en.ws| && f < LEAF_FIELD
    requires Keeps(s0, en.nodes, s0.Keys) && Mapped(en.ws, en.nodes, Some_, t, f, g, res, done) && c in g && c !in done
    modifies en
    ensures en.Valid() && en.pins == old(en.pins) && Keeps(s0, en.nodes, s0.Keys)
    ensures Mapped(en.ws, en.nodes, Some_, t, f, g, res', done + {c})
    decreases LEAF_FIELD - f, 0
  {
    ghost var s1 := en.nodes;
    EdgesAll(en.ws, en.nodes, f, g);
    EdgesAll(en.ws, en.nodes, f, res);
    AllClosed(en.ws, s1);
    KeepsLess(s0, s1, s0.Keys, s0.Keys);
    var r := Exist(en, c, t);
    KeepsTrans(s0, s1, en.nodes, s0.Keys, s1.Keys);
    MappedKept(en.ws, s1, en.nodes, s1.Keys, Some_, t, f, g, res, done);
    MappedAdd(en.ws, en.nodes, Some_, t, f, g, res, done, c, r);
    res' := AddEdge(res, r, g[c]);
  }

  /** Turn a fully mapped edge map into a node. */
  method Rebuild(en: Engine, ghost q: Quantifier, ghost t: nat, f: nat, ghost g: Edges, res: Edges, ghost a: Id,
                 ghost s0: Store) returns (r: Id)
    requires en.Valid() && !en.collects && 1 <= t <= |en.ws| && f != t && Wf(en.ws, s0) && Keeps(s0, en.nodes, s0.Keys)
    requires a in s0 && s0[a] == Internal(f, g) && Mapped(en.ws, en.nodes, q, t, f, g, res, g.Keys)
    modifies en
    ensures en.Valid() && en.pins == old(en.pins) && Keeps(s0, en.nodes, s0.Keys)
    ensures Quantified(en.ws, en.nodes, q, t, a, r)
  {
    ghost var s1 := en.nodes;
    EdgesAll(en.ws, s1, f, g);
    EdgesAll(en.ws, s1, f, res);
    AllClosed(en.ws, s1);
    KeepsLess(s0, s1, s0.Keys, s0.Keys);
    r := en.Mk(f, res);
    KeepsTrans(s0, s1, en.nodes, s0.Keys, s1.Keys);
    MappedKept(en.ws, s1, en.nodes, s1.Keys, q, t, f, g, res, g.Keys);
    assert KeptAt(s0, en.nodes, a);
    DenotesOwn(en.ws, en.nodes, a);
    MappedQuantified(en.ws, en.nodes, q, t, f, g, res, a, r);
  }
}
