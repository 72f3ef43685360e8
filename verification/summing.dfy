/** Summing out one field of an arithmetic diagram: what it computes, and exactly when it fails. */
module Summing {
  import opened Labels
  import opened Fractions
  import opened Diagram
  import opened EdgeAlgebra
  import opened Operations
  import opened StoreSteps
  import opened Engines
  import opened Quantify

  ghost function AtChild(ws: Widths, s: Store, e: Edges, v: Assignment): Bits -> real {
    x => ValueAt(ws, s, ChildAt(e, x), v)
  }

  /** acc is the sum of the children's values over the labels done so far. */
  ghost predicate SummedAt(ws: Widths, s: Store, e: Edges, done: set<Id>, acc: Id, v: Assignment)
    requires Wf(ws, s) && Fits(ws, v) && acc in s
  {
    Eval(ws, s, acc, v) == SumOver(Covered(e, done), AtChild(ws, s, e, v))
  }

  ghost predicate Summed(ws: Widths, s: Store, f: nat, e: Edges, done: set<Id>, acc: Id) {
    && Wf(ws, s) && acc in s && WfEdges(ws, s, f, e)
    && forall v {:trigger Fits(ws, v)} :: Fits(ws, v) ==> SummedAt(ws, s, e, done, acc, v)
  }

  lemma SummedNothing(ws: Widths, s: Store, f: nat, e: Edges)
    requires Wf(ws, s) && WfEdges(ws, s, f, e)
    ensures Summed(ws, s, f, e, {}, FALSE)
  {
    assert Covered(e, {}) == {};
    forall v | Fits(ws, v) ensures SummedAt(ws, s, e, {}, FALSE, v) {
      SentinelValues(ws, s, v);
      SumNone(AtChild(ws, s, e, v));
    }
  }

  lemma SummedKept(ws: Widths, s: Store, t: Store, f: nat, e: Edges, done: set<Id>, acc: Id)
    requires Summed(ws, s, f, e, done, acc) && Wf(ws, t) && Keeps(s, t, s.Keys)
    ensures Summed(ws, t, f, e, done, acc)
  {
    AllClosed(ws, s);
    EdgesAll(ws, s, f, e);
    WfEdgesKept(ws, s, t, s.Keys, f, e);
    assert KeptAt(s, t, acc);
    forall v | Fits(ws, v) ensures SummedAt(ws, t, e, done, acc, v) {
      assert SummedAt(ws, s, e, done, acc, v);
      EvalKept(ws, s, t, s.Keys, acc, v);
      forall x | x in Covered(e, done) ensures AtChild(ws, s, e, v)(x) == AtChild(ws, t, e, v)(x) {
        ChildOk(ws, s, f, e, x);
        EvalKept(ws, s, t, s.Keys, ChildAt(e, x), v);
      }
      SumSame(Covered(e, done), AtChild(ws, s, e, v), AtChild(ws, t, e, v));
    }
  }

  lemma AtChildLabel(ws: Widths, s: Store, f: nat, e: Edges, c: Id, v: Assignment)
    requires Wf(ws, s) && WfEdges(ws, s, f, e) && c in e && Fits(ws, v)
    ensures c in s && forall x :: x in e[c] ==> AtChild(ws, s, e, v)(x) == Eval(ws, s, c, v)
  {
    assert EdgeOk(ws, s, f, e, c);
    forall x | x in e[c] ensures ChildAt(e, x) == c { ChildAtUnique(e, x, c); }
  }

  lemma SummedAdd(ws: Widths, s: Store, f: nat, e: Edges, done: set<Id>, c: Id, w: Id, weighted: Id, acc: Id, r: Id)
    requires Summed(ws, s, f, e, done, acc) && c in e && c !in done && w in s && s[w] == Leaf(|e[c]| as real)
    requires Computes(ws, s, Times, c, w, weighted) && Computes(ws, s, Plus, acc, weighted, r)
    ensures Summed(ws, s, f, e, done + {c}, r)
  {
    forall v | Fits(ws, v) ensures SummedAt(ws, s, e, done + {c}, r, v) {
      assert ResultAt(ws, s, Plus, acc, weighted, r, v);
      PartialSum(ws, s, f, e, done, c, w, weighted, acc, v);
    }
  }

  /** Summing over all edges sums over all values of the field. */
  lemma SummedAll(ws: Widths, s: Store, a: Id, r: Id)
    requires Wf(ws, s) && a in s && s[a].Internal? && Summed(ws, s, s[a].field, s[a].edges, s[a].edges.Keys, r)
    requires Level(s, r) >= Level(s, a)
    ensures Quantified(ws, s, Sum, s[a].field, a, r)
  {
    var t, e := s[a].field, s[a].edges;
    NodeChildren(ws, s, a);
    forall v | Fits(ws, v) ensures Eval(ws, s, r, v) == QuantAt(ws, s, Sum, t, a, v) {
      assert SummedAt(ws, s, e, e.Keys, r, v);
      SumOutside(ws, s, t, e, v);
      forall x | x in FieldUniv(ws, t) ensures Along(ws, s, a, v, t)(x) == AtChild(ws, s, e, v)(x) {
        AlongTop(ws, s, a, v, x);
      }
      SumSame(FieldUniv(ws, t), Along(ws, s, a, v, t), AtChild(ws, s, e, v));
    }
  }

  lemma SumOutside(ws: Widths, s: Store, f: nat, e: Edges, v: Assignment)
    requires Wf(ws, s) && WfEdges(ws, s, f, e) && Fits(ws, v)
    ensures SumOver(FieldUniv(ws, f), AtChild(ws, s, e, v)) == SumOver(Covered(e, e.Keys), AtChild(ws, s, e, v))
  {
    EdgesAll(ws, s, f, e);
    ZeroOutside(ws, s, f, e, v);
    SumRest(FieldUniv(ws, f), Covered(e, e.Keys), AtChild(ws, s, e, v));
  }

  lemma ZeroOutside(ws: Widths, s: Store, f: nat, e: Edges, v: Assignment)
    requires Wf(ws, s) && WfEdges(ws, s, f, e) && Fits(ws, v)
    ensures forall x :: x in FieldUniv(ws, f) - Covered(e, e.Keys) ==> AtChild(ws, s, e, v)(x) == 0.0
  {
    SentinelValues(ws, s, v);
    forall x | x in FieldUniv(ws, f) - Covered(e, e.Keys) ensures ChildAt(e, x) == FALSE {}
  }

  lemma AlongConst(ws: Widths, s: Store, t: nat, a: Id, v: Assignment)
    requires Wf(ws, s) && a in s && 1 <= t <= |ws| && t < Level(s, a) && Fits(ws, v)
    ensures forall x :: x in FieldUniv(ws, t) ==> Along(ws, s, a, v, t)(x) == Eval(ws, s, a, v)
  {
    forall x | x in FieldUniv(ws, t) ensures Along(ws, s, a, v, t)(x) == Eval(ws, s, a, v) {
      AlongBelow(ws, s, a, v, t, x);
    }
  }

  /** The sum along a field that a does not look at. */
  lemma SumBelow(ws: Widths, s: Store, t: nat, a: Id, v: Assignment)
    requires Wf(ws, s) && a in s && 1 <= t <= |ws| && t < Level(s, a) && Fits(ws, v)
    ensures QuantAt(ws, s, Sum, t, a, v) == Repeated(|FieldUniv(ws, t)|, Eval(ws, s, a, v))
  {
    AlongConst(ws, s, t, a, v);
    SumConst(FieldUniv(ws, t), Along(ws, s, a, v, t), Eval(ws, s, a, v));
  }

  /** A diagram that skips the field contributes once per value. */
  lemma ScaledBelow(ws: Widths, s: Store, t: nat, a: Id, w: Id, r: Id)
    requires Computes(ws, s, Times, a, w, r) && 1 <= t <= |ws| && t < Level(s, a)
    requires s[w] == Leaf(|FieldUniv(ws, t)| as real)
    ensures Quantified(ws, s, Sum, t, a, r)
  {
    LevelBound(ws, s, a);
    forall v | Fits(ws, v) ensures Eval(ws, s, r, v) == QuantAt(ws, s, Sum, t, a, v) {
      SumBelow(ws, s, t, a, v);
      WeightedIs(ws, s, a, w, r, |FieldUniv(ws, t)|, v);
    }
  }

  lemma {:induction false} Pow2Mono(m: nat, n: nat)
    requires m <= n
    ensures Pow2(m) <= Pow2(n)
    decreases n
  {
    if m < n { Pow2Mono(m, n - 1); }
  }

  lemma Pow2Jump(n: nat)
    ensures Pow2(n + 10) == 0x400 * Pow2(n)
  {
    assert Pow2(n + 2) == 4 * Pow2(n) && Pow2(n + 4) == 4 * Pow2(n + 2) && Pow2(n + 6) == 4 * Pow2(n + 4);
    assert Pow2(n + 8) == 4 * Pow2(n + 6);
  }

  lemma FactorFits(bits: nat)
    requires bits <= 30
    ensures 0 < Pow2(bits) <= INT32_MAX
  {
    FactorFitsUpTo(bits, 30);
  }

  lemma FactorFitsUpTo(bits: nat, n: nat)
    requires bits <= n == 30
    ensures 0 < Pow2(bits) <= INT32_MAX
  {
    Pow2Mono(bits, n);
    Pow2Jump(n - 10);
    Pow2Jump(n - 20);
    Pow2Jump(n - 30);
  }

  lemma WholeFraction(n: nat)
    requires 0 < n <= INT32_MAX
    ensures Canonical(Frac(n, 1)) && Value(Frac(n, 1)) == n as real
  {}

  /** A leaf holding a count of field values. */
  method Weight(en: Engine, n: nat) returns (w: Id)
    requires en.Valid() && !en.boolean && 0 < n <= INT32_MAX
    modifies en
    ensures en.Valid() && en.pins == old(en.pins) && Keeps(old(en.nodes), en.nodes, old(en.nodes).Keys)
    ensures w in en.nodes && en.nodes[w] == Leaf(n as real)
  {
    WholeFraction(n);
    w := en.MkLeaf(Frac(n, 1));
  }

  // ---------------------------------------------------------------- when it fails

  /** The listing names each child once. */
  ghost predicate Lists(e: Edges, list: seq<Id>) {
    && (forall c :: c in list <==> c in e)
    && (forall i, j :: 0 <= i < j < |list| ==> list[i] != list[j])
  }

  /** An order in which buckets list the edges of nodes. */
  ghost predicate ListsAll(order: Edges -> seq<Id>) {
    forall e: Edges {:trigger order(e)} :: Lists(e, order(e))
  }

  function First(list: seq<Id>, k: nat): set<Id>
    requires k <= |list|
  {
    set i | 0 <= i < k :: list[i]
  }

  /** At v, the weighted child or the sum with it cannot be represented. */
  ghost predicate StepFailsAt(ws: Widths, s: Store, e: Edges, done: set<Id>, c: Id, v: Assignment)
    requires c in e
  {
    || !Representable(Repeated(|e[c]|, ValueAt(ws, s, c, v)))
    || !Representable(SumOver(Covered(e, done + {c}), AtChild(ws, s, e, v)))
  }

  ghost predicate ValueFails(ws: Widths, s: Store, e: Edges, done: set<Id>, c: Id)
    requires c in e
  {
    exists v {:trigger Fits(ws, v)} :: Fits(ws, v) && StepFailsAt(ws, s, e, done, c, v)
  }

  /** Adding the edge to c to the sum over the edges done fails. */
  ghost predicate StepFails(ws: Widths, s: Store, e: Edges, done: set<Id>, c: Id)
    requires c in e
  {
    |e[c]| > INT32_MAX || ValueFails(ws, s, e, done, c)
  }

  /** Adding up the edges in this order fails somewhere. */
  ghost predicate NodeFails(ws: Widths, s: Store, e: Edges, list: seq<Id>) {
    exists k {:trigger First(list, k)} ::
      0 <= k < |list| && list[k] in e && StepFails(ws, s, e, First(list, k), list[k])
  }

  ghost predicate ScaleFails(ws: Widths, s: Store, t: nat, a: Id)
    requires 1 <= t <= |ws|
  {
    || ws[t - 1] > 30
    || exists v {:trigger Fits(ws, v)} ::
         Fits(ws, v) && !Representable(Repeated(|FieldUniv(ws, t)|, ValueAt(ws, s, a, v)))
  }

  /** Summing out field t fails: at a node that skips the field the scaled value does, at a node
      of the field a partial sum in bucket order does, and above it some child does. */
  ghost predicate SumFails(ws: Widths, s: Store, order: Edges -> seq<Id>, t: nat, a: Id)
    requires Wf(ws, s) && a in s && 1 <= t <= |ws|
    decreases LEAF_FIELD - Level(s, a)
  {
    if s[a].Leaf? || s[a].field > t then ScaleFails(ws, s, t, a)
    else if s[a].field == t then NodeFails(ws, s, s[a].edges, order(s[a].edges))
    else exists c :: c in s[a].edges && ChildFails(ws, s, order, t, a, c)
  }

  ghost predicate ChildFails(ws: Widths, s: Store, order: Edges -> seq<Id>, t: nat, a: Id, c: Id)
    requires Wf(ws, s) && a in s && 1 <= t <= |ws| && s[a].Internal? && c in s[a].edges
    decreases LEAF_FIELD - Level(s, a), 0
  {
    NodeChildren(ws, s, a);
    LevelBound(ws, s, c);
    SumFails(ws, s, order, t, c)
  }

  lemma StepKept(ws: Widths, s: Store, z: Store, f: nat, e: Edges, done: set<Id>, c: Id)
    requires Wf(ws, s) && Wf(ws, z) && Keeps(s, z, s.Keys) && WfEdges(ws, s, f, e) && c in e
    ensures StepFails(ws, z, e, done, c) <==> StepFails(ws, s, e, done, c)
  {
    AllClosed(ws, s);
    EdgesAll(ws, s, f, e);
    forall v | Fits(ws, v) ensures StepFailsAt(ws, z, e, done, c, v) <==> StepFailsAt(ws, s, e, done, c, v) {
      EvalKept(ws, s, z, s.Keys, c, v);
      forall x | x in Covered(e, done + {c}) ensures AtChild(ws, s, e, v)(x) == AtChild(ws, z, e, v)(x) {
        ChildOk(ws, s, f, e, x);
        EvalKept(ws, s, z, s.Keys, ChildAt(e, x), v);
      }
      SumSame(Covered(e, done + {c}), AtChild(ws, s, e, v), AtChild(ws, z, e, v));
    }
  }

  lemma ScaleKept(ws: Widths, s: Store, z: Store, t: nat, a: Id)
    requires Wf(ws, s) && Wf(ws, z) && Keeps(s, z, s.Keys) && a in s && 1 <= t <= |ws|
    ensures ScaleFails(ws, z, t, a) <==> ScaleFails(ws, s, t, a)
  {
    AllClosed(ws, s);
    forall v | Fits(ws, v) ensures ValueAt(ws, z, a, v) == ValueAt(ws, s, a, v) { EvalKept(ws, s, z, s.Keys, a, v); }
  }

  /** Whether it fails depends on the diagram alone, not on what else has been stored. */
  lemma {:induction false} SumFailsKept(ws: Widths, s: Store, z: Store, order: Edges -> seq<Id>, t: nat, a: Id)
    requires Wf(ws, s) && Wf(ws, z) && Keeps(s, z, s.Keys) && a in s && 1 <= t <= |ws|
    ensures a in z && (SumFails(ws, z, order, t, a) <==> SumFails(ws, s, order, t, a))
    decreases LEAF_FIELD - Level(s, a)
  {
    assert KeptAt(s, z, a);
    if s[a].Leaf? || s[a].field > t {
      ScaleKept(ws, s, z, t, a);
    } else {
      NodeChildren(ws, s, a);
      var f, e := s[a].field, s[a].edges;
      if f == t {
        var list := order(e);
        forall k | 0 <= k < |list| && list[k] in e
          ensures StepFails(ws, z, e, First(list, k), list[k]) <==> StepFails(ws, s, e, First(list, k), list[k])
        {
          StepKept(ws, s, z, f, e, First(list, k), list[k]);
        }
      } else {
        forall c | c in e ensures ChildFails(ws, z, order, t, a, c) <==> ChildFails(ws, s, order, t, a, c) {
          LevelBound(ws, s, c);
          SumFailsKept(ws, s, z, order, t, c);
        }
      }
    }
  }

  // ---------------------------------------------------------------- failure without an order

  /** The sum of a's values over some of the values of field t, the other fields as in v, cannot
      be represented. */
  ghost predicate OverflowAt(ws: Widths, s: Store, t: nat, a: Id, v: Assignment, z: Label) {
    1 <= t <= |ws| && Fits(ws, v) && z <= FieldUniv(ws, t) && !Representable(SumOver(z, Along(ws, s, a, v, t)))
  }

  ghost predicate Overflows(ws: Widths, s: Store, t: nat, a: Id) {
    Wf(ws, s) && a in s && exists v, z :: OverflowAt(ws, s, t, a, v, z)
  }

  /** An overflow below an edge is one of the node. */
  lemma OverflowsUp(ws: Widths, s: Store, t: nat, a: Id, c: Id)
    requires Wf(ws, s) && a in s && s[a].Internal? && c in s[a].edges && s[a].field != t && Overflows(ws, s, t, c)
    ensures Overflows(ws, s, t, a)
  {
    var f, e := s[a].field, s[a].edges;
    NodeChildren(ws, s, a);
    assert EdgeOk(ws, s, f, e, c);
    var v, k :| OverflowAt(ws, s, t, c, v, k);
    var x :| x in e[c];
    PutFits(ws, v, f, x);
    var w := Put(v, f, x);
    forall y | y in k ensures Along(ws, s, a, w, t)(y) == Along(ws, s, c, v, t)(y) { AlongUp(ws, s, t, a, c, x, v, y); }
    SumSame(k, Along(ws, s, a, w, t), Along(ws, s, c, v, t));
    assert OverflowAt(ws, s, t, a, w, k);
  }

  /** Under a label of c, the node and c have the same values along another field. */
  lemma AlongUp(ws: Widths, s: Store, t: nat, a: Id, c: Id, x: Bits, v: Assignment, y: Bits)
    requires Wf(ws, s) && a in s && s[a].Internal? && c in s[a].edges && x in s[a].edges[c] && Fits(ws, v)
    requires 1 <= t <= |ws| && s[a].field != t && y in FieldUniv(ws, t)
    ensures 1 <= s[a].field <= |ws| && Along(ws, s, a, Put(v, s[a].field, x), t)(y) == Along(ws, s, c, v, t)(y)
  {
    var f, e := s[a].field, s[a].edges;
    NodeChildren(ws, s, a);
    assert EdgeOk(ws, s, f, e, c);
    ChildAtUnique(e, x, c);
    PutFits(ws, v, t, y);
    assert Put(Put(v, f, x), t, y) == Put(Put(v, t, y), f, x);
    EvalAtChild(ws, s, a, x, Put(v, t, y));
  }

  /** At a node of the field, the values along the field are those of its children. */
  lemma AlongChildren(ws: Widths, s: Store, a: Id, v: Assignment, z: Label)
    requires Wf(ws, s) && a in s && s[a].Internal? && Fits(ws, v) && 1 <= s[a].field <= |ws|
    requires z <= FieldUniv(ws, s[a].field)
    ensures SumOver(z, Along(ws, s, a, v, s[a].field)) == SumOver(z, AtChild(ws, s, s[a].edges, v))
  {
    forall x | x in z ensures Along(ws, s, a, v, s[a].field)(x) == AtChild(ws, s, s[a].edges, v)(x) {
      AlongTop(ws, s, a, v, x);
    }
    SumSame(z, Along(ws, s, a, v, s[a].field), AtChild(ws, s, s[a].edges, v));
  }

  lemma PartOverflows(ws: Widths, s: Store, a: Id, z: Label, v: Assignment)
    requires Wf(ws, s) && a in s && s[a].Internal? && Fits(ws, v) && 1 <= s[a].field <= |ws|
    requires z <= FieldUniv(ws, s[a].field) && !Representable(SumOver(z, AtChild(ws, s, s[a].edges, v)))
    ensures Overflows(ws, s, s[a].field, a)
  {
    AlongChildren(ws, s, a, v, z);
    assert OverflowAt(ws, s, s[a].field, a, v, z);
  }

  lemma StepOverflows(ws: Widths, s: Store, a: Id, done: set<Id>, c: Id)
    requires Wf(ws, s) && a in s && s[a].Internal? && c in s[a].edges && ValueFails(ws, s, s[a].edges, done, c)
    ensures Overflows(ws, s, s[a].field, a)
  {
    var f, e := s[a].field, s[a].edges;
    NodeChildren(ws, s, a);
    EdgesAll(ws, s, f, e);
    var v :| Fits(ws, v) && StepFailsAt(ws, s, e, done, c, v);
    if !Representable(Repeated(|e[c]|, ValueAt(ws, s, c, v))) {
      AtChildLabel(ws, s, f, e, c, v);
      SumConst(e[c], AtChild(ws, s, e, v), Eval(ws, s, c, v));
      PartOverflows(ws, s, a, e[c], v);
    } else {
      PartOverflows(ws, s, a, Covered(e, done + {c}), v);
    }
  }

  lemma ScaleOverflows(ws: Widths, s: Store, t: nat, a: Id)
    requires Wf(ws, s) && a in s && 1 <= t <= |ws| && t < Level(s, a) && ws[t - 1] <= 30 && ScaleFails(ws, s, t, a)
    ensures Overflows(ws, s, t, a)
  {
    var v :| Fits(ws, v) && !Representable(Repeated(|FieldUniv(ws, t)|, ValueAt(ws, s, a, v)));
    SumBelow(ws, s, t, a, v);
    assert OverflowAt(ws, s, t, a, v, FieldUniv(ws, t));
  }

  /** Whatever the order, it fails only if some sum over values of the field overflows. */
  lemma {:induction false} FailsOverflows(ws: Widths, s: Store, order: Edges -> seq<Id>, t: nat, a: Id)
    requires Wf(ws, s) && a in s && 1 <= t <= |ws| && ws[t - 1] <= 30 && SumFails(ws, s, order, t, a)
    ensures Overflows(ws, s, t, a)
    decreases LEAF_FIELD - Level(s, a)
  {
    LevelBound(ws, s, a);
    if s[a].Leaf? || s[a].field > t {
      ScaleOverflows(ws, s, t, a);
    } else {
      NodeChildren(ws, s, a);
      var f, e := s[a].field, s[a].edges;
      if f == t {
        var list := order(e);
        var k :| 0 <= k < |list| && list[k] in e && StepFails(ws, s, e, First(list, k), list[k]);
        EdgesAll(ws, s, f, e);
        LabelFits(ws, t, e[list[k]]);
        StepOverflows(ws, s, a, First(list, k), list[k]);
      } else {
        var c :| c in e && ChildFails(ws, s, order, t, a, c);
        LevelBound(ws, s, c);
        FailsOverflows(ws, s, order, t, c);
        OverflowsUp(ws, s, t, a, c);
      }
    }
  }

  lemma PartialSum(ws: Widths, s: Store, f: nat, e: Edges, done: set<Id>, c: Id, w: Id, weighted: Id, acc: Id,
                   v: Assignment)
    requires Summed(ws, s, f, e, done, acc) && c in e && c !in done && w in s && s[w] == Leaf(|e[c]| as real)
    requires Computes(ws, s, Times, c, w, weighted) && Fits(ws, v)
    ensures Eval(ws, s, acc, v) + Eval(ws, s, weighted, v) == SumOver(Covered(e, done + {c}), AtChild(ws, s, e, v))
  {
    assert SummedAt(ws, s, e, done, acc, v);
    WeightedIs(ws, s, c, w, weighted, |e[c]|, v);
    AtChildLabel(ws, s, f, e, c, v);
    SumLabel(e, done, c, AtChild(ws, s, e, v), Eval(ws, s, c, v));
  }

  lemma WeightedIs(ws: Widths, s: Store, c: Id, w: Id, weighted: Id, n: nat, v: Assignment)
    requires Computes(ws, s, Times, c, w, weighted) && s[w] == Leaf(n as real) && Fits(ws, v)
    ensures Eval(ws, s, weighted, v) == Repeated(n, Eval(ws, s, c, v))
  {
    assert ResultAt(ws, s, Times, c, w, weighted, v);
    IsRepeated(n, Eval(ws, s, c, v), Eval(ws, s, w, v), Eval(ws, s, weighted, v));
  }

  lemma IsRepeated(n: nat, x: real, y: real, z: real)
    requires y == n as real && Agrees(Times, x, y, z)
    ensures z == Repeated(n, x)
  {
    RepeatedIs(n, x);
  }

  lemma DefinedRepeated(n: nat, x: real, y: real)
    requires y == n as real
    ensures DefinedAt(Times, x, y) <==> Representable(Repeated(n, x))
  {
    RepeatedIs(n, x);
    DefinedProduct(x, y, Repeated(n, x));
  }

  lemma DefinedProduct(x: real, y: real, z: real)
    requires z == x * y
    ensures DefinedAt(Times, x, y) <==> Representable(z)
  {}

  /** A label over at most 30 bits has a size that fits. */
  lemma LabelFits(ws: Widths, t: nat, l: Label)
    requires 1 <= t <= |ws| && ws[t - 1] <= 30 && l <= FieldUniv(ws, t)
    ensures |l| <= INT32_MAX
  {
    UnivSize(ws[t - 1]);
    FactorFits(ws[t - 1]);
    assert FieldUniv(ws, t) == l + (FieldUniv(ws, t) - l);
  }

  /** Sum out field t. It fails exactly when the diagram fails in this order. */
  method AbstractPlus(en: Engine, a: Id, t: nat) returns (r: Outcome)
    requires en.Valid() && !en.boolean && ListsAll(en.order) && a in en.nodes && 1 <= t <= |en.ws|
    modifies en
    ensures en.Valid() && en.pins == old(en.pins) && Keeps(old(en.nodes), en.nodes, old(en.nodes).Keys)
    ensures r.Got? ==> Quantified(en.ws, en.nodes, Sum, t, a, r.id)
    ensures r.Failed? <==> SumFails(en.ws, old(en.nodes), en.order, t, a)
    decreases Depth(en.nodes, a), 2
  {
    LevelBound(en.ws, en.nodes, a);
    if en.nodes[a].Leaf? || en.nodes[a].field > t {
      r := ScaleByField(en, a, t);
    } else if en.nodes[a].field == t {
      r := SumChildren(en, a);
    } else {
      r := SumInside(en, a, t);
    }
  }

  /** The field is skipped here: every value of it contributes the same. */
  method ScaleByField(en: Engine, a: Id, t: nat) returns (r: Outcome)
    requires en.Valid() && !en.boolean && a in en.nodes && 1 <= t <= |en.ws| && t < Level(en.nodes, a)
    modifies en
    ensures en.Valid() && en.pins == old(en.pins) && Keeps(old(en.nodes), en.nodes, old(en.nodes).Keys)
    ensures r.Got? ==> Quantified(en.ws, en.nodes, Sum, t, a, r.id)
    ensures r.Failed? <==> ScaleFails(en.ws, old(en.nodes), t, a)
  {
    ghost var s0 := en.nodes;
    if en.ws[t - 1] > 30 {
      r := Failed;
    } else {
      FactorFits(en.ws[t - 1]);
      UnivSize(en.ws[t - 1]);
      var w := Weight(en, Pow2(en.ws[t - 1]));
      ghost var s1 := en.nodes;
      assert KeptAt(s0, s1, a);
      r := en.Apply(Times, a, w);
      assert KeptAt(s1, en.nodes, a) && KeptAt(s1, en.nodes, w);
      KeepsLess(s0, s1, s0.Keys, s0.Keys);
      KeepsTrans(s0, s1, en.nodes, s0.Keys, s1.Keys);
      ScaleDefined(en.ws, en.nodes, t, a, w);
      ScaleKept(en.ws, s0, en.nodes, t, a);
      if r.Got? {
        NotBoth(en.ws, en.nodes, Times, a, w, r.id);
        ScaledBelow(en.ws, en.nodes, t, a, w, r.id);
      }
    }
  }

  lemma ScaleDefined(ws: Widths, s: Store, t: nat, a: Id, w: Id)
    requires Wf(ws, s) && a in s && w in s && 1 <= t <= |ws| && ws[t - 1] <= 30
    requires s[w] == Leaf(|FieldUniv(ws, t)| as real)
    ensures Undefined(ws, s, Times, a, w) <==> ScaleFails(ws, s, t, a)
  {
    forall v | Fits(ws, v)
      ensures DefinedAt(Times, Eval(ws, s, a, v), Eval(ws, s, w, v)) <==>
              Representable(Repeated(|FieldUniv(ws, t)|, ValueAt(ws, s, a, v)))
    {
      DefinedRepeated(|FieldUniv(ws, t)|, Eval(ws, s, a, v), Eval(ws, s, w, v));
    }
  }

  /** The field is here: add up the children, each weighted by the size of its label. */
  method SumChildren(en: Engine, a: Id) returns (r: Outcome)
    requires en.Valid() && !en.boolean && ListsAll(en.order) && a in en.nodes && en.nodes[a].Internal?
    modifies en
    ensures en.Valid() && en.pins == old(en.pins) && Keeps(old(en.nodes), en.nodes, old(en.nodes).Keys)
    ensures 1 <= old(en.nodes[a].field) <= |en.ws|
    ensures r.Got? ==> Quantified(en.ws, en.nodes, Sum, old(en.nodes[a].field), a, r.id)
    ensures r.Failed? <==> NodeFails(en.ws, old(en.nodes), old(en.nodes[a].edges), en.order(old(en.nodes[a].edges)))
  {
    ghost var s0 := en.nodes;
    var e, t := en.nodes[a].edges, en.nodes[a].field;
    NodeChildren(en.ws, en.nodes, a);
    LevelBound(en.ws, en.nodes, a);
    assert Lists(e, en.order(e));
    r := SumAll(en, t, e, en.order(e));
    if r.Got? {
      assert KeptAt(s0, en.nodes, a);
      SummedAll(en.ws, en.nodes, a, r.id);
    }
  }

  /** Some edge from the k-th on fails. */
  ghost predicate FailsFrom(ws: Widths, s: Store, e: Edges, list: seq<Id>, k: nat)
    requires k <= |list| && Lists(e, list)
    decreases |list| - k
  {
    k < |list| && (StepFails(ws, s, e, First(list, k), list[k]) || FailsFrom(ws, s, e, list, k + 1))
  }

  lemma {:induction false} FailsFromIs(ws: Widths, s: Store, e: Edges, list: seq<Id>, k: nat)
    requires k <= |list| && Lists(e, list)
    ensures FailsFrom(ws, s, e, list, k) <==>
            exists j {:trigger First(list, j)} :: k <= j < |list| && StepFails(ws, s, e, First(list, j), list[j])
    decreases |list| - k
  {
    if k < |list| { FailsFromIs(ws, s, e, list, k + 1); }
  }

  lemma FailsFromStart(ws: Widths, s: Store, e: Edges, list: seq<Id>)
    requires Lists(e, list)
    ensures FailsFrom(ws, s, e, list, 0) <==> NodeFails(ws, s, e, list)
    ensures First(list, |list|) == e.Keys
  {
    FailsFromIs(ws, s, e, list, 0);
  }

  /** The edges in bucket order, until one cannot be added. */
  method SumAll(en: Engine, t: nat, e: Edges, list: seq<Id>) returns (r: Outcome)
    requires en.Valid() && !en.boolean && WfEdges(en.ws, en.nodes, t, e) && t < LEAF_FIELD && Lists(e, list)
    modifies en
    ensures en.Valid() && en.pins == old(en.pins) && Keeps(old(en.nodes), en.nodes, old(en.nodes).Keys)
    ensures r.Got? ==> Summed(en.ws, en.nodes, t, e, e.Keys, r.id) && Level(en.nodes, r.id) >= t
    ensures r.Failed? <==> NodeFails(en.ws, old(en.nodes), e, list)
  {
    FailsFromStart(en.ws, en.nodes, e, list);
    r := SumList(en, t, e, list, en.nodes);
  }

  method SumList(en: Engine, t: nat, e: Edges, list: seq<Id>, ghost s0: Store) returns (r: Outcome)
    requires en.Valid() && !en.boolean && s0 == en.nodes && WfEdges(en.ws, s0, t, e) && t < LEAF_FIELD && Lists(e, list)
    modifies en
    ensures en.Valid() && en.pins == old(en.pins) && Keeps(s0, en.nodes, s0.Keys)
    ensures r.Got? ==> Summed(en.ws, en.nodes, t, e, First(list, |list|), r.id) && Level(en.nodes, r.id) >= t
    ensures r.Failed? <==> FailsFrom(en.ws, s0, e, list, 0)
  {
    SummedNothing(en.ws, en.nodes, t, e);
    r := Got(FALSE);
    var k := 0;
    assert First(list, 0) == {};
    while k < |list| && r.Got?
      invariant en.Valid() && en.pins == old(en.pins) && Keeps(s0, en.nodes, s0.Keys) && 0 <= k <= |list|
      invariant r.Got? ==> Summed(en.ws, en.nodes, t, e, First(list, k), r.id) && Level(en.nodes, r.id) >= t
      invariant r.Got? ==> (FailsFrom(en.ws, s0, e, list, 0) <==> FailsFrom(en.ws, s0, e, list, k))
      invariant r.Failed? ==> FailsFrom(en.ws, s0, e, list, 0)
      decreases |list| - k
    {
      FirstNext(list, k);
      r := AddWeighted(en, t, e, First(list, k), list[k], r.id, s0);
      k := k + 1;
    }
  }

  lemma FirstNext(list: seq<Id>, k: nat)
    requires k < |list| && forall i, j :: 0 <= i < j < |list| ==> list[i] != list[j]
    ensures First(list, k + 1) == First(list, k) + {list[k]} && list[k] !in First(list, k)
  {}

  method AddWeighted(en: Engine, ghost t: nat, e: Edges, ghost done: set<Id>, c: Id, acc: Id, ghost s0: Store)
    returns (r: Outcome)
    requires en.Valid() && !en.boolean && Keeps(s0, en.nodes, s0.Keys) && c in e && c !in done
    requires Wf(en.ws, s0) && WfEdges(en.ws, s0, t, e) && t < LEAF_FIELD
    requires Summed(en.ws, en.nodes, t, e, done, acc) && Level(en.nodes, acc) >= t
    modifies en
    ensures en.Valid() && en.pins == old(en.pins) && Keeps(s0, en.nodes, s0.Keys)
    ensures r.Got? ==> Summed(en.ws, en.nodes, t, e, done + {c}, r.id) && Level(en.nodes, r.id) >= t
    ensures r.Failed? <==> StepFails(en.ws, s0, e, done, c)
  {
    var count := |e[c]|;
    if count > INT32_MAX {
      r := Failed;
    } else {
      ghost var s1 := en.nodes;
      EdgesAll(en.ws, en.nodes, t, e);
      var w := Weight(en, count);
      ghost var s2 := en.nodes;
      KeepsLess(s1, s2, s1.Keys, s1.Keys);
      SummedKept(en.ws, s1, s2, t, e, done, acc);
      KeepsLess(s0, s1, s0.Keys, s0.Keys);
      KeepsTrans(s0, s1, s2, s0.Keys, s1.Keys);
      assert KeptAt(s1, s2, c) && KeptAt(s1, s2, acc);
      r := TimesPlus(en, t, e, done, c, w, acc, s0);
      StepKept(en.ws, s0, en.nodes, t, e, done, c);
    }
  }

  method TimesPlus(en: Engine, ghost t: nat, ghost e: Edges, ghost done: set<Id>, c: Id, w: Id, acc: Id,
                   ghost s0: Store)
    returns (r: Outcome)
    requires en.Valid() && !en.boolean && Keeps(s0, en.nodes, s0.Keys) && c in e && c !in done && t < LEAF_FIELD
    requires w in en.nodes && en.nodes[w] == Leaf(|e[c]| as real) && c in en.nodes && Level(en.nodes, c) >= t
    requires Summed(en.ws, en.nodes, t, e, done, acc) && Level(en.nodes, acc) >= t
    modifies en
    ensures en.Valid() && en.pins == old(en.pins) && Keeps(s0, en.nodes, s0.Keys)
    ensures r.Got? ==> Summed(en.ws, en.nodes, t, e, done + {c}, r.id) && Level(en.nodes, r.id) >= t
    ensures r.Failed? <==> ValueFails(en.ws, en.nodes, e, done, c)
  {
    ghost var s1 := en.nodes;
    KeepsLess(s0, s1, s0.Keys, s0.Keys);
    r := en.Apply(Times, c, w);
    KeepsTrans(s0, s1, en.nodes, s0.Keys, s1.Keys);
    assert KeptAt(s1, en.nodes, c) && KeptAt(s1, en.nodes, w) && KeptAt(s1, en.nodes, acc);
    if r.Got? {
      SummedKept(en.ws, s1, en.nodes, t, e, done, acc);
      r := AddLast(en, t, e, done, c, w, r.id, acc, s0);
    } else {
      TimesFails(en.ws, en.nodes, e, done, c, w);
    }
  }

  lemma TimesFails(ws: Widths, s: Store, e: Edges, done: set<Id>, c: Id, w: Id)
    requires Undefined(ws, s, Times, c, w) && c in e && s[w] == Leaf(|e[c]| as real)
    ensures ValueFails(ws, s, e, done, c)
  {
    var v :| Fits(ws, v) && !DefinedAt(Times, Eval(ws, s, c, v), Eval(ws, s, w, v));
    DefinedRepeated(|e[c]|, Eval(ws, s, c, v), Eval(ws, s, w, v));
    assert StepFailsAt(ws, s, e, done, c, v);
  }

  /** Once the weighted child is there, the step fails exactly if adding it does. */
  lemma PlusFails(ws: Widths, s: Store, f: nat, e: Edges, done: set<Id>, c: Id, w: Id, weighted: Id, acc: Id)
    requires Summed(ws, s, f, e, done, acc) && c in e && c !in done && w in s && s[w] == Leaf(|e[c]| as real)
    requires Computes(ws, s, Times, c, w, weighted)
    ensures ValueFails(ws, s, e, done, c) <==> Undefined(ws, s, Plus, acc, weighted)
  {
    forall v | Fits(ws, v)
      ensures StepFailsAt(ws, s, e, done, c, v) <==> !DefinedAt(Plus, Eval(ws, s, acc, v), Eval(ws, s, weighted, v))
    {
      PartialSum(ws, s, f, e, done, c, w, weighted, acc, v);
      assert ResultAt(ws, s, Times, c, w, weighted, v);
      DefinedRepeated(|e[c]|, Eval(ws, s, c, v), Eval(ws, s, w, v));
    }
  }

  method AddLast(en: Engine, ghost t: nat, ghost e: Edges, ghost done: set<Id>, ghost c: Id, ghost w: Id,
                 weighted: Id, acc: Id, ghost s0: Store)
    returns (r: Outcome)
    requires en.Valid() && !en.boolean && Keeps(s0, en.nodes, s0.Keys) && c in e && c !in done && t < LEAF_FIELD
    requires w in en.nodes && en.nodes[w] == Leaf(|e[c]| as real) && Computes(en.ws, en.nodes, Times, c, w, weighted)
    requires Summed(en.ws, en.nodes, t, e, done, acc) && Level(en.nodes, acc) >= t && Level(en.nodes, weighted) >= t
    modifies en
    ensures en.Valid() && en.pins == old(en.pins) && Keeps(s0, en.nodes, s0.Keys)
    ensures r.Got? ==> Summed(en.ws, en.nodes, t, e, done + {c}, r.id) && Level(en.nodes, r.id) >= t
    ensures r.Failed? <==> ValueFails(en.ws, en.nodes, e, done, c)
  {
    ghost var s1 := en.nodes;
    KeepsLess(s0, s1, s0.Keys, s0.Keys);
    AllClosed(en.ws, s1);
    r := en.Apply(Plus, acc, weighted);
    KeepsTrans(s0, s1, en.nodes, s0.Keys, s1.Keys);
    assert KeptAt(s1, en.nodes, c) && KeptAt(s1, en.nodes, w) && KeptAt(s1, en.nodes, acc) &&
        KeptAt(s1, en.nodes, weighted);
    SummedKept(en.ws, s1, en.nodes, t, e, done, acc);
    ComputesKept(en.ws, s1, en.nodes, s1.Keys, Times, c, w, weighted);
    PlusFails(en.ws, en.nodes, t, e, done, c, w, weighted, acc);
    if r.Got? {
      NotBoth(en.ws, en.nodes, Plus, acc, weighted, r.id);
      SummedAdd(en.ws, en.nodes, t, e, done, c, w, weighted, acc, r.id);
    }
  }

  /** The field is deeper: keep this node's field and sum out in its children. */
  method SumInside(en: Engine, a: Id, t: nat) returns (r: Outcome)
    requires en.Valid() && !en.boolean && ListsAll(en.order) && a in en.nodes && 1 <= t <= |en.ws|
    requires en.nodes[a].Internal? && en.nodes[a].field < t
    modifies en
    ensures en.Valid() && en.pins == old(en.pins) && Keeps(old(en.nodes), en.nodes, old(en.nodes).Keys)
    ensures r.Got? ==> Quantified(en.ws, en.nodes, Sum, t, a, r.id)
    ensures r.Failed? <==> SumFails(en.ws, old(en.nodes), en.order, t, a)
    decreases Depth(en.nodes, a), 1
  {
    ghost var s0 := en.nodes;
    var f, g := en.nodes[a].field, en.nodes[a].edges;
    NodeChildren(en.ws, en.nodes, a);
    LevelBound(en.ws, en.nodes, a);
    MappedNothing(en.ws, en.nodes, Sum, t, f, g);
    var ok, res: Edges, todo := true, map[], g.Keys;
    assert g.Keys - todo == {};
    while todo != {} && ok
      invariant en.Valid() && en.pins == old(en.pins) && Keeps(s0, en.nodes, s0.Keys) && todo <= g.Keys
      invariant WfEdges(en.ws, en.nodes, f, g)
      invariant ok ==> Mapped(en.ws, en.nodes, Sum, t, f, g, res, g.Keys - todo)
      invariant ok ==> forall c :: c in g && c !in todo ==> !ChildFails(en.ws, s0, en.order, t, a, c)
      invariant !ok ==> SumFails(en.ws, s0, en.order, t, a)
      decreases |todo|
    {
      var c :| c in todo;
      assert g.Keys - todo + {c} == g.Keys - (todo - {c});
      ok, res := SumChild(en, t, f, g, res, g.Keys - todo, c, a, s0);
      todo := todo - {c};
    }
    if ok {
      assert g.Keys - todo == g.Keys;
      var id := Rebuild(en, Sum, t, f, g, res, a, s0);
      r := Got(id);
    } else {
      r := Failed;
    }
  }

  method SumChild(en: Engine, t: nat, f: nat, g: Edges, res: Edges, ghost done: set<Id>, c: Id, ghost a: Id,
                  ghost s0: Store)
    returns (ok: bool, res': Edges)
    requires en.Valid() && !en.boolean && ListsAll(en.order) && 1 <= t <= |en.ws| && f < LEAF_FIELD && f != t
    requires Wf(en.ws, s0) && a in s0 && s0[a] == Internal(f, g)
    requires Keeps(s0, en.nodes, s0.Keys) && Mapped(en.ws, en.nodes, Sum, t, f, g, res, done) && c in g && c !in done
    modifies en
    ensures en.Valid() && en.pins == old(en.pins) && Keeps(s0, en.nodes, s0.Keys) && WfEdges(en.ws, en.nodes, f, g)
    ensures ok ==> Mapped(en.ws, en.nodes, Sum, t, f, g, res', done + {c})
    ensures !ok <==> ChildFails(en.ws, s0, en.order, t, a, c)
    decreases LEAF_FIELD - f, 0
  {
    ghost var s1 := en.nodes;
    EdgesAll(en.ws, en.nodes, f, g);
    EdgesAll(en.ws, en.nodes, f, res);
    AllClosed(en.ws, s1);
    KeepsLess(s0, s1, s0.Keys, s0.Keys);
    NodeChildren(en.ws, s0, a);
    SumFailsKept(en.ws, s0, s1, en.order, t, c);
    var r := AbstractPlus(en, c, t);
    KeepsTrans(s0, s1, en.nodes, s0.Keys, s1.Keys);
    MappedKept(en.ws, s1, en.nodes, s1.Keys, Sum, t, f, g, res, done);
    ok, res' := r.Got?, res;
    if ok {
      MappedAdd(en.ws, en.nodes, Sum, t, f, g, res, done, c, r.id);
      res' := AddEdge(res, r.id, g[c]);
    }
  }

  // ---------------------------------------------------------------- the order matters

  /** A node over two bits with leaves INT32_MAX, 1 and -1. */
  function BigStore(): Store {
    map[FALSE := Leaf(0.0), TRUE := Leaf(1.0), 2 := Leaf(INT32_MAX as real), 3 := Leaf(-1.0),
        4 := Internal(1, BigEdges())]
  }

  function BigEdges(): Edges { map[2 := {[false, false]}, TRUE := {[false, true]}, 3 := {[true, false]}] }

  lemma BigEdgesOk()
    ensures WfNode([2], BigStore(), Internal(1, BigEdges()))
  {
    var ws, s, e := [2], BigStore(), BigEdges();
    LabelsApart();
    forall c | c in e ensures EdgeOk(ws, s, 1, e, c) {}
    forall c, d | c in e && d in e && c != d ensures Apart(e, c, d) {}
    assert [true, true] in FieldUniv(ws, 1) && 2 in e;
  }

  lemma BigStoreOk()
    ensures Wf([2], BigStore())
  {
    var s := BigStore();
    BigEdgesOk();
    forall i | i in s ensures WfNode([2], s, s[i]) { assert i == 4 || s[i].Leaf?; }
    forall i, j | i in s && j in s && SameNode(s, i, j) ensures i == j {}
  }

  lemma LabelsApart()
    ensures [false, false] != [false, true] && [false, false] != [true, false] && [false, true] != [true, false]
    ensures [true, true] != [false, false] && [true, true] != [false, true] && [true, true] != [true, false]
  {
    assert [false, false][0] != [true, false][0] && [false, false][1] != [false, true][1];
    assert [true, true][0] != [false, false][0] && [true, true][1] != [true, false][1];
    assert [true, true][0] != [false, true][0] && [false, true][0] != [true, false][0];
  }

  lemma TooBig(v: real)
    requires v > INT32_MAX as real
    ensures !Representable(v)
  {
    if Representable(v) {
      var n, d :| IsRatio(v, n, d);
      RatioBound(n, d);
    }
  }

  lemma RatioBound(n: int, d: int)
    requires 0 < d && n <= INT32_MAX
    ensures n as real / d as real <= INT32_MAX as real
  {}

  /** The sum over the edges to the children in done. */
  ghost function PartSum(done: set<Id>, v: Assignment): real {
    SumOver(Covered(BigEdges(), done), AtChild([2], BigStore(), BigEdges(), v))
  }

  function BigValue(c: Id): real { if c == 2 then INT32_MAX as real else if c == 3 then -1.0 else 1.0 }

  lemma NextSum(done: set<Id>, c: Id, v: Assignment)
    requires Wf([2], BigStore()) && c in BigEdges() && c !in done && Fits([2], v)
    ensures PartSum(done + {c}, v) == PartSum(done, v) + BigValue(c)
    ensures Repeated(|BigEdges()[c]|, ValueAt([2], BigStore(), c, v)) == BigValue(c)
  {
    var s, e := BigStore(), BigEdges();
    NodeChildren([2], s, 4);
    AtChildLabel([2], s, 1, e, c, v);
    SumLabel(e, done, c, AtChild([2], s, e, v), Eval([2], s, c, v));
    assert |e[c]| == 1 && s[c] == Leaf(BigValue(c));
    assert Repeated(1, BigValue(c)) == BigValue(c) + Repeated(0, BigValue(c));
  }

  lemma NoSum(v: Assignment)
    ensures PartSum({}, v) == 0.0
  {
    SumNone(AtChild([2], BigStore(), BigEdges(), v));
    assert Covered(BigEdges(), {}) == {};
  }

  lemma SmallEnough()
    ensures Representable(INT32_MAX as real) && Representable(1.0) && Representable(0.0) && Representable(-1.0)
  {
    assert IsRatio(INT32_MAX as real, INT32_MAX, 1) && IsRatio(1.0, 1, 1);
    assert IsRatio(0.0, 0, 1) && IsRatio(-1.0, -1, 1);
  }

  const LargestFirst: seq<Id> := [2, TRUE, 3]
  const LargestLast: seq<Id> := [TRUE, 3, 2]

  lemma BothList()
    ensures Lists(BigEdges(), LargestFirst) && Lists(BigEdges(), LargestLast)
  {}

  lemma FirstSum(v: Assignment)
    requires Wf([2], BigStore()) && Fits([2], v)
    ensures PartSum(First(LargestFirst, 1) + {TRUE}, v) == INT32_MAX as real + 1.0
  {
    NoSum(v);
    BothList();
    assert First(LargestFirst, 0) == {};
    FirstNext(LargestFirst, 0);
    NextSum({}, 2, v);
    FirstNext(LargestFirst, 1);
    NextSum(First(LargestFirst, 1), TRUE, v);
  }

  lemma LargestFirstFails()
    requires Wf([2], BigStore())
    ensures NodeFails([2], BigStore(), BigEdges(), LargestFirst)
  {
    var e, done, v := BigEdges(), First(LargestFirst, 1), [[false, false]];
    FirstSum(v);
    TooBig(PartSum(done + {TRUE}, v));
    assert PartSum(done + {TRUE}, v) == SumOver(Covered(e, done + {TRUE}), AtChild([2], BigStore(), e, v));
    assert Fits([2], v) && StepFailsAt([2], BigStore(), e, done, TRUE, v);
    assert LargestFirst[1] == TRUE && StepFails([2], BigStore(), e, done, TRUE);
  }

  /** The partial sums in the other order: 0, 1, 0 and the largest. */
  lemma LastSums(k: nat, v: Assignment)
    requires Wf([2], BigStore()) && Fits([2], v) && k <= 3
    ensures PartSum(First(LargestLast, k), v) ==
            if k == 0 || k == 2 then 0.0 else if k == 1 then 1.0 else INT32_MAX as real
  {
    if k == 0 {
      NoSum(v);
      assert First(LargestLast, 0) == {};
    } else {
      LastSums(k - 1, v);
      BothList();
      FirstNext(LargestLast, k - 1);
      NextSum(First(LargestLast, k - 1), LargestLast[k - 1], v);
    }
  }

  lemma LargestLastStep(k: nat)
    requires Wf([2], BigStore()) && k < 3
    ensures LargestLast[k] in BigEdges()
    ensures !StepFails([2], BigStore(), BigEdges(), First(LargestLast, k), LargestLast[k])
  {
    var e, c, done := BigEdges(), LargestLast[k], First(LargestLast, k);
    SmallEnough();
    BothList();
    FirstNext(LargestLast, k);
    forall v | Fits([2], v) ensures !StepFailsAt([2], BigStore(), e, done, c, v) {
      LastSums(k + 1, v);
      NextSum(done, c, v);
      assert PartSum(done + {c}, v) == SumOver(Covered(e, done + {c}), AtChild([2], BigStore(), e, v));
    }
    assert |e[c]| == 1;
  }

  /** Adding up from the largest leaf fails, adding it last does not: the order decides. */
  lemma OrderMatters()
    ensures Wf([2], BigStore()) && Lists(BigEdges(), LargestFirst) && Lists(BigEdges(), LargestLast)
    ensures NodeFails([2], BigStore(), BigEdges(), LargestFirst)
    ensures !NodeFails([2], BigStore(), BigEdges(), LargestLast)
  {
    BigStoreOk();
    BothList();
    LargestFirstFails();
    forall k | 0 <= k < |LargestLast| && LargestLast[k] in BigEdges()
      ensures !StepFails([2], BigStore(), BigEdges(), First(LargestLast, k), LargestLast[k])
    {
      LargestLastStep(k);
    }
  }
}
