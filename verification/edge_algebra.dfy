/** Building an edge map: what adding edges in any order does to the child chosen at a value. */
module EdgeAlgebra {
  import opened Labels
  import opened Diagram

  /** Add a label for a child: edges to FALSE are dropped, labels of one child are united. */
  function AddEdge(e: Edges, c: Id, l: Label): Edges {
    if c == FALSE then e
    else if c in e then e[c := e[c] + l]
    else e[c := l]
  }

  lemma InSupport(e: Edges, c: Id, x: Bits)
    requires c in e && x in e[c]
    ensures x in Support(e)
  {}

  /** Labels added over fresh ground decide the child there and nowhere else. */
  lemma AddEdgeChild(e: Edges, c: Id, l: Label, x: Bits)
    requires Disjoint(e) && FALSE !in e && l !! Support(e)
    ensures ChildAt(AddEdge(e, c, l), x) == if x in l then c else ChildAt(e, x)
  {
    AddEdgeDisjoint(e, c, l);
    var g := AddEdge(e, c, l);
    if x in l {
      if c != FALSE {
        ChildAtUnique(g, x, c);
      }
    } else if x in Support(e) {
      var d := ChildAt(e, x);
      ChildAtUnique(g, x, d);
    } else {
      NotAdded(e, c, l, x);
    }
  }

  lemma NotAdded(e: Edges, c: Id, l: Label, x: Bits)
    requires x !in l && x !in Support(e)
    ensures x !in Support(AddEdge(e, c, l))
  {
    var g := AddEdge(e, c, l);
    forall d | d in g ensures x !in g[d] {
      if d in e {
        if x in e[d] { InSupport(e, d, x); }
      }
    }
  }

  lemma AddEdgeDisjoint(e: Edges, c: Id, l: Label)
    requires Disjoint(e) && FALSE !in e && l !! Support(e)
    ensures Disjoint(AddEdge(e, c, l)) && FALSE !in AddEdge(e, c, l)
  {
    var g := AddEdge(e, c, l);
    forall i | i in e ensures e[i] !! l {
      forall x | x in e[i] ensures x !in l { assert x in Support(e); }
    }
    forall i, j | i in g && j in g && i != j ensures Apart(g, i, j) {
      if i in e && j in e { assert Apart(e, i, j) && Apart(e, j, i); }
    }
  }

  lemma AddEdgeWf(ws: Widths, s: Store, f: nat, e: Edges, c: Id, l: Label)
    requires WfEdges(ws, s, f, e) && l !! Support(e)
    requires c in s && Level(s, c) > f && l != {} && l <= FieldUniv(ws, f)
    ensures WfEdges(ws, s, f, AddEdge(e, c, l))
  {
    AddEdgeDisjoint(e, c, l);
    var g := AddEdge(e, c, l);
    forall d | d in g ensures EdgeOk(ws, s, f, g, d) {
      if d in e { assert EdgeOk(ws, s, f, e, d); }
    }
  }

  // ---------------------------------------------------------------- sums over labels

  /** The values under the edges to the children in done. */
  function Covered(e: Edges, done: set<Id>): Label {
    set c, x | c in e && c in done && x in e[c] :: x
  }

  lemma CoverMore(e: Edges, done: set<Id>, c: Id)
    requires Disjoint(e) && c in e && c !in done
    ensures Covered(e, done + {c}) == Covered(e, done) + e[c] && Covered(e, done) !! e[c]
  {
    forall x | x in Covered(e, done) ensures x !in e[c] {
      var d :| d in e && d in done && x in e[d];
      if x in e[c] { NotApart(e, c, d, x); }
    }
  }

  /** The sum over one more label: its size times the child's value. */
  lemma SumLabel(e: Edges, done: set<Id>, c: Id, h: Bits -> real, y: real)
    requires Disjoint(e) && c in e && c !in done && forall x :: x in e[c] ==> h(x) == y
    ensures SumOver(Covered(e, done + {c}), h) == SumOver(Covered(e, done), h) + Repeated(|e[c]|, y)
  {
    CoverMore(e, done, c);
    SumMore(Covered(e, done), e[c], h, y);
  }

  // ---------------------------------------------------------------- order independence

  /** One finished work item: the child computed for a label region. */
  datatype Item = Item(child: Id, region: Label)

  /** Merging items one after the other. */
  function MergeAll(e: Edges, items: seq<Item>): Edges
    decreases |items|
  {
    if items == [] then e else MergeAll(AddEdge(e, items[0].child, items[0].region), items[1..])
  }

  /** Some item has this child. */
  ghost predicate Feeds(items: set<Item>, c: Id) {
    exists i :: i in items && i.child == c
  }

  /** Some item has this child and covers x. */
  ghost predicate FeedsAt(items: set<Item>, c: Id, x: Bits) {
    exists i :: i in items && i.child == c && x in i.region
  }

  /** Edge map g is e with the items merged in. */
  ghost predicate MergedFrom(e: Edges, items: set<Item>, g: Edges) {
    && (forall c :: c in g <==> c in e || (c != FALSE && Feeds(items, c)))
    && (forall c, x :: c in g ==> (x in g[c] <==> (c in e && x in e[c]) || FeedsAt(items, c, x)))
  }

  ghost function ItemSet(items: seq<Item>): set<Item> { set i | i in items }

  lemma {:induction false} MergeAllIs(e: Edges, items: seq<Item>)
    requires FALSE !in e
    ensures MergedFrom(e, ItemSet(items), MergeAll(e, items))
    decreases |items|
  {
    if items != [] {
      var h, t := items[0], items[1..];
      MergeAllIs(AddEdge(e, h.child, h.region), t);
      assert items == [h] + t;
      assert ItemSet(items) == {h} + ItemSet(t);
      MergeStep(e, h, ItemSet(t), MergeAll(e, items));
    }
  }

  lemma FeedsMore(h: Item, t: set<Item>, c: Id, x: Bits)
    ensures Feeds({h} + t, c) <==> h.child == c || Feeds(t, c)
    ensures FeedsAt({h} + t, c, x) <==> (h.child == c && x in h.region) || FeedsAt(t, c, x)
  {
    assert h in {h} + t;
  }

  lemma MergeStep(e: Edges, h: Item, t: set<Item>, g: Edges)
    requires FALSE !in e && MergedFrom(AddEdge(e, h.child, h.region), t, g)
    ensures MergedFrom(e, {h} + t, g)
  {
    var e' := AddEdge(e, h.child, h.region);
    forall c, x
      ensures c in g <==> c in e || (c != FALSE && Feeds({h} + t, c))
      ensures c in g ==> (x in g[c] <==> (c in e && x in e[c]) || FeedsAt({h} + t, c, x))
    {
      FeedsMore(h, t, c, x);
      assert c in e' <==> c in e || (c == h.child && c != FALSE);
    }
  }

  /** However the work items are scheduled, merging them gives the same edge map; merging one
      twice would not change it either. */
  lemma MergeOrderIrrelevant(e: Edges, items: seq<Item>, other: seq<Item>)
    requires FALSE !in e && forall i :: i in items <==> i in other
    ensures MergeAll(e, items) == MergeAll(e, other)
  {
    MergeAllIs(e, items);
    MergeAllIs(e, other);
    assert ItemSet(items) == ItemSet(other);
    MergedUnique(e, ItemSet(items), MergeAll(e, items), MergeAll(e, other));
  }

  lemma MergedUnique(e: Edges, items: set<Item>, g: Edges, h: Edges)
    requires MergedFrom(e, items, g) && MergedFrom(e, items, h)
    ensures g == h
  {
    assert g.Keys == h.Keys;
    forall c | c in g ensures g[c] == h[c] {
      assert forall x :: x in g[c] <==> x in h[c];
    }
  }
}
