/** The whole edge map of a same-field OR: intersection items from spawned tasks, and what those
    tasks left of the two cloned edge maps. */
module OrEdges {
  import opened Labels
  import opened Diagram
  import opened EdgeAlgebra
  import opened Operations
  import opened BooleanOps
  import opened Residuals
  import opened Scheduling

  /** An intersection of two labels with the node computed for the children. */
  ghost predicate PairItem(e: Edges, g: Edges, rec: Recursion, i: Item) {
    exists c, d :: c in e && d in g && e[c] * g[d] != {} && i == Item(rec((c, d)), e[c] * g[d])
  }

  /** What is left of a label of the first operand, or of the second. */
  ghost predicate LeftItem(e: Edges, g: Edges, run: seq<State<(Id, Id), Cell>>, i: Item) {
    || (exists c :: c in e && i == Item(c, LeftIn(run, A(c))) && i.region != {})
    || (exists d :: d in g && i == Item(d, LeftIn(run, B(d))) && i.region != {})
  }

  /** A finished OR: the tasks ran in some interleaving, and their items and the residuals were
      merged in some order. */
  ghost predicate OrDone(e: Edges, g: Edges, rec: Recursion, run: seq<State<(Id, Id), Cell>>, merged: seq<Item>) {
    && Run(OrWork(e, g), run) && Finished(OrWork(e, g), run[|run| - 1])
    && forall i :: i in merged <==> PairItem(e, g, rec, i) || LeftItem(e, g, run, i)
  }

  /** The residual items, without a run. */
  ghost predicate RestItem(e: Edges, g: Edges, i: Item) {
    || (exists c :: c in e && i == Item(c, e[c] - Support(g)) && i.region != {})
    || (exists d :: d in g && i == Item(d, g[d] - Support(e)) && i.region != {})
  }

  lemma LeftIsRest(e: Edges, g: Edges, run: seq<State<(Id, Id), Cell>>, i: Item)
    requires Run(OrWork(e, g), run) && Finished(OrWork(e, g), run[|run| - 1])
    ensures LeftItem(e, g, run, i) <==> RestItem(e, g, i)
  {
    forall c | c in e ensures LeftIn(run, A(c)) == e[c] - Support(g) { OrResidualLeft(e, g, run, c); }
    forall d | d in g ensures LeftIn(run, B(d)) == g[d] - Support(e) { OrResidualRight(e, g, run, d); }
  }

  /** For every interleaving of the tasks and every order of merging, OR builds the same edge
      map. */
  lemma OrEdgesUnique(e: Edges, g: Edges, rec: Recursion,
                      run: seq<State<(Id, Id), Cell>>, merged: seq<Item>,
                      run': seq<State<(Id, Id), Cell>>, merged': seq<Item>)
    requires OrDone(e, g, rec, run, merged) && OrDone(e, g, rec, run', merged')
    ensures MergeAll(map[], merged) == MergeAll(map[], merged')
  {
    forall i ensures i in merged <==> i in merged' {
      LeftIsRest(e, g, run, i);
      LeftIsRest(e, g, run', i);
    }
    MergeOrderIrrelevant(map[], merged, merged');
  }

  // ---------------------------------------------------------------- and it is the right one

  /** The item is the operation's result on one of the regions. */
  ghost predicate ItemFor(ws: Widths, s: Store, op: Op, f: nat, e: Edges, g: Edges, p: (Id, Id), i: Item) {
    && 1 <= f <= |ws| && i.region == Region(FieldUniv(ws, f), e, g, p) && i.region != {}
    && Computes(ws, s, op, p.0, p.1, i.child)
  }

  ghost predicate ItemRight(ws: Widths, s: Store, op: Op, f: nat, e: Edges, g: Edges, done: set<(Id, Id)>, i: Item) {
    exists p :: p in done && ItemFor(ws, s, op, f, e, g, p, i)
  }

  /** Every item is right, and every region that is not empty has one. */
  ghost predicate ItemsRight(ws: Widths, s: Store, op: Op, f: nat, e: Edges, g: Edges, done: set<(Id, Id)>,
                             items: seq<Item>) {
    && Wf(ws, s) && WfEdges(ws, s, f, e) && WfEdges(ws, s, f, g)
    && (forall i :: i in items ==> ItemRight(ws, s, op, f, e, g, done, i))
    && (forall p :: p in done && Region(FieldUniv(ws, f), e, g, p) != {} ==>
          exists i :: i in items && ItemFor(ws, s, op, f, e, g, p, i))
  }

  /** An edge of the merged map computes the operation wherever its label says. */
  lemma EdgeRight(ws: Widths, s: Store, op: Op, f: nat, e: Edges, g: Edges, done: set<(Id, Id)>, items: seq<Item>,
                  c: Id, x: Bits)
    requires ItemsRight(ws, s, op, f, e, g, done, items)
    requires c in MergeAll(map[], items) && x in MergeAll(map[], items)[c]
    ensures x in FieldUniv(ws, f) && (ChildAt(e, x), ChildAt(g, x)) in done
    ensures Computes(ws, s, op, ChildAt(e, x), ChildAt(g, x), c)
  {
    MergeAllIs(map[], items);
    assert FeedsAt(ItemSet(items), c, x);
    var i :| i in ItemSet(items) && i.child == c && x in i.region;
    assert ItemRight(ws, s, op, f, e, g, done, i);
  }

  lemma MergedEdgeOk(ws: Widths, s: Store, op: Op, f: nat, e: Edges, g: Edges, done: set<(Id, Id)>, items: seq<Item>,
                     c: Id)
    requires ItemsRight(ws, s, op, f, e, g, done, items) && c in MergeAll(map[], items)
    ensures EdgeOk(ws, s, f, MergeAll(map[], items), c)
  {
    var res := MergeAll(map[], items);
    var y := MergedSomewhere(ws, s, op, f, e, g, done, items, c);
    forall x | x in res[c] ensures x in FieldUniv(ws, f) { EdgeRight(ws, s, op, f, e, g, done, items, c, x); }
    EdgeRight(ws, s, op, f, e, g, done, items, c, y);
    ChildOk(ws, s, f, e, y);
    ChildOk(ws, s, f, g, y);
  }

  lemma MergedSomewhere(ws: Widths, s: Store, op: Op, f: nat, e: Edges, g: Edges, done: set<(Id, Id)>,
                        items: seq<Item>, c: Id) returns (y: Bits)
    requires ItemsRight(ws, s, op, f, e, g, done, items) && c in MergeAll(map[], items)
    ensures y in MergeAll(map[], items)[c]
  {
    MergeAllIs(map[], items);
    assert Feeds(ItemSet(items), c);
    var i :| i in ItemSet(items) && i.child == c;
    assert ItemRight(ws, s, op, f, e, g, done, i);
    y :| y in i.region;
    assert FeedsAt(ItemSet(items), c, y);
  }

  lemma MergedWf(ws: Widths, s: Store, op: Op, f: nat, e: Edges, g: Edges, done: set<(Id, Id)>, items: seq<Item>)
    requires ItemsRight(ws, s, op, f, e, g, done, items)
    ensures WfEdges(ws, s, f, MergeAll(map[], items))
  {
    var res := MergeAll(map[], items);
    MergeAllIs(map[], items);
    forall c | c in res ensures EdgeOk(ws, s, f, res, c) { MergedEdgeOk(ws, s, op, f, e, g, done, items, c); }
    forall c, d | c in res && d in res && c != d ensures Apart(res, c, d) {
      if x :| x in res[c] && x in res[d] {
        EdgeRight(ws, s, op, f, e, g, done, items, c, x);
        EdgeRight(ws, s, op, f, e, g, done, items, d, x);
        ResultUnique(ws, s, op, ChildAt(e, x), ChildAt(g, x), c, d);
      }
    }
  }

  /** Right items, merged in any order, make a map that is right on every region. */
  lemma MergedBuilt(ws: Widths, s: Store, op: Op, f: nat, e: Edges, g: Edges, done: set<(Id, Id)>, items: seq<Item>)
    requires ItemsRight(ws, s, op, f, e, g, done, items)
    ensures Built(ws, s, op, f, e, g, MergeAll(map[], items), done)
  {
    var res := MergeAll(map[], items);
    MergeAllIs(map[], items);
    MergedWf(ws, s, op, f, e, g, done, items);
    forall x | x in FieldUniv(ws, f) ensures BuiltAt(ws, s, op, e, g, res, done, x) {
      var p, r := (ChildAt(e, x), ChildAt(g, x)), ChildAt(res, x);
      if r != FALSE {
        EdgeRight(ws, s, op, f, e, g, done, items, r, x);
      } else if p in done {
        assert x in Region(FieldUniv(ws, f), e, g, p);
        var i :| i in items && ItemFor(ws, s, op, f, e, g, p, i);
        if i.child != FALSE {
          assert FeedsAt(ItemSet(items), i.child, x) && Feeds(ItemSet(items), i.child);
          ChildAtUnique(res, x, i.child);
        }
      }
    }
  }

  /** In every interleaving and every order of merging, a same-field OR whose recursion is right
      on the children builds a map that is OR on every region. */
  lemma OrEdgesBuilt(ws: Widths, s: Store, f: nat, e: Edges, g: Edges, rec: Recursion,
                     run: seq<State<(Id, Id), Cell>>, merged: seq<Item>)
    requires Wf(ws, s) && Domain(Or, s) && WfEdges(ws, s, f, e) && WfEdges(ws, s, f, g)
    requires forall c, d :: c in e && d in g && e[c] * g[d] != {} ==> Computes(ws, s, Or, c, d, rec((c, d)))
    requires OrDone(e, g, rec, run, merged)
    ensures Built(ws, s, Or, f, e, g, MergeAll(map[], merged), AdditivePairs(e, g))
  {
    forall i | i in merged ensures ItemRight(ws, s, Or, f, e, g, AdditivePairs(e, g), i) {
      LeftIsRest(e, g, run, i);
      OrItemRight(ws, s, f, e, g, rec, i);
    }
    forall p | p in AdditivePairs(e, g) && Region(FieldUniv(ws, f), e, g, p) != {}
      ensures exists i :: i in merged && ItemFor(ws, s, Or, f, e, g, p, i)
    {
      var i := OrItemOf(ws, s, f, e, g, rec, p);
      LeftIsRest(e, g, run, i);
    }
    MergedBuilt(ws, s, Or, f, e, g, AdditivePairs(e, g), merged);
  }

  lemma OrItemRight(ws: Widths, s: Store, f: nat, e: Edges, g: Edges, rec: Recursion, i: Item)
    requires Wf(ws, s) && Domain(Or, s) && WfEdges(ws, s, f, e) && WfEdges(ws, s, f, g)
    requires forall c, d :: c in e && d in g && e[c] * g[d] != {} ==> Computes(ws, s, Or, c, d, rec((c, d)))
    requires PairItem(e, g, rec, i) || RestItem(e, g, i)
    ensures ItemRight(ws, s, Or, f, e, g, AdditivePairs(e, g), i)
  {
    if PairItem(e, g, rec, i) {
      var c, d :| c in e && d in g && e[c] * g[d] != {} && i == Item(rec((c, d)), e[c] * g[d]);
      RegionPair(ws, s, f, e, g, c, d);
      assert ItemFor(ws, s, Or, f, e, g, (c, d), i);
    } else if c :| c in e && i == Item(c, e[c] - Support(g)) && i.region != {} {
      LeftItemFor(ws, s, Or, f, e, g, c);
      assert (c, FALSE) in AdditivePairs(e, g);
    } else {
      var d :| d in g && i == Item(d, g[d] - Support(e)) && i.region != {};
      RightItemFor(ws, s, f, e, g, d);
      assert (FALSE, d) in AdditivePairs(e, g);
    }
  }

  lemma LeftItemFor(ws: Widths, s: Store, op: Op, f: nat, e: Edges, g: Edges, c: Id)
    requires Wf(ws, s) && Domain(op, s) && Additive(op) && WfEdges(ws, s, f, e) && WfEdges(ws, s, f, g)
    requires c in e && e[c] - Support(g) != {}
    ensures ItemFor(ws, s, op, f, e, g, (c, FALSE), Item(c, e[c] - Support(g)))
  {
    RegionLeft(ws, s, f, e, g, c);
    assert EdgeOk(ws, s, f, e, c);
    KeepsLeft(ws, s, op, c);
  }

  lemma RightItemFor(ws: Widths, s: Store, f: nat, e: Edges, g: Edges, d: Id)
    requires Wf(ws, s) && Domain(Or, s) && WfEdges(ws, s, f, e) && WfEdges(ws, s, f, g)
    requires d in g && g[d] - Support(e) != {}
    ensures ItemFor(ws, s, Or, f, e, g, (FALSE, d), Item(d, g[d] - Support(e)))
  {
    RegionRight(ws, s, f, e, g, d);
    assert EdgeOk(ws, s, f, g, d);
    KeepsRight(ws, s, Or, d);
  }

  /** The item of a region. */
  lemma OrItemOf(ws: Widths, s: Store, f: nat, e: Edges, g: Edges, rec: Recursion, p: (Id, Id)) returns (i: Item)
    requires Wf(ws, s) && Domain(Or, s) && WfEdges(ws, s, f, e) && WfEdges(ws, s, f, g)
    requires forall c, d :: c in e && d in g && e[c] * g[d] != {} ==> Computes(ws, s, Or, c, d, rec((c, d)))
    requires p in AdditivePairs(e, g) && Region(FieldUniv(ws, f), e, g, p) != {}
    ensures (PairItem(e, g, rec, i) || RestItem(e, g, i)) && ItemFor(ws, s, Or, f, e, g, p, i)
  {
    var c, d := p.0, p.1;
    if p in PairsOf(e, g) {
      RegionPair(ws, s, f, e, g, c, d);
      i := Item(rec((c, d)), e[c] * g[d]);
      assert PairItem(e, g, rec, i);
    } else if p in LeftPairs(e) {
      RegionLeft(ws, s, f, e, g, c);
      LeftItemFor(ws, s, Or, f, e, g, c);
      i := Item(c, e[c] - Support(g));
    } else {
      RegionRight(ws, s, f, e, g, d);
      RightItemFor(ws, s, f, e, g, d);
      i := Item(d, g[d] - Support(e));
    }
  }

  // ---------------------------------------------------------------- one residual

  /** A finished level with a single residual: the node computed for each edge of e, and other
      wherever e has no edge, merged in some order after some interleaving. */
  ghost predicate RestDone(e: Edges, u: Label, rec: Id -> Id, other: Id, run: seq<State<Id, ()>>, merged: seq<Item>) {
    && Run(RestWork(e, u), run) && Finished(RestWork(e, u), run[|run| - 1])
    && forall i :: i in merged <==>
         (exists c :: c in e && i == Item(rec(c), e[c])) || (i == Item(other, LeftIn(run, ())) && i.region != {})
  }

  lemma WholeEdge(ws: Widths, s: Store, f: nat, b: Id, u: Label)
    requires 1 <= f <= |ws| && b in s && b != FALSE && Level(s, b) > f && u == FieldUniv(ws, f)
    ensures WfEdges(ws, s, f, map[b := u]) && Support(map[b := u]) == u
  {
    var g := map[b := u];
    assert Zeros(ws[f - 1]) in u;
    assert EdgeOk(ws, s, f, g, b);
    forall x | x in u ensures x in Support(g) { assert x in g[b]; }
  }

  /** The items of such a level, with the region of each edge and that of the residual. */
  lemma RestItemsRight(ws: Widths, s: Store, op: Op, f: nat, e: Edges, g: Edges, done: set<(Id, Id)>, h: Edges,
                       rec: Id -> Id, other: Id, rest: Label, pair: Id -> (Id, Id), last: (Id, Id), merged: seq<Item>)
    requires Wf(ws, s) && WfEdges(ws, s, f, e) && WfEdges(ws, s, f, g)
    requires forall i :: i in merged <==>
               (exists c :: c in h && i == Item(rec(c), h[c])) || (i == Item(other, rest) && rest != {})
    requires forall c :: c in h ==> pair(c) in done && ItemFor(ws, s, op, f, e, g, pair(c), Item(rec(c), h[c]))
    requires rest != {} ==> last in done && ItemFor(ws, s, op, f, e, g, last, Item(other, rest))
    requires forall p :: p in done && Region(FieldUniv(ws, f), e, g, p) != {} ==>
               (exists c :: c in h && p == pair(c)) || (p == last && rest != {})
    ensures ItemsRight(ws, s, op, f, e, g, done, merged)
  {
    forall i | i in merged ensures ItemRight(ws, s, op, f, e, g, done, i) {
      if c :| c in h && i == Item(rec(c), h[c]) { assert pair(c) in done; }
    }
    forall p | p in done && Region(FieldUniv(ws, f), e, g, p) != {}
      ensures exists i :: i in merged && ItemFor(ws, s, op, f, e, g, p, i)
    {
      if c :| c in h && p == pair(c) {
        assert Item(rec(c), h[c]) in merged;
      } else {
        assert Item(other, rest) in merged;
      }
    }
  }

  /** A region of a map against a whole edge: that of an edge, or where there is none. */
  lemma WholeRight(ws: Widths, s: Store, f: nat, e: Edges, b: Id, p: (Id, Id))
    requires WfEdges(ws, s, f, e) && b in s && b != FALSE && Level(s, b) > f
    requires var g := map[b := FieldUniv(ws, f)];
             p in AdditivePairs(e, g) && Region(FieldUniv(ws, f), e, g, p) != {}
    ensures (p.0 in e && p == (p.0, b)) || (p == (FALSE, b) && FieldUniv(ws, f) - Support(e) != {})
  {
    var u := FieldUniv(ws, f);
    var g := map[b := u];
    WholeEdge(ws, s, f, b, u);
    if p in RightPairs(g) { RegionRight(ws, s, f, e, g, b); }
  }

  lemma WholeLeft(ws: Widths, s: Store, f: nat, g: Edges, b: Id, p: (Id, Id))
    requires WfEdges(ws, s, f, g) && b in s && b != FALSE && Level(s, b) > f
    requires var e := map[b := FieldUniv(ws, f)];
             p in AdditivePairs(e, g) && Region(FieldUniv(ws, f), e, g, p) != {}
    ensures (p.1 in g && p == (b, p.1)) || (p == (b, FALSE) && FieldUniv(ws, f) - Support(g) != {})
  {
    var u := FieldUniv(ws, f);
    var e := map[b := u];
    WholeEdge(ws, s, f, b, u);
    if p in LeftPairs(e) { RegionLeft(ws, s, f, e, g, b); }
  }

  /** A different-field OR: e is the upper operand, b the lower one. */
  lemma OrRestBuilt(ws: Widths, s: Store, f: nat, e: Edges, b: Id, rec: Id -> Id, run: seq<State<Id, ()>>,
                    merged: seq<Item>)
    requires Wf(ws, s) && Domain(Or, s) && WfEdges(ws, s, f, e) && b in s && b != FALSE && Level(s, b) > f
    requires forall c :: c in e ==> Computes(ws, s, Or, c, b, rec(c))
    requires RestDone(e, FieldUniv(ws, f), rec, b, run, merged)
    ensures var g := map[b := FieldUniv(ws, f)];
            Built(ws, s, Or, f, e, g, MergeAll(map[], merged), AdditivePairs(e, g))
  {
    var u := FieldUniv(ws, f);
    var g := map[b := u];
    var done := AdditivePairs(e, g);
    WholeEdge(ws, s, f, b, u);
    RestResidual(e, u, run);
    forall c | c in e ensures (c, b) in done && ItemFor(ws, s, Or, f, e, g, (c, b), Item(rec(c), e[c])) {
      assert EdgeOk(ws, s, f, e, c);
      RegionPair(ws, s, f, e, g, c, b);
      assert e[c] * u == e[c];
    }
    if u - Support(e) != {} { RightItemFor(ws, s, f, e, g, b); }
    assert (FALSE, b) in done;
    forall p | p in done && Region(u, e, g, p) != {}
      ensures (exists c :: c in e && p == (c, b)) || (p == (FALSE, b) && u - Support(e) != {})
    {
      WholeRight(ws, s, f, e, b, p);
    }
    RestItemsRight(ws, s, Or, f, e, g, done, e, rec, b, u - Support(e), c => (c, b), (FALSE, b), merged);
    MergedBuilt(ws, s, Or, f, e, g, done, merged);
  }

  /** NOT: TRUE minus the children, and TRUE wherever g has no edge. */
  lemma NotRestBuilt(ws: Widths, s: Store, f: nat, g: Edges, rec: Id -> Id, run: seq<State<Id, ()>>,
                     merged: seq<Item>)
    requires Wf(ws, s) && Domain(Minus, s) && WfEdges(ws, s, f, g)
    requires forall d :: d in g ==> Computes(ws, s, Minus, TRUE, d, rec(d))
    requires RestDone(g, FieldUniv(ws, f), rec, TRUE, run, merged)
    ensures var e := map[TRUE := FieldUniv(ws, f)];
            Built(ws, s, Minus, f, e, g, MergeAll(map[], merged), AdditivePairs(e, g))
  {
    var u := FieldUniv(ws, f);
    var e := map[TRUE := u];
    var done := AdditivePairs(e, g);
    WholeEdge(ws, s, f, TRUE, u);
    RestResidual(g, u, run);
    forall d | d in g ensures (TRUE, d) in done && ItemFor(ws, s, Minus, f, e, g, (TRUE, d), Item(rec(d), g[d])) {
      assert EdgeOk(ws, s, f, g, d);
      RegionPair(ws, s, f, e, g, TRUE, d);
      assert u * g[d] == g[d];
    }
    if u - Support(g) != {} { LeftItemFor(ws, s, Minus, f, e, g, TRUE); }
    assert (TRUE, FALSE) in done;
    forall p | p in done && Region(u, e, g, p) != {}
      ensures (exists d :: d in g && p == (TRUE, d)) || (p == (TRUE, FALSE) && u - Support(g) != {})
    {
      WholeLeft(ws, s, f, g, TRUE, p);
    }
    RestItemsRight(ws, s, Minus, f, e, g, done, g, rec, TRUE, u - Support(g), d => (TRUE, d), (TRUE, FALSE), merged);
    MergedBuilt(ws, s, Minus, f, e, g, done, merged);
  }
}
