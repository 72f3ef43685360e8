/** Boolean operations built on the engine: NOT, De Morgan OR, difference, tree reduction and
    existential quantification, and the identities canonicity gives them. */
module BooleanOps {
  import opened Labels
  import opened Diagram
  import opened EdgeAlgebra
  import opened Operations
  import opened Liveness
  import opened StoreSteps
  import opened Engines

  // ---------------------------------------------------------------- NOT

  /** The two regions of a complement: where a has an edge, and where it has none. */
  lemma ComplementEdges(ws: Widths, s: Store, f: nat, u: Label, g: Edges, d: Id)
    requires WfEdges(ws, s, f, g) && u == FieldUniv(ws, f) && d in g
    ensures u * g[d] == g[d] && g[d] != {} && g[d] - Support(map[TRUE := u]) == {}
  {
    assert EdgeOk(ws, s, f, g, d);
    forall x | x in g[d] ensures x in Support(map[TRUE := u]) {
      InSupport(map[TRUE := u], TRUE, x);
    }
  }

  /** The right-only regions of a complement are empty. */
  lemma {:induction false} NoRightRegions(ws: Widths, s: Store, f: nat, u: Label, g: Edges, res: Edges,
                                          done: set<(Id, Id)>, todo: set<(Id, Id)>)
    requires Built(ws, s, Minus, f, map[TRUE := u], g, res, done) && u == FieldUniv(ws, f) && todo <= RightPairs(g)
    ensures Built(ws, s, Minus, f, map[TRUE := u], g, res, done + todo)
    decreases |todo|
  {
    if todo == {} {
      assert done + todo == done;
    } else {
      var p :| p in todo;
      ComplementEdges(ws, s, f, u, g, p.1);
      RegionRight(ws, s, f, map[TRUE := u], g, p.1);
      BuiltSkip(ws, s, Minus, f, map[TRUE := u], g, res, done, p);
      NoRightRegions(ws, s, f, u, g, res, done + {p}, todo - {p});
      assert done + {p} + (todo - {p}) == done + todo;
    }
  }

  /** Pointwise complement, computed as TRUE minus a. */
  method Not(en: Engine, a: Id) returns (r: Id)
    requires en.Valid() && en.boolean && a in en.Keep()
    modifies en
    ensures en.raised == old(en.raised)
    ensures en.Valid() && en.pins == old(en.pins) && Keeps(old(en.nodes), en.nodes, old(en.Keep())) &&
            old(en.Keep()) <= en.Keep()
    ensures Computes(en.ws, en.nodes, Minus, TRUE, a, r)
    ensures a != TRUE && a != FALSE ==>
              |en.notCache| > 0 && en.notCache[en.slot(a, FALSE) % |en.notCache|] == Full(TRUE, a, r)
    decreases Depth(en.nodes, a), 4
  {
    if a == TRUE {
      FastPathSound(en.ws, en.nodes, Minus, TRUE, TRUE);
      r := FALSE;
    } else if a == FALSE {
      FastPathSound(en.ws, en.nodes, Minus, TRUE, FALSE);
      r := TRUE;
    } else {
      var i := en.slot(a, FALSE) % |en.notCache|;
      var c := en.notCache[i];
      assert SlotOk(en.ws, en.nodes, Minus, en.notCache[i]);
      if c.Full? && c.x == TRUE && c.y == a {
        r := c.r;
      } else {
        r := NotNode(en, a);
        en.notCache := StoreSlot(en.ws, en.nodes, Minus, en.notCache, en.slot(a, FALSE) % |en.notCache|, TRUE, a, r);
      }
    }
  }

  method NotNode(en: Engine, a: Id) returns (r: Id)
    requires en.Valid() && en.boolean && a in en.Keep() && a != TRUE && a != FALSE
    modifies en
    ensures en.raised == old(en.raised)
    ensures en.Valid() && en.pins == old(en.pins) && Keeps(old(en.nodes), en.nodes, old(en.Keep())) &&
            old(en.Keep()) <= en.Keep()
    ensures Computes(en.ws, en.nodes, Minus, TRUE, a, r)
    decreases Depth(en.nodes, a), 3
  {
    ghost var ws := en.ws;
    var f, g := en.nodes[a].field, en.nodes[a].edges;
    NodeChildren(ws, en.nodes, a);
    en.KeepClosed();
    assert ClosedAt(en.nodes, en.Keep(), a);
    ghost var s0, k0 := en.nodes, en.Keep();
    var e := map[TRUE := en.univ[f - 1]];
    DenotesOwn(ws, en.nodes, a);
    DenotesBelow(ws, en.nodes, f, TRUE, en.univ[f - 1]);
    var res, held := NotPairs(en, f, en.univ[f - 1], g);
    DenotesKept(ws, s0, en.nodes, k0, f, g, a);
    DenotesKept(ws, s0, en.nodes, k0, f, e, TRUE);
    LevelsKept(s0, en.nodes, k0, (TRUE, a));
    r := en.Finish(Minus, TRUE, a, f, e, g, res, held, AdditivePairs(e, g), old(en.pins), s0, k0);
  }

  /** Complement the children under their labels, then send what is left to TRUE. */
  method NotPairs(en: Engine, f: nat, u: Label, g: Edges) returns (res: Edges, held: seq<Id>)
    requires en.Valid() && en.boolean && 1 <= f <= |en.ws| && u == FieldUniv(en.ws, f) && f < LEAF_FIELD
    requires WfEdges(en.ws, en.nodes, f, g) && WfEdges(en.ws, en.nodes, f, map[TRUE := u]) && g.Keys <= en.Keep()
    modifies en
    ensures en.raised == old(en.raised)
    ensures en.Valid() && Keeps(old(en.nodes), en.nodes, old(en.Keep())) && old(en.Keep()) <= en.Keep()
    ensures en.pins == old(en.pins) + multiset(held)
    ensures Built(en.ws, en.nodes, Minus, f, map[TRUE := u], g, res, AdditivePairs(map[TRUE := u], g)) &&
            res.Keys <= en.Keep()
    decreases LEAF_FIELD - f, 2
  {
    var e := map[TRUE := u];
    ghost var base := en.pins;
    res, held := NotChildren(en, f, u, g);
    res, held := en.ResidualLeft(Minus, f, e, g, res, held, PairsOf(e, g), base);
    NoRightRegions(en.ws, en.nodes, f, u, g, res, PairsOf(e, g) + LeftPairs(e), RightPairs(g));
  }

  method NotChildren(en: Engine, f: nat, u: Label, g: Edges) returns (res: Edges, held: seq<Id>)
    requires en.Valid() && en.boolean && 1 <= f <= |en.ws| && u == FieldUniv(en.ws, f) && f < LEAF_FIELD
    requires WfEdges(en.ws, en.nodes, f, g) && WfEdges(en.ws, en.nodes, f, map[TRUE := u]) && g.Keys <= en.Keep()
    modifies en
    ensures en.raised == old(en.raised)
    ensures en.Valid() && Keeps(old(en.nodes), en.nodes, old(en.Keep())) && old(en.Keep()) <= en.Keep()
    ensures en.pins == old(en.pins) + multiset(held)
    ensures Built(en.ws, en.nodes, Minus, f, map[TRUE := u], g, res, PairsOf(map[TRUE := u], g)) &&
            res.Keys <= en.Keep()
    decreases LEAF_FIELD - f, 1
  {
    var e := map[TRUE := u];
    ghost var s0, k0, base := en.nodes, en.Keep(), en.pins;
    en.KeepClosed();
    BuiltNothing(en.ws, en.nodes, Minus, f, e, g);
    res, held := map[], [];
    var todo := PairsOf(e, g);
    assert PairsOf(e, g) - todo == {};
    while todo != {}
      invariant en.Valid() && Keeps(s0, en.nodes, k0) && k0 <= en.Keep() && en.pins == base + multiset(held)
      invariant todo <= PairsOf(e, g) && en.raised == old(en.raised)
      invariant Built(en.ws, en.nodes, Minus, f, e, g, res, PairsOf(e, g) - todo) && res.Keys <= en.Keep()
      decreases |todo|
    {
      var p :| p in todo;
      assert PairsOf(e, g) - todo + {p} == PairsOf(e, g) - (todo - {p});
      res, held := NotOne(en, f, u, g, res, held, PairsOf(e, g) - todo, p.1, s0, k0, base);
      todo := todo - {p};
    }
    assert PairsOf(e, g) - todo == PairsOf(e, g);
  }

  method NotOne(en: Engine, f: nat, u: Label, g: Edges, res0: Edges, held0: seq<Id>, ghost done: set<(Id, Id)>, d: Id,
                ghost s0: Store, ghost k0: set<Id>, ghost base: multiset<Id>)
    returns (res: Edges, held: seq<Id>)
    requires en.Valid() && en.boolean && 1 <= f <= |en.ws| && u == FieldUniv(en.ws, f) && f < LEAF_FIELD
    requires Built(en.ws, en.nodes, Minus, f, map[TRUE := u], g, res0, done) && d in g && (TRUE, d) !in done
    requires Keeps(s0, en.nodes, k0) && k0 <= en.Keep() && g.Keys <= k0
    requires en.pins == base + multiset(held0) && res0.Keys <= en.Keep()
    modifies en
    ensures en.raised == old(en.raised)
    ensures en.Valid() && Keeps(s0, en.nodes, k0) && k0 <= en.Keep() && en.pins == base + multiset(held)
    ensures Built(en.ws, en.nodes, Minus, f, map[TRUE := u], g, res, done + {(TRUE, d)}) && res.Keys <= en.Keep()
    decreases LEAF_FIELD - f, 0
  {
    ghost var s1, k1 := en.nodes, en.Keep();
    en.KeepClosed();
    EdgesAll(en.ws, en.nodes, f, g);
    LevelBound(en.ws, en.nodes, d);
    var r := Not(en, d);
    KeepsTrans(s0, s1, en.nodes, k0, k1);
    ComplementEdges(en.ws, s1, f, u, g, d);
    PairStep(en.ws, s1, en.nodes, k1, Minus, f, map[TRUE := u], g, res0, done, (TRUE, d), r);
    res, held := en.Merge(res0, r, g[d], held0, base);
  }

  // ---------------------------------------------------------------- identities

  /** Operands determine the result node, for division too: caching, scheduling and the choice of
      algorithm cannot change it. */
  lemma ResultUnique(ws: Widths, s: Store, op: Op, a: Id, b: Id, r: Id, q: Id)
    requires Computes(ws, s, op, a, b, r) && Computes(ws, s, op, a, b, q)
    ensures r == q
  {
    forall v | Fits(ws, v) ensures Eval(ws, s, r, v) == Eval(ws, s, q, v) {
      assert ResultAt(ws, s, op, a, b, r, v) && ResultAt(ws, s, op, a, b, q, v);
    }
    Canonicity(ws, s, r, q);
  }

  /** NOT is an involution on nodes. */
  lemma NotNot(ws: Widths, s: Store, a: Id, n: Id, m: Id)
    requires Computes(ws, s, Minus, TRUE, a, n) && Computes(ws, s, Minus, TRUE, n, m)
    ensures m == a
  {
    forall v | Fits(ws, v) ensures Eval(ws, s, m, v) == Eval(ws, s, a, v) {
      assert ResultAt(ws, s, Minus, TRUE, a, n, v) && ResultAt(ws, s, Minus, TRUE, n, m, v);
    }
    Canonicity(ws, s, m, a);
  }

  /** not(not a and not b) computes a or b. */
  lemma DeMorganValue(ws: Widths, s: Store, a: Id, b: Id, na: Id, nb: Id, c: Id, r: Id)
    requires BoolStore(s) && Computes(ws, s, Minus, TRUE, a, na) && Computes(ws, s, Minus, TRUE, b, nb)
    requires Computes(ws, s, And, na, nb, c) && Computes(ws, s, Minus, TRUE, c, r)
    ensures Computes(ws, s, Or, a, b, r)
  {
    LevelBound(ws, s, a);
    LevelBound(ws, s, b);
    LevelBound(ws, s, c);
    forall v | Fits(ws, v) ensures ResultAt(ws, s, Or, a, b, r, v) {
      SentinelValues(ws, s, v);
      EvalBool(ws, s, a, v);
      EvalBool(ws, s, b, v);
      assert ResultAt(ws, s, Minus, TRUE, a, na, v) && ResultAt(ws, s, Minus, TRUE, b, nb, v);
      assert ResultAt(ws, s, And, na, nb, c, v) && ResultAt(ws, s, Minus, TRUE, c, r, v);
    }
  }

  /** The De Morgan form and OR itself return the same node. */
  lemma DeMorganSameNode(ws: Widths, s: Store, a: Id, b: Id, na: Id, nb: Id, c: Id, r: Id, o: Id)
    requires BoolStore(s) && Computes(ws, s, Minus, TRUE, a, na) && Computes(ws, s, Minus, TRUE, b, nb)
    requires Computes(ws, s, And, na, nb, c) && Computes(ws, s, Minus, TRUE, c, r) && Computes(ws, s, Or, a, b, o)
    ensures r == o
  {
    DeMorganValue(ws, s, a, b, na, nb, c, r);
    ResultUnique(ws, s, Or, a, b, r, o);
  }

  /** Drop the references held on intermediates; what had to be kept before still is. */
  method GiveBack(en: Engine, held: seq<Id>, ghost s0: Store, ghost k0: set<Id>, ghost base: multiset<Id>)
    requires en.Valid() && en.pins == base + multiset(held) && Wf(en.ws, s0) && en.Kept(s0, k0, base)
    requires Keeps(s0, en.nodes, k0)
    modifies en`rc, en`pins
    ensures en.Valid() && en.pins == base && k0 <= en.Keep()
  {
    en.Unpin(held);
    en.KeptStays(s0, k0, base);
  }

  /** OR through De Morgan, holding a reference on each intermediate. */
  method OrDeMorgan(en: Engine, a: Id, b: Id) returns (r: Id)
    requires en.Valid() && en.boolean && a in en.Keep() && b in en.Keep()
    modifies en
    ensures en.raised == old(en.raised)
    ensures en.Valid() && en.pins == old(en.pins) && Keeps(old(en.nodes), en.nodes, old(en.Keep())) &&
            old(en.Keep()) <= en.Keep()
    ensures Computes(en.ws, en.nodes, Or, a, b, r)
  {
    ghost var s0, k0, base := en.nodes, en.Keep(), en.pins;
    var na, nb, held := TwoNots(en, a, b);
    ghost var s1, k1 := en.nodes, en.Keep();
    r := NotAnd(en, a, b, na, nb);
    KeepsTrans(s0, s1, en.nodes, k0, k1);
    GiveBack(en, held, s0, k0, base);
  }

  method NotAnd(en: Engine, a: Id, b: Id, na: Id, nb: Id) returns (r: Id)
    requires en.Valid() && en.boolean && a in en.Keep() && b in en.Keep() && na in en.Keep() && nb in en.Keep()
    requires Computes(en.ws, en.nodes, Minus, TRUE, a, na) && Computes(en.ws, en.nodes, Minus, TRUE, b, nb)
    modifies en
    ensures en.raised == old(en.raised)
    ensures en.Valid() && en.pins == old(en.pins) && Keeps(old(en.nodes), en.nodes, old(en.Keep())) &&
            old(en.Keep()) <= en.Keep()
    ensures Computes(en.ws, en.nodes, Or, a, b, r)
  {
    ghost var s0, k0, base := en.nodes, en.Keep(), en.pins;
    en.KeepClosed();
    var c := And2(en, na, nb);
    ComputesKept(en.ws, s0, en.nodes, k0, Minus, TRUE, a, na);
    ComputesKept(en.ws, s0, en.nodes, k0, Minus, TRUE, b, nb);
    var held := en.Hold(c, [], base);
    ghost var s1, k1 := en.nodes, en.Keep();
    r := LastNot(en, a, b, na, nb, c);
    KeepsTrans(s0, s1, en.nodes, k0, k1);
    GiveBack(en, held, s0, k0, base);
  }

  method TwoNots(en: Engine, a: Id, b: Id) returns (na: Id, nb: Id, held: seq<Id>)
    requires en.Valid() && en.boolean && a in en.Keep() && b in en.Keep()
    modifies en
    ensures en.raised == old(en.raised)
    ensures en.Valid() && en.pins == old(en.pins) + multiset(held)
    ensures Keeps(old(en.nodes), en.nodes, old(en.Keep())) && old(en.Keep()) <= en.Keep()
    ensures Computes(en.ws, en.nodes, Minus, TRUE, a, na) && Computes(en.ws, en.nodes, Minus, TRUE, b, nb)
    ensures na in en.Keep() && nb in en.Keep()
  {
    ghost var s0, k0, base := en.nodes, en.Keep(), en.pins;
    na := Not(en, a);
    ghost var s1 := en.nodes;
    held := en.Hold(na, [], base);
    ghost var k1 := en.Keep();
    en.KeepClosed();
    nb := Not(en, b);
    KeepsTrans(s0, s1, en.nodes, k0, k1);
    ComputesKept(en.ws, s1, en.nodes, k1, Minus, TRUE, a, na);
    held := en.Hold(nb, held, base);
  }

  method LastNot(en: Engine, a: Id, b: Id, na: Id, nb: Id, c: Id) returns (r: Id)
    requires en.Valid() && en.boolean && a in en.Keep() && b in en.Keep() && na in en.Keep() && nb in en.Keep()
    requires c in en.Keep()
    requires Computes(en.ws, en.nodes, Minus, TRUE, a, na) && Computes(en.ws, en.nodes, Minus, TRUE, b, nb)
    requires Computes(en.ws, en.nodes, And, na, nb, c)
    modifies en
    ensures en.raised == old(en.raised)
    ensures en.Valid() && en.pins == old(en.pins) && Keeps(old(en.nodes), en.nodes, old(en.Keep())) &&
            old(en.Keep()) <= en.Keep()
    ensures Computes(en.ws, en.nodes, Or, a, b, r)
  {
    ghost var ws := en.ws;
    ghost var s, k := en.nodes, en.Keep();
    en.KeepClosed();
    r := Not(en, c);
    ComputesKept(ws, s, en.nodes, k, Minus, TRUE, a, na);
    ComputesKept(ws, s, en.nodes, k, Minus, TRUE, b, nb);
    ComputesKept(ws, s, en.nodes, k, And, na, nb, c);
    DeMorganValue(ws, en.nodes, a, b, na, nb, c, r);
  }

  /** AND and OR always return a node. */
  method And2(en: Engine, a: Id, b: Id) returns (r: Id)
    requires en.Valid() && en.boolean && a in en.Keep() && b in en.Keep()
    modifies en
    ensures en.raised == old(en.raised)
    ensures en.Valid() && en.pins == old(en.pins) && Keeps(old(en.nodes), en.nodes, old(en.Keep())) &&
            old(en.Keep()) <= en.Keep()
    ensures Computes(en.ws, en.nodes, And, a, b, r)
  {
    var o := en.Apply(And, a, b);
    r := o.id;
  }

  method Or2(en: Engine, a: Id, b: Id) returns (r: Id)
    requires en.Valid() && en.boolean && a in en.Keep() && b in en.Keep()
    modifies en
    ensures en.Valid() && en.pins == old(en.pins) && Keeps(old(en.nodes), en.nodes, old(en.Keep())) &&
            old(en.Keep()) <= en.Keep()
    ensures Computes(en.ws, en.nodes, Or, a, b, r)
  {
    var o := en.Apply(Or, a, b);
    r := o.id;
  }

  ghost predicate DiffAt(ws: Widths, s: Store, a: Id, b: Id, r: Id, v: Assignment)
    requires Wf(ws, s) && a in s && b in s && r in s && Fits(ws, v)
  {
    Eval(ws, s, r, v) == if Eval(ws, s, a, v) != 0.0 && Eval(ws, s, b, v) == 0.0 then 1.0 else 0.0
  }

  /** A node among k is the complement of b. */
  ghost predicate HasComplement(ws: Widths, s: Store, k: set<Id>, b: Id) {
    exists n :: n in k && Computes(ws, s, Minus, TRUE, b, n)
  }

  /** a and not b. The complement is not referenced meanwhile: where a collection may run, some
      node that is kept must be the complement already. */
  method Diff(en: Engine, a: Id, b: Id) returns (r: Id)
    requires en.Valid() && en.boolean && a in en.Keep() && b in en.Keep()
    requires en.collects ==> HasComplement(en.ws, en.nodes, en.Keep(), b)
    modifies en
    ensures en.raised == old(en.raised)
    ensures en.Valid() && en.pins == old(en.pins) && Keeps(old(en.nodes), en.nodes, old(en.Keep())) &&
            old(en.Keep()) <= en.Keep()
    ensures a in en.nodes && b in en.nodes && r in en.nodes
    ensures forall v {:trigger Fits(en.ws, v)} :: Fits(en.ws, v) ==> DiffAt(en.ws, en.nodes, a, b, r, v)
  {
    ghost var s0, k0 := en.nodes, en.Keep();
    en.KeepClosed();
    var nb := Not(en, b);
    if en.collects { ComplementKept(en.ws, s0, en.nodes, k0, b, nb); }
    ghost var s1, k1 := en.nodes, en.Keep();
    en.KeepClosed();
    r := And2(en, a, nb);
    KeepsTrans(s0, s1, en.nodes, k0, k1);
    ComputesKept(en.ws, s1, en.nodes, k1, Minus, TRUE, b, nb);
    DiffValue(en.ws, en.nodes, a, b, nb, r);
  }

  lemma DiffValue(ws: Widths, s: Store, a: Id, b: Id, nb: Id, r: Id)
    requires BoolStore(s) && Computes(ws, s, Minus, TRUE, b, nb) && Computes(ws, s, And, a, nb, r)
    ensures forall v {:trigger Fits(ws, v)} :: Fits(ws, v) ==> DiffAt(ws, s, a, b, r, v)
  {
    forall v | Fits(ws, v) ensures DiffAt(ws, s, a, b, r, v) {
      SentinelValues(ws, s, v);
      EvalBool(ws, s, b, v);
      assert ResultAt(ws, s, Minus, TRUE, b, nb, v) && ResultAt(ws, s, And, a, nb, r, v);
    }
  }

  /** A complement that was kept is the complement. */
  lemma ComplementKept(ws: Widths, s: Store, t: Store, k: set<Id>, b: Id, nb: Id)
    requires Wf(ws, s) && Wf(ws, t) && Closed(s, k) && Keeps(s, t, k) && TRUE in k && b in k
    requires HasComplement(ws, s, k, b) && Computes(ws, t, Minus, TRUE, b, nb)
    ensures nb in k
  {
    var n :| n in k && Computes(ws, s, Minus, TRUE, b, n);
    ComputesKept(ws, s, t, k, Minus, TRUE, b, n);
    ResultUnique(ws, t, Minus, TRUE, b, n, nb);
  }

  lemma ComplementBefore(ws: Widths, s: Store, t: Store, k: set<Id>, b: Id, nb: Id)
    requires Wf(ws, s) && Wf(ws, t) && Closed(s, k) && Keeps(s, t, k) && TRUE in k && b in k && nb in k && k <= s.Keys
    requires Computes(ws, t, Minus, TRUE, b, nb)
    ensures Computes(ws, s, Minus, TRUE, b, nb)
  {
    assert KeptAt(s, t, b) && KeptAt(s, t, nb) && KeptAt(s, t, TRUE);
    forall v | Fits(ws, v) ensures ResultAt(ws, s, Minus, TRUE, b, nb, v) {
      EvalKept(ws, s, t, k, b, v);
      EvalKept(ws, s, t, k, nb, v);
      EvalKept(ws, s, t, k, TRUE, v);
      assert ResultAt(ws, t, Minus, TRUE, b, nb, v);
    }
  }

  /** The moment in a difference at which the complement is not referenced. A collection there
      takes it exactly when no live node was the complement before the call (sticky counts and
      counts that an OR has raised aside). */
  method DiffGap(en: Engine, b: Id) returns (nb: Id, ghost gap: Store, ghost sticky: set<Id>)
    requires en.Valid() && en.boolean && b in LiveSet(en.ws, en.nodes, en.pins) && !en.raised
    modifies en
    ensures en.Valid() && en.pins == old(en.pins)
    ensures Computes(en.ws, gap, Minus, TRUE, b, nb)
    ensures sticky == {} ==>
              (nb in en.nodes <==> HasComplement(en.ws, old(en.nodes), old(LiveSet(en.ws, en.nodes, en.pins)), b))
  {
    ghost var s0, k0, p := en.nodes, LiveSet(en.ws, en.nodes, en.pins), en.pins;
    LiveClosed(en.ws, s0, p);
    nb := Not(en, b);
    gap, sticky := en.nodes, Sticky(en.nodes, en.rc);
    KeepsLess(s0, gap, k0, if en.collects then k0 else s0.Keys);
    assert sticky == {} ==> Roots(gap, en.rc, p) == p;
    en.Collect();
    GapLive(en.ws, s0, gap, p, b, nb);
  }

  lemma GapLive(ws: Widths, s: Store, t: Store, pins: multiset<Id>, b: Id, nb: Id)
    requires Wf(ws, s) && Wf(ws, t) && Keeps(s, t, LiveSet(ws, s, pins)) && (forall i :: i in pins ==> i in s)
    requires b in LiveSet(ws, s, pins) && Computes(ws, t, Minus, TRUE, b, nb)
    ensures nb in LiveSet(ws, t, pins) <==> HasComplement(ws, s, LiveSet(ws, s, pins), b)
  {
    var k := LiveSet(ws, s, pins);
    LiveClosed(ws, s, pins);
    LiveSetStays(ws, s, t, pins, pins);
    if HasComplement(ws, s, k, b) { ComplementKept(ws, s, t, k, b, nb); }
    if nb in LiveSet(ws, t, pins) {
      LiveNoNew(ws, s, t, pins, nb);
      ComplementBefore(ws, s, t, k, b, nb);
    }
  }

  // ---------------------------------------------------------------- shared caches

  /** AND and TIMES share a cache: on 0/1 diagrams their answers coincide. */
  lemma AndIsTimes(ws: Widths, s: Store, a: Id, b: Id, r: Id)
    requires Wf(ws, s) && BoolStore(s)
    ensures Computes(ws, s, And, a, b, r) <==> Computes(ws, s, Times, a, b, r)
  {
    if a in s && b in s && r in s {
      forall v | Fits(ws, v) ensures ResultAt(ws, s, And, a, b, r, v) <==> ResultAt(ws, s, Times, a, b, r, v) {
        EvalBool(ws, s, a, v);
        EvalBool(ws, s, b, v);
        SmallRepresentable();
      }
    }
  }

  ghost predicate NeverBoth(ws: Widths, s: Store, a: Id, b: Id)
    requires Wf(ws, s) && a in s && b in s
  {
    forall v {:trigger Fits(ws, v)} :: Fits(ws, v) ==> Eval(ws, s, a, v) == 0.0 || Eval(ws, s, b, v) == 0.0
  }

  /** OR and PLUS share a cache too: a cached OR answers a PLUS exactly when the operands are
      nowhere both non-zero. This is why Boolean and arithmetic runs must not be mixed. */
  lemma OrIsPlusWhenApart(ws: Widths, s: Store, a: Id, b: Id, r: Id)
    requires BoolStore(s) && Computes(ws, s, Or, a, b, r)
    ensures Computes(ws, s, Plus, a, b, r) <==> NeverBoth(ws, s, a, b)
  {
    forall v | Fits(ws, v)
      ensures ResultAt(ws, s, Plus, a, b, r, v) <==> Eval(ws, s, a, v) == 0.0 || Eval(ws, s, b, v) == 0.0
    {
      EvalBool(ws, s, a, v);
      EvalBool(ws, s, b, v);
      SmallRepresentable();
      assert ResultAt(ws, s, Or, a, b, r, v);
    }
  }

  // ---------------------------------------------------------------- tree reduction

  /** The value of a whole list combined with AND or OR. */
  ghost function ListAt(ws: Widths, s: Store, op: Op, xs: seq<Id>, v: Assignment): real
    requires Wf(ws, s) && Fits(ws, v) && forall i :: 0 <= i < |xs| ==> xs[i] in s
  {
    if op.And? then
      if forall i :: 0 <= i < |xs| ==> Eval(ws, s, xs[i], v) != 0.0 then 1.0 else 0.0
    else
      if exists i :: 0 <= i < |xs| && Eval(ws, s, xs[i], v) != 0.0 then 1.0 else 0.0
  }

  ghost predicate Reduces(ws: Widths, s: Store, op: Op, xs: seq<Id>, r: Id) {
    && Wf(ws, s) && r in s && (forall i :: 0 <= i < |xs| ==> xs[i] in s)
    && forall v {:trigger Fits(ws, v)} :: Fits(ws, v) ==> Eval(ws, s, r, v) == ListAt(ws, s, op, xs, v)
  }

  lemma ListSplit(ws: Widths, s: Store, op: Op, xs: seq<Id>, m: nat, l: Id, q: Id, r: Id)
    requires BooleanOp(op) && BoolStore(s) && m <= |xs|
    requires Reduces(ws, s, op, xs[..m], l) && Reduces(ws, s, op, xs[m..], q) && Computes(ws, s, op, l, q, r)
    ensures Reduces(ws, s, op, xs, r)
  {
    forall i | 0 <= i < |xs| ensures xs[i] in s {
      if i < m { assert xs[i] == xs[..m][i]; } else { assert xs[i] == xs[m..][i - m]; }
    }
    forall v | Fits(ws, v) ensures Eval(ws, s, r, v) == ListAt(ws, s, op, xs, v) {
      assert ResultAt(ws, s, op, l, q, r, v);
      ListSplitAt(ws, s, op, xs, m, v);
    }
  }

  lemma ListSplitAt(ws: Widths, s: Store, op: Op, xs: seq<Id>, m: nat, v: Assignment)
    requires Wf(ws, s) && Fits(ws, v) && BooleanOp(op) && m <= |xs| && forall i :: 0 <= i < |xs| ==> xs[i] in s
    ensures var x, y := ListAt(ws, s, op, xs[..m], v), ListAt(ws, s, op, xs[m..], v);
            Agrees(op, x, y, ListAt(ws, s, op, xs, v))
  {
    assert forall i :: m <= i < |xs| ==> xs[i] == xs[m..][i - m];
    assert forall i :: 0 <= i < m ==> xs[i] == xs[..m][i];
  }

  lemma ListOne(ws: Widths, s: Store, op: Op, a: Id)
    requires Wf(ws, s) && BoolStore(s) && a in s && BooleanOp(op)
    ensures Reduces(ws, s, op, [a], a)
  {
    forall v | Fits(ws, v) ensures Eval(ws, s, a, v) == ListAt(ws, s, op, [a], v) {
      EvalBool(ws, s, a, v);
      assert [a][0] == a;
    }
  }

  function Unit(op: Op): Id { if op.And? then TRUE else FALSE }

  lemma ListNone(ws: Widths, s: Store, op: Op)
    requires Wf(ws, s) && BooleanOp(op)
    ensures Reduces(ws, s, op, [], Unit(op))
  {
    forall v | Fits(ws, v) ensures Eval(ws, s, Unit(op), v) == ListAt(ws, s, op, [], v) {
      SentinelValues(ws, s, v);
    }
  }

  lemma ReducesKept(ws: Widths, s: Store, t: Store, k: set<Id>, op: Op, xs: seq<Id>, r: Id)
    requires Reduces(ws, s, op, xs, r) && Wf(ws, t) && Closed(s, k) && Keeps(s, t, k) && r in k
    requires forall i :: 0 <= i < |xs| ==> xs[i] in k
    ensures Reduces(ws, t, op, xs, r)
  {
    assert KeptAt(s, t, r);
    forall i | 0 <= i < |xs| ensures xs[i] in t { assert KeptAt(s, t, xs[i]); }
    forall v | Fits(ws, v) ensures Eval(ws, t, r, v) == ListAt(ws, t, op, xs, v) {
      EvalKept(ws, s, t, k, r, v);
      forall i | 0 <= i < |xs| ensures Eval(ws, s, xs[i], v) == Eval(ws, t, xs[i], v) {
        EvalKept(ws, s, t, k, xs[i], v);
      }
    }
  }

  /** Reduce a list by splitting it in the middle, right half first. */
  method Reduce(en: Engine, op: Op, xs: seq<Id>) returns (r: Id)
    requires en.Valid() && en.boolean && BooleanOp(op) && forall i :: 0 <= i < |xs| ==> xs[i] in en.Keep()
    modifies en
    ensures en.raised == old(en.raised) || op.Or?
    ensures en.Valid() && en.pins == old(en.pins) && Keeps(old(en.nodes), en.nodes, old(en.Keep())) &&
            old(en.Keep()) <= en.Keep()
    ensures Reduces(en.ws, en.nodes, op, xs, r)
    decreases |xs|
  {
    if |xs| == 0 {
      ListNone(en.ws, en.nodes, op);
      r := Unit(op);
    } else if |xs| == 1 {
      ListOne(en.ws, en.nodes, op, xs[0]);
      assert xs == [xs[0]];
      r := xs[0];
    } else {
      r := ReduceHalves(en, op, xs, |xs| / 2);
    }
  }

  method ReduceHalves(en: Engine, op: Op, xs: seq<Id>, mid: nat) returns (r: Id)
    requires en.Valid() && en.boolean && BooleanOp(op) && forall i :: 0 <= i < |xs| ==> xs[i] in en.Keep()
    requires 0 < mid < |xs|
    modifies en
    ensures en.raised == old(en.raised) || op.Or?
    ensures en.Valid() && en.pins == old(en.pins) && Keeps(old(en.nodes), en.nodes, old(en.Keep())) &&
            old(en.Keep()) <= en.Keep()
    ensures Reduces(en.ws, en.nodes, op, xs, r)
    decreases |xs|, 0
  {
    ghost var ws := en.ws;
    ghost var s0, k0, base := en.nodes, en.Keep(), en.pins;
    var right := Reduce(en, op, xs[mid..]);
    ghost var s1 := en.nodes;
    var held := en.Hold(right, [], base);
    ghost var k1 := en.Keep();
    en.KeepClosed();
    var left := Reduce(en, op, xs[..mid]);
    KeepsTrans(s0, s1, en.nodes, k0, k1);
    ReducesKept(ws, s1, en.nodes, k1, op, xs[mid..], right);
    held := en.Hold(left, held, base);
    ghost var s2, k2 := en.nodes, en.Keep();
    r := Join(en, op, xs, mid, left, right);
    KeepsTrans(s0, s2, en.nodes, k0, k2);
    GiveBack(en, held, s0, k0, base);
  }

  method Join(en: Engine, op: Op, ghost xs: seq<Id>, ghost mid: nat, left: Id, right: Id) returns (r: Id)
    requires en.Valid() && en.boolean && BooleanOp(op) && left in en.Keep() && right in en.Keep() && mid <= |xs|
    requires forall i :: 0 <= i < |xs| ==> xs[i] in en.Keep()
    requires Reduces(en.ws, en.nodes, op, xs[..mid], left) && Reduces(en.ws, en.nodes, op, xs[mid..], right)
    modifies en
    ensures en.raised == old(en.raised) || op.Or?
    ensures en.Valid() && en.pins == old(en.pins) && Keeps(old(en.nodes), en.nodes, old(en.Keep())) &&
            old(en.Keep()) <= en.Keep()
    ensures Reduces(en.ws, en.nodes, op, xs, r)
  {
    ghost var s, k := en.nodes, en.Keep();
    en.KeepClosed();
    var o := en.Apply(op, left, right);
    r := o.id;
    ReducesKept(en.ws, s, en.nodes, k, op, xs[mid..], right);
    ReducesKept(en.ws, s, en.nodes, k, op, xs[..mid], left);
    ListSplit(en.ws, en.nodes, op, xs, mid, left, right, r);
  }

  /** Tree reduction returns the node that combining the list from left to right returns. */
  lemma {:induction false} ReduceIsLeftFold(ws: Widths, s: Store, op: Op, xs: seq<Id>, acc: seq<Id>, r: Id)
    requires BooleanOp(op) && BoolStore(s) && Reduces(ws, s, op, xs, r)
    requires |acc| == |xs| + 1 && acc[0] == Unit(op)
    requires forall i :: 0 <= i < |xs| ==> Computes(ws, s, op, acc[i], xs[i], acc[i + 1])
    ensures r == acc[|xs|]
  {
    FoldReduces(ws, s, op, xs, acc, |xs|);
    assert xs[..|xs|] == xs;
    forall v | Fits(ws, v) ensures Eval(ws, s, r, v) == Eval(ws, s, acc[|xs|], v) {}
    Canonicity(ws, s, r, acc[|xs|]);
  }

  lemma {:induction false} FoldReduces(ws: Widths, s: Store, op: Op, xs: seq<Id>, acc: seq<Id>, n: nat)
    requires Wf(ws, s) && BooleanOp(op) && BoolStore(s) && n <= |xs| && |acc| == |xs| + 1 && acc[0] == Unit(op)
    requires forall i :: 0 <= i < |xs| ==> Computes(ws, s, op, acc[i], xs[i], acc[i + 1])
    ensures Reduces(ws, s, op, xs[..n], acc[n])
    decreases n
  {
    if n == 0 {
      ListNone(ws, s, op);
    } else {
      FoldReduces(ws, s, op, xs, acc, n - 1);
      var ys := xs[..n];
      assert ys[..n - 1] == xs[..n - 1] && ys[n - 1..] == [xs[n - 1]];
      assert Computes(ws, s, op, acc[n - 1], xs[n - 1], acc[n - 1 + 1]);
      ListOne(ws, s, op, xs[n - 1]);
      ListSplit(ws, s, op, ys, n - 1, acc[n - 1], xs[n - 1], acc[n]);
    }
  }
}
