/** Pointwise meaning of the binary operations, and the invariants of the loops that build the
    result's edge map region by region. */
module Operations {
  import opened Labels
  import opened Fractions
  import opened Diagram
  import opened EdgeAlgebra
  import opened Division

  datatype Op = And | Or | Plus | Minus | Times | Divide

  /** Operations that keep a value where the other operand is zero. */
  predicate Additive(op: Op) { op.Or? || op.Plus? || op.Minus? }

  predicate Commutative(op: Op) { !op.Minus? && !op.Divide? }

  predicate BooleanOp(op: Op) { op.And? || op.Or? }

  /** The operation has a result at operand values x and y. */
  ghost predicate DefinedAt(op: Op, x: real, y: real) {
    match op
    case And => true
    case Or => true
    case Plus => Representable(x + y)
    case Minus => Representable(x - y)
    case Times => Representable(x * y)
    case Divide => if y == 0.0 then x == 0.0 else Representable(x / y)
  }

  /** z is the result at operand values x and y. */
  ghost predicate Agrees(op: Op, x: real, y: real, z: real) {
    match op
    case And => z == if x != 0.0 && y != 0.0 then 1.0 else 0.0
    case Or => z == if x != 0.0 || y != 0.0 then 1.0 else 0.0
    case Plus => z == x + y
    case Minus => z == x - y
    case Times => z == x * y
    case Divide => y != 0.0 ==> z == x / y
  }

  // ---------------------------------------------------------------- value domains

  ghost predicate BoolStore(s: Store) {
    forall i :: i in s && s[i].Leaf? ==> i == FALSE || i == TRUE
  }

  ghost predicate RepLeaf(s: Store, i: Id)
    requires i in s
  {
    s[i].Leaf? ==> Representable(s[i].value)
  }

  ghost predicate RepLeaves(s: Store) {
    forall i {:trigger RepLeaf(s, i)} :: i in s ==> RepLeaf(s, i)
  }

  /** Operand domain: Boolean operations work on 0/1 diagrams. */
  ghost predicate Domain(op: Op, s: Store) {
    RepLeaves(s) && (BooleanOp(op) ==> BoolStore(s))
  }

  lemma {:induction false} EvalBool(ws: Widths, s: Store, a: Id, v: Assignment)
    requires Wf(ws, s) && BoolStore(s) && a in s && Fits(ws, v)
    ensures Eval(ws, s, a, v) == 0.0 || Eval(ws, s, a, v) == 1.0
    decreases LEAF_FIELD - Level(s, a)
  {
    if s[a].Internal? {
      NodeChild(ws, s, a, v);
      EvalBool(ws, s, ChildAt(s[a].edges, v[s[a].field - 1]), v);
    }
  }

  lemma {:induction false} EvalRepresentable(ws: Widths, s: Store, a: Id, v: Assignment)
    requires Wf(ws, s) && RepLeaves(s) && a in s && Fits(ws, v)
    ensures Representable(Eval(ws, s, a, v))
    decreases LEAF_FIELD - Level(s, a)
  {
    if s[a].Internal? {
      NodeChild(ws, s, a, v);
      EvalRepresentable(ws, s, ChildAt(s[a].edges, v[s[a].field - 1]), v);
    } else {
      assert RepLeaf(s, a);
    }
  }

  lemma SmallRepresentable()
    ensures Representable(0.0) && Representable(1.0)
  {
    assert IsRatio(0.0, 0, 1);
    assert IsRatio(1.0, 1, 1);
  }

  // ---------------------------------------------------------------- results

  ghost predicate ResultAt(ws: Widths, s: Store, op: Op, a: Id, b: Id, r: Id, v: Assignment)
    requires Wf(ws, s) && a in s && b in s && r in s && Fits(ws, v)
  {
    var x, y := Eval(ws, s, a, v), Eval(ws, s, b, v);
    && DefinedAt(op, x, y) && Agrees(op, x, y, Eval(ws, s, r, v))
    && (op.Divide? ==> Eval(ws, s, r, v) == QuotAt(ws, s, a, b, v))
  }

  /** r is the pointwise result of op on a and b, which is defined everywhere. */
  ghost predicate Computes(ws: Widths, s: Store, op: Op, a: Id, b: Id, r: Id) {
    && Wf(ws, s) && a in s && b in s && r in s
    && Level(s, r) >= Min(Level(s, a), Level(s, b))
    && forall v {:trigger Fits(ws, v)} :: Fits(ws, v) ==> ResultAt(ws, s, op, a, b, r, v)
  }

  /** Somewhere op has no result on a and b. */
  ghost predicate Undefined(ws: Widths, s: Store, op: Op, a: Id, b: Id) {
    && Wf(ws, s) && a in s && b in s
    && exists v {:trigger Fits(ws, v)} :: Fits(ws, v) && !DefinedAt(op, Eval(ws, s, a, v), Eval(ws, s, b, v))
  }

  lemma NotBoth(ws: Widths, s: Store, op: Op, a: Id, b: Id, r: Id)
    requires Computes(ws, s, op, a, b, r)
    ensures !Undefined(ws, s, op, a, b)
  {}

  lemma ComputesKept(ws: Widths, s: Store, t: Store, k: set<Id>, op: Op, a: Id, b: Id, r: Id)
    requires Computes(ws, s, op, a, b, r) && Wf(ws, t) && Closed(s, k) && Keeps(s, t, k)
    requires a in k && b in k && r in k
    ensures Computes(ws, t, op, a, b, r)
  {
    assert KeptAt(s, t, a) && KeptAt(s, t, b) && KeptAt(s, t, r);
    forall v | Fits(ws, v) ensures ResultAt(ws, t, op, a, b, r, v) {
      EvalKept(ws, s, t, k, a, v);
      EvalKept(ws, s, t, k, b, v);
      EvalKept(ws, s, t, k, r, v);
      if op.Divide? { QuotKept(ws, s, t, k, a, b, v); }
      assert ResultAt(ws, s, op, a, b, r, v);
    }
  }

  lemma AgreesSym(op: Op, x: real, y: real, z: real)
    requires Commutative(op) && DefinedAt(op, x, y) && Agrees(op, x, y, z)
    ensures DefinedAt(op, y, x) && Agrees(op, y, x, z)
  {
    assert x + y == y + x && x * y == y * x;
  }

  lemma ComputesSym(ws: Widths, s: Store, op: Op, a: Id, b: Id, r: Id)
    requires Computes(ws, s, op, a, b, r) && Commutative(op)
    ensures Computes(ws, s, op, b, a, r)
  {
    forall v | Fits(ws, v) ensures ResultAt(ws, s, op, b, a, r, v) {
      assert ResultAt(ws, s, op, a, b, r, v);
      AgreesSym(op, Eval(ws, s, a, v), Eval(ws, s, b, v), Eval(ws, s, r, v));
    }
  }

  // ---------------------------------------------------------------- cases without recursion

  datatype Quick = Hit(id: Id) | Miss | Fail

  /** The operand tests each operation makes before it recurses. */
  function FastPath(op: Op, a: Id, b: Id): Quick {
    match op
    case And =>
      if a == FALSE || b == TRUE then Hit(a)
      else if b == FALSE || a == TRUE || a == b then Hit(b)
      else Miss
    case Or =>
      if a == TRUE || b == FALSE then Hit(a)
      else if b == TRUE || a == FALSE || a == b then Hit(b)
      else Miss
    case Plus =>
      if a == FALSE then Hit(b)
      else if b == FALSE then Hit(a)
      else Miss
    case Minus =>
      if b == FALSE then Hit(a)
      else if a == b then Hit(FALSE)
      else Miss
    case Times =>
      if a == FALSE || b == FALSE then Hit(FALSE)
      else if a == TRUE then Hit(b)
      else if b == TRUE then Hit(a)
      else Miss
    case Divide =>
      if b == FALSE then Fail
      else if a == FALSE then Hit(FALSE)
      else if b == TRUE then Hit(a)
      else if a == b then Hit(TRUE)
      else Miss
  }

  lemma FastValue(op: Op, x: real, y: real, same: bool)
    requires BooleanOp(op) ==> (x == 0.0 || x == 1.0) && (y == 0.0 || y == 1.0)
    requires Representable(x) && Representable(y) && (same ==> x == y)
    ensures op != Divide && y == 0.0 && op != And && op != Times ==> DefinedAt(op, x, y) && Agrees(op, x, y, x)
    ensures (op.Or? || op.Plus?) && x == 0.0 ==> DefinedAt(op, x, y) && Agrees(op, x, y, y)
    ensures (op.And? || op.Times?) && (x == 0.0 || y == 0.0) ==> DefinedAt(op, x, y) && Agrees(op, x, y, 0.0)
    ensures (op.And? || op.Times? || op.Divide?) && y == 1.0 ==> DefinedAt(op, x, y) && Agrees(op, x, y, x)
    ensures (op.And? || op.Times?) && x == 1.0 ==> DefinedAt(op, x, y) && Agrees(op, x, y, y)
    ensures op.Or? && (x == 1.0 || y == 1.0) ==> Agrees(op, x, y, 1.0)
    ensures BooleanOp(op) && same ==> Agrees(op, x, y, y)
    ensures op.Minus? && same ==> DefinedAt(op, x, y) && Agrees(op, x, y, 0.0)
    ensures op.Divide? && x == 0.0 ==> DefinedAt(op, x, y) && Agrees(op, x, y, 0.0)
    ensures op.Divide? && same ==> DefinedAt(op, x, y) && Agrees(op, x, y, 1.0)
  {
    SmallRepresentable();
    match op
    case Plus => FastPlus(x, y);
    case Minus => FastMinus(x, y);
    case Times => FastTimes(x, y);
    case Divide => FastDivide(x, y);
    case _ =>
  }

  lemma FastPlus(x: real, y: real)
    ensures y == 0.0 ==> x + y == x
    ensures x == 0.0 ==> x + y == y
  {}

  lemma FastMinus(x: real, y: real)
    ensures y == 0.0 ==> x - y == x
    ensures x == y ==> x - y == 0.0
  {}

  lemma FastTimes(x: real, y: real)
    ensures x == 0.0 || y == 0.0 ==> x * y == 0.0
    ensures x == 1.0 ==> x * y == y
    ensures y == 1.0 ==> x * y == x
  {}

  lemma FastDivide(x: real, y: real)
    ensures y == 1.0 ==> x / y == x
    ensures y != 0.0 && x == 0.0 ==> x / y == 0.0
    ensures y != 0.0 && x == y ==> x / y == 1.0
  {}

  lemma FastPathSound(ws: Widths, s: Store, op: Op, a: Id, b: Id)
    requires Wf(ws, s) && Domain(op, s) && a in s && b in s && FastPath(op, a, b).Hit?
    ensures FastPath(op, a, b).id in s && Computes(ws, s, op, a, b, FastPath(op, a, b).id)
  {
    var r := FastPath(op, a, b).id;
    LevelBound(ws, s, a);
    LevelBound(ws, s, b);
    forall v | Fits(ws, v) ensures ResultAt(ws, s, op, a, b, r, v) {
      SentinelValues(ws, s, v);
      OperandFacts(ws, s, op, a, v);
      OperandFacts(ws, s, op, b, v);
      FastValue(op, Eval(ws, s, a, v), Eval(ws, s, b, v), a == b);
    }
  }

  lemma OperandFacts(ws: Widths, s: Store, op: Op, a: Id, v: Assignment)
    requires Wf(ws, s) && Domain(op, s) && a in s && Fits(ws, v)
    ensures Representable(Eval(ws, s, a, v))
    ensures BooleanOp(op) ==> Eval(ws, s, a, v) == 0.0 || Eval(ws, s, a, v) == 1.0
  {
    EvalRepresentable(ws, s, a, v);
    if BooleanOp(op) { EvalBool(ws, s, a, v); }
  }

  // ---------------------------------------------------------------- one level of a diagram

  /** Node a, seen at field f, branches as the edge map e. */
  ghost predicate Denotes(ws: Widths, s: Store, f: nat, e: Edges, a: Id) {
    && Wf(ws, s) && WfEdges(ws, s, f, e) && a in s
    && forall v {:trigger Fits(ws, v)} :: Fits(ws, v) ==> Eval(ws, s, a, v) == EvalEdges(ws, s, f, e, v)
  }

  /** A node of field f branches as its own edges. */
  lemma DenotesOwn(ws: Widths, s: Store, a: Id)
    requires Wf(ws, s) && a in s && s[a].Internal?
    ensures Denotes(ws, s, s[a].field, s[a].edges, a)
  {
    assert WfNode(ws, s, s[a]);
  }

  /** A node below field f branches to itself on every value of f. */
  lemma DenotesBelow(ws: Widths, s: Store, f: nat, a: Id, u: Label)
    requires Wf(ws, s) && a in s && 1 <= f <= |ws| && Level(s, a) > f && a != FALSE && u == FieldUniv(ws, f)
    ensures Denotes(ws, s, f, map[a := u], a)
  {
    var e := map[a := u];
    assert u != {} by { assert Zeros(ws[f - 1]) in u; }
    forall v | Fits(ws, v) ensures Eval(ws, s, a, v) == EvalEdges(ws, s, f, e, v) {
      ChildAtUnique(e, v[f - 1], a);
    }
  }

  lemma DenotesKept(ws: Widths, s: Store, t: Store, k: set<Id>, f: nat, e: Edges, a: Id)
    requires Denotes(ws, s, f, e, a) && Wf(ws, t) && Closed(s, k) && Keeps(s, t, k)
    requires a in k && e.Keys <= k
    ensures Denotes(ws, t, f, e, a)
  {
    WfEdgesKept(ws, s, t, k, f, e);
    assert KeptAt(s, t, a);
    forall v | Fits(ws, v) ensures Eval(ws, t, a, v) == EvalEdges(ws, t, f, e, v) {
      EvalKept(ws, s, t, k, a, v);
      EvalKept(ws, s, t, k, ChildAt(e, v[f - 1]), v);
    }
  }

  lemma WfEdgesKept(ws: Widths, s: Store, t: Store, k: set<Id>, f: nat, e: Edges)
    requires WfEdges(ws, s, f, e) && Keeps(s, t, k) && e.Keys <= k
    ensures WfEdges(ws, t, f, e)
  {
    forall c | c in e ensures EdgeOk(ws, t, f, e, c) {
      assert EdgeOk(ws, s, f, e, c) && KeptAt(s, t, c);
    }
  }

  // ---------------------------------------------------------------- building region by region

  /** Field values at which the two operands branch to p.0 and p.1. */
  ghost function Region(u: Label, e: Edges, g: Edges, p: (Id, Id)): Label {
    set x | x in u && ChildAt(e, x) == p.0 && ChildAt(g, x) == p.1
  }

  ghost predicate BuiltAt(ws: Widths, s: Store, op: Op, e: Edges, g: Edges, res: Edges, done: set<(Id, Id)>, x: Bits) {
    var p := (ChildAt(e, x), ChildAt(g, x));
    if p in done then Computes(ws, s, op, p.0, p.1, ChildAt(res, x)) else ChildAt(res, x) == FALSE
  }

  /** The result under construction is right on the regions done and empty elsewhere. */
  ghost predicate Built(ws: Widths, s: Store, op: Op, f: nat, e: Edges, g: Edges, res: Edges, done: set<(Id, Id)>) {
    && Wf(ws, s) && WfEdges(ws, s, f, e) && WfEdges(ws, s, f, g) && WfEdges(ws, s, f, res)
    && forall x {:trigger ChildAt(res, x)} :: x in FieldUniv(ws, f) ==> BuiltAt(ws, s, op, e, g, res, done, x)
  }

  lemma BuiltNothing(ws: Widths, s: Store, op: Op, f: nat, e: Edges, g: Edges)
    requires Wf(ws, s) && WfEdges(ws, s, f, e) && WfEdges(ws, s, f, g)
    ensures Built(ws, s, op, f, e, g, map[], {})
  {
    forall x | x in FieldUniv(ws, f) ensures BuiltAt(ws, s, op, e, g, map[], {}, x) {
      assert ChildAt(map[], x) == FALSE;
    }
  }

  lemma BuiltKept(ws: Widths, s: Store, t: Store, k: set<Id>, op: Op, f: nat, e: Edges, g: Edges, res: Edges,
                  done: set<(Id, Id)>)
    requires Built(ws, s, op, f, e, g, res, done) && Wf(ws, t) && Closed(s, k) && Keeps(s, t, k)
    requires e.Keys <= k && g.Keys <= k && res.Keys <= k
    ensures Built(ws, t, op, f, e, g, res, done)
  {
    WfEdgesKept(ws, s, t, k, f, e);
    WfEdgesKept(ws, s, t, k, f, g);
    WfEdgesKept(ws, s, t, k, f, res);
    forall x | x in FieldUniv(ws, f) ensures BuiltAt(ws, t, op, e, g, res, done, x) {
      assert BuiltAt(ws, s, op, e, g, res, done, x);
      var p := (ChildAt(e, x), ChildAt(g, x));
      if p in done {
        ComputesKept(ws, s, t, k, op, p.0, p.1, ChildAt(res, x));
      }
    }
  }

  /** An empty region is done without an edge. */
  lemma BuiltSkip(ws: Widths, s: Store, op: Op, f: nat, e: Edges, g: Edges, res: Edges, done: set<(Id, Id)>,
                  p: (Id, Id))
    requires Built(ws, s, op, f, e, g, res, done) && Region(FieldUniv(ws, f), e, g, p) == {}
    ensures Built(ws, s, op, f, e, g, res, done + {p})
  {
    forall x | x in FieldUniv(ws, f) ensures BuiltAt(ws, s, op, e, g, res, done + {p}, x) {
      assert BuiltAt(ws, s, op, e, g, res, done, x);
      assert x !in Region(FieldUniv(ws, f), e, g, p);
    }
  }

  /** The edge for a new region lands on fresh ground. */
  lemma RegionFresh(ws: Widths, s: Store, op: Op, f: nat, e: Edges, g: Edges, res: Edges, done: set<(Id, Id)>,
                    p: (Id, Id))
    requires Built(ws, s, op, f, e, g, res, done) && p !in done
    ensures Region(FieldUniv(ws, f), e, g, p) !! Support(res)
  {
    forall x | x in Region(FieldUniv(ws, f), e, g, p) ensures x !in Support(res) {
      assert BuiltAt(ws, s, op, e, g, res, done, x);
    }
  }

  lemma BuiltAdd(ws: Widths, s: Store, op: Op, f: nat, e: Edges, g: Edges, res: Edges, done: set<(Id, Id)>,
                 p: (Id, Id), r: Id, l: Label)
    requires Built(ws, s, op, f, e, g, res, done) && p !in done
    requires l == Region(FieldUniv(ws, f), e, g, p) && l != {}
    requires Computes(ws, s, op, p.0, p.1, r)
    ensures Built(ws, s, op, f, e, g, AddEdge(res, r, l), done + {p})
  {
    RegionFresh(ws, s, op, f, e, g, res, done, p);
    var y :| y in l;
    ChildOk(ws, s, f, e, y);
    ChildOk(ws, s, f, g, y);
    AddEdgeWf(ws, s, f, res, r, l);
    var res' := AddEdge(res, r, l);
    forall x | x in FieldUniv(ws, f) ensures BuiltAt(ws, s, op, e, g, res', done + {p}, x) {
      AddEdgeChild(res, r, l, x);
      assert BuiltAt(ws, s, op, e, g, res, done, x);
    }
  }

  /** Moving one element from what is to do to what is done. */
  lemma OneDone<T>(all: set<T>, todo: set<T>, p: T)
    requires todo <= all && p in todo
    ensures all - todo + {p} == all - (todo - {p}) && p !in all - todo && p in all
  {}

  function PairsOf(e: Edges, g: Edges): set<(Id, Id)> {
    set c, d | c in e.Keys && d in g.Keys :: (c, d)
  }

  /** A failed intersection pair, seen from the operands as they were before. */
  lemma PairUndefined(ws: Widths, s: Store, t: Store, k: set<Id>, op: Op, f: nat, e: Edges, g: Edges, a: Id, b: Id,
                      p: (Id, Id))
    requires Denotes(ws, s, f, e, a) && Denotes(ws, s, f, g, b) && Wf(ws, t) && Closed(s, k) && Keeps(s, t, k)
    requires a in k && b in k && e.Keys <= k && g.Keys <= k
    requires p.0 in e && p.1 in g && e[p.0] * g[p.1] != {} && Undefined(ws, t, op, p.0, p.1)
    ensures Undefined(ws, t, op, a, b)
  {
    DenotesKept(ws, s, t, k, f, e, a);
    DenotesKept(ws, s, t, k, f, g, b);
    RegionPair(ws, t, f, e, g, p.0, p.1);
    UndefinedLifts(ws, t, op, f, e, g, a, b, p);
  }

  /** One finished intersection pair: the store has moved on from s to t, and r is the result. */
  lemma PairStep(ws: Widths, s: Store, t: Store, k: set<Id>, op: Op, f: nat, e: Edges, g: Edges, res: Edges,
                 done: set<(Id, Id)>, p: (Id, Id), r: Id)
    requires Built(ws, s, op, f, e, g, res, done) && p !in done && p.0 in e && p.1 in g && e[p.0] * g[p.1] != {}
    requires Wf(ws, t) && Closed(s, k) && Keeps(s, t, k) && e.Keys <= k && g.Keys <= k && res.Keys <= k
    requires Computes(ws, t, op, p.0, p.1, r)
    ensures Built(ws, t, op, f, e, g, AddEdge(res, r, e[p.0] * g[p.1]), done + {p})
  {
    BuiltKept(ws, s, t, k, op, f, e, g, res, done);
    RegionPair(ws, t, f, e, g, p.0, p.1);
    BuiltAdd(ws, t, op, f, e, g, res, done, p, r, e[p.0] * g[p.1]);
  }

  lemma PairEmpty(ws: Widths, s: Store, op: Op, f: nat, e: Edges, g: Edges, res: Edges, done: set<(Id, Id)>,
                  p: (Id, Id))
    requires Built(ws, s, op, f, e, g, res, done) && p.0 in e && p.1 in g && e[p.0] * g[p.1] == {}
    ensures Built(ws, s, op, f, e, g, res, done + {p})
  {
    RegionPair(ws, s, f, e, g, p.0, p.1);
    BuiltSkip(ws, s, op, f, e, g, res, done, p);
  }

  /** Region of an intersection pair. */
  lemma RegionPair(ws: Widths, s: Store, f: nat, e: Edges, g: Edges, c: Id, d: Id)
    requires WfEdges(ws, s, f, e) && WfEdges(ws, s, f, g) && c in e && d in g
    ensures Region(FieldUniv(ws, f), e, g, (c, d)) == e[c] * g[d]
  {
    assert EdgeOk(ws, s, f, e, c);
    forall x | x in e[c] * g[d] ensures x in Region(FieldUniv(ws, f), e, g, (c, d)) {
      ChildAtUnique(e, x, c);
      ChildAtUnique(g, x, d);
    }
  }

  /** Region where only the first operand has an edge. */
  lemma RegionLeft(ws: Widths, s: Store, f: nat, e: Edges, g: Edges, c: Id)
    requires WfEdges(ws, s, f, e) && WfEdges(ws, s, f, g) && c in e
    ensures Region(FieldUniv(ws, f), e, g, (c, FALSE)) == e[c] - Support(g)
  {
    assert EdgeOk(ws, s, f, e, c);
    forall x | x in e[c] - Support(g) ensures x in Region(FieldUniv(ws, f), e, g, (c, FALSE)) {
      ChildAtUnique(e, x, c);
    }
  }

  /** Region where only the second operand has an edge. */
  lemma RegionRight(ws: Widths, s: Store, f: nat, e: Edges, g: Edges, d: Id)
    requires WfEdges(ws, s, f, e) && WfEdges(ws, s, f, g) && d in g
    ensures Region(FieldUniv(ws, f), e, g, (FALSE, d)) == g[d] - Support(e)
  {
    assert EdgeOk(ws, s, f, g, d);
    forall x | x in g[d] - Support(e) ensures x in Region(FieldUniv(ws, f), e, g, (FALSE, d)) {
      ChildAtUnique(g, x, d);
    }
  }

  function LeftPairs(e: Edges): set<(Id, Id)> {
    set c | c in e.Keys :: (c, FALSE)
  }

  function RightPairs(g: Edges): set<(Id, Id)> {
    set d | d in g.Keys :: (FALSE, d)
  }

  function AdditivePairs(e: Edges, g: Edges): set<(Id, Id)> {
    PairsOf(e, g) + LeftPairs(e) + RightPairs(g)
  }

  /** Where the other operand is zero, an additive operation keeps the first operand's child. */
  lemma KeepsLeft(ws: Widths, s: Store, op: Op, c: Id)
    requires Wf(ws, s) && Domain(op, s) && Additive(op) && c in s
    ensures Computes(ws, s, op, c, FALSE, c)
  {
    LevelBound(ws, s, c);
    forall v | Fits(ws, v) ensures ResultAt(ws, s, op, c, FALSE, c, v) {
      SentinelValues(ws, s, v);
      OperandFacts(ws, s, op, c, v);
      OperandFacts(ws, s, op, FALSE, v);
      FastValue(op, Eval(ws, s, c, v), 0.0, false);
    }
  }

  lemma KeepsRight(ws: Widths, s: Store, op: Op, d: Id)
    requires Wf(ws, s) && Domain(op, s) && (op.Or? || op.Plus?) && d in s
    ensures Computes(ws, s, op, FALSE, d, d)
  {
    KeepsLeft(ws, s, op, d);
    ComputesSym(ws, s, op, d, FALSE, d);
  }

  /** One residual region of the first operand. */
  lemma LeftStep(ws: Widths, s: Store, op: Op, f: nat, e: Edges, g: Edges, res: Edges, done: set<(Id, Id)>, c: Id)
    requires Built(ws, s, op, f, e, g, res, done) && Domain(op, s) && Additive(op)
    requires c in e && (c, FALSE) !in done
    ensures var l := e[c] - Support(g);
            Built(ws, s, op, f, e, g, if l == {} then res else AddEdge(res, c, l), done + {(c, FALSE)})
  {
    var l := e[c] - Support(g);
    RegionLeft(ws, s, f, e, g, c);
    if l == {} {
      BuiltSkip(ws, s, op, f, e, g, res, done, (c, FALSE));
    } else {
      assert EdgeOk(ws, s, f, e, c);
      KeepsLeft(ws, s, op, c);
      BuiltAdd(ws, s, op, f, e, g, res, done, (c, FALSE), c, l);
    }
  }

  /** One residual region of the second operand, with r the operation's value of (zero, d). */
  lemma RightStep(ws: Widths, s: Store, op: Op, f: nat, e: Edges, g: Edges, res: Edges, done: set<(Id, Id)>, d: Id,
                  r: Id)
    requires Built(ws, s, op, f, e, g, res, done)
    requires d in g && (FALSE, d) !in done && Computes(ws, s, op, FALSE, d, r) && g[d] - Support(e) != {}
    ensures Built(ws, s, op, f, e, g, AddEdge(res, r, g[d] - Support(e)), done + {(FALSE, d)})
  {
    RegionRight(ws, s, f, e, g, d);
    BuiltAdd(ws, s, op, f, e, g, res, done, (FALSE, d), r, g[d] - Support(e));
  }

  // ---------------------------------------------------------------- the finished level

  /** All regions that can hold a non-zero result have been done. */
  ghost predicate AllDone(op: Op, e: Edges, g: Edges, done: set<(Id, Id)>) {
    && (forall c, d :: c in e && d in g ==> (c, d) in done)
    && (Additive(op) ==> forall c :: c in e ==> (c, FALSE) in done)
    && (Additive(op) ==> forall d :: d in g ==> (FALSE, d) in done)
    && (op.Divide? ==> Support(e) <= Support(g))
  }

  /** Where a region was left out the result is zero. */
  lemma LeftOutZero(ws: Widths, s: Store, op: Op, a: Id, b: Id)
    requires Wf(ws, s) && Domain(op, s) && a in s && b in s
    requires (a == FALSE && b == FALSE) || (!Additive(op) && (a == FALSE || (b == FALSE && !op.Divide?)))
    ensures Computes(ws, s, op, a, b, FALSE)
  {
    LevelBound(ws, s, a);
    LevelBound(ws, s, b);
    forall v | Fits(ws, v) ensures ResultAt(ws, s, op, a, b, FALSE, v) {
      SentinelValues(ws, s, v);
      OperandFacts(ws, s, op, a, v);
      OperandFacts(ws, s, op, b, v);
      FastValue(op, Eval(ws, s, a, v), Eval(ws, s, b, v), a == b);
    }
  }

  lemma ResultAtValue(ws: Widths, s: Store, op: Op, f: nat, e: Edges, g: Edges, res: Edges, done: set<(Id, Id)>,
                      x: Bits)
    requires Built(ws, s, op, f, e, g, res, done) && AllDone(op, e, g, done) && Domain(op, s) && x in FieldUniv(ws, f)
    ensures Computes(ws, s, op, ChildAt(e, x), ChildAt(g, x), ChildAt(res, x))
  {
    assert BuiltAt(ws, s, op, e, g, res, done, x);
    var p := (ChildAt(e, x), ChildAt(g, x));
    if p !in done {
      ChildOk(ws, s, f, e, x);
      ChildOk(ws, s, f, g, x);
      LeftOutZero(ws, s, op, p.0, p.1);
    }
  }

  /** Edge map e is all that a walk can see of a at field f. */
  ghost predicate Views(ws: Widths, s: Store, f: nat, e: Edges, a: Id) {
    && 1 <= f <= |ws| && a in s
    && ((s[a].Internal? && s[a].field == f && e == s[a].edges) || (Level(s, a) > f && e == map[a := FieldUniv(ws, f)]))
  }

  /** A division descends exactly as the code's walk does. */
  ghost predicate Walks(ws: Widths, s: Store, op: Op, f: nat, e: Edges, g: Edges, a: Id, b: Id) {
    op.Divide? ==>
      GoesOn(s, a, b) && f == Min(Level(s, a), Level(s, b)) && Views(ws, s, f, e, a) && Views(ws, s, f, g, b)
  }

  lemma WalksKept(ws: Widths, s: Store, t: Store, k: set<Id>, op: Op, f: nat, e: Edges, g: Edges, a: Id, b: Id)
    requires Walks(ws, s, op, f, e, g, a, b) && Keeps(s, t, k) && a in k && b in k && a in s && b in s
    ensures Walks(ws, t, op, f, e, g, a, b)
  {
    assert KeptAt(s, t, a) && KeptAt(s, t, b);
  }

  lemma ViewDown(ws: Widths, s: Store, f: nat, e: Edges, a: Id, v: Assignment)
    requires Wf(ws, s) && Views(ws, s, f, e, a) && Fits(ws, v)
    ensures f <= Level(s, a) && ChildAt(e, v[f - 1]) == Down(ws, s, a, f, v)
  {
    if Level(s, a) > f { ChildAtUnique(e, v[f - 1], a); }
  }

  lemma QuotDescends(ws: Widths, s: Store, f: nat, e: Edges, g: Edges, a: Id, b: Id, v: Assignment)
    requires Wf(ws, s) && Walks(ws, s, Divide, f, e, g, a, b) && Fits(ws, v)
    ensures ChildAt(e, v[f - 1]) in s && ChildAt(g, v[f - 1]) in s
    ensures QuotAt(ws, s, a, b, v) == QuotAt(ws, s, ChildAt(e, v[f - 1]), ChildAt(g, v[f - 1]), v)
  {
    ViewDown(ws, s, f, e, a, v);
    ViewDown(ws, s, f, g, b, v);
    QuotStep(ws, s, a, b, v);
  }

  /** A finished edge map, turned into a node, computes the operation on the operands. */
  lemma BuiltComputes(ws: Widths, s: Store, op: Op, f: nat, e: Edges, g: Edges, res: Edges, done: set<(Id, Id)>,
                      a: Id, b: Id, r: Id)
    requires Built(ws, s, op, f, e, g, res, done) && AllDone(op, e, g, done) && Domain(op, s)
    requires Denotes(ws, s, f, e, a) && Denotes(ws, s, f, g, b) && Denotes(ws, s, f, res, r)
    requires Min(Level(s, a), Level(s, b)) <= f <= Level(s, r) && Walks(ws, s, op, f, e, g, a, b)
    ensures Computes(ws, s, op, a, b, r)
  {
    forall v | Fits(ws, v) ensures ResultAt(ws, s, op, a, b, r, v) {
      var x := v[f - 1];
      if op.Divide? { QuotDescends(ws, s, f, e, g, a, b, v); }
      ResultAtValue(ws, s, op, f, e, g, res, done, x);
      assert ResultAt(ws, s, op, ChildAt(e, x), ChildAt(g, x), ChildAt(res, x), v);
    }
  }

  // ---------------------------------------------------------------- failures

  /** A region on which the children have no result makes the operands have none. */
  lemma UndefinedLifts(ws: Widths, s: Store, op: Op, f: nat, e: Edges, g: Edges, a: Id, b: Id, p: (Id, Id))
    requires Denotes(ws, s, f, e, a) && Denotes(ws, s, f, g, b)
    requires Region(FieldUniv(ws, f), e, g, p) != {} && Undefined(ws, s, op, p.0, p.1)
    ensures Undefined(ws, s, op, a, b)
  {
    var x :| x in Region(FieldUniv(ws, f), e, g, p);
    var v :| Fits(ws, v) && !DefinedAt(op, Eval(ws, s, p.0, v), Eval(ws, s, p.1, v));
    var w := Put(v, f, x);
    PutFits(ws, v, f, x);
    EvalEdgesPut(ws, s, f, e, v, x);
    EvalEdgesPut(ws, s, f, g, v, x);
    assert Eval(ws, s, a, w) == EvalEdges(ws, s, f, e, w);
    assert Eval(ws, s, b, w) == EvalEdges(ws, s, f, g, w);
  }

  lemma EvalEdgesPut(ws: Widths, s: Store, f: nat, e: Edges, v: Assignment, x: Bits)
    requires Wf(ws, s) && WfEdges(ws, s, f, e) && Fits(ws, v) && x in FieldUniv(ws, f)
    ensures ChildAt(e, x) in s
    ensures Fits(ws, Put(v, f, x)) && EvalEdges(ws, s, f, e, Put(v, f, x)) == Eval(ws, s, ChildAt(e, x), v)
  {
    ChildOk(ws, s, f, e, x);
    EvalPutAbove(ws, s, ChildAt(e, x), v, f, x);
  }

  /** Dividing outside the divisor's support has no result: the dividend is non-zero there. */
  lemma ConflictUndefined(ws: Widths, s: Store, f: nat, e: Edges, g: Edges, a: Id, b: Id)
    requires Denotes(ws, s, f, e, a) && Denotes(ws, s, f, g, b) && !(Support(e) <= Support(g))
    ensures Undefined(ws, s, Divide, a, b)
  {
    var x :| x in Support(e) && x !in Support(g);
    var c := ChildAt(e, x);
    assert EdgeOk(ws, s, f, e, c);
    var v := NonZeroSomewhere(ws, s, c);
    SentinelValues(ws, s, v);
    assert x in Region(FieldUniv(ws, f), e, g, (c, FALSE));
    assert Undefined(ws, s, Divide, c, FALSE);
    UndefinedLifts(ws, s, Divide, f, e, g, a, b, (c, FALSE));
  }
}
