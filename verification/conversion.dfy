/** Conversion between decision diagrams over fields and plain BDDs over one variable per bit.
    A BDD is given by its branches; two BDDs with the same meaning are the same handle. */
module Conversion {
  import opened Labels
  import opened Diagram
  import opened EdgeAlgebra
  import opened Operations
  import opened StoreSteps
  import opened Engines

  // ---------------------------------------------------------------- variables

  /** Sum of the widths of the fields before field f: its first expanded variable. */
  function Start(ws: Widths, f: nat): nat
    requires 1 <= f <= |ws| + 1
  {
    if f == 1 then 0 else Start(ws, f - 1) + ws[f - 2]
  }

  function Total(ws: Widths): nat { Start(ws, |ws| + 1) }

  lemma {:induction false} StartMono(ws: Widths, f: nat, g: nat)
    requires 1 <= f <= g <= |ws| + 1
    ensures Start(ws, f) <= Start(ws, g)
    decreases g
  {
    if f < g { StartMono(ws, f, g - 1); }
  }

  lemma StartNext(ws: Widths, f: nat, g: nat)
    requires 1 <= f < g <= |ws| + 1
    ensures Start(ws, f) + ws[f - 1] <= Start(ws, g)
  {
    StartMono(ws, f + 1, g);
  }

  /** The value of expanded variable i, looking from field f on. */
  function BitFrom(ws: Widths, v: Assignment, f: nat, i: nat): bool
    decreases |ws| - f
  {
    if !(1 <= f <= |ws| && f <= |v|) then false
    else if i < ws[f - 1] then i < |v[f - 1]| && v[f - 1][i]
    else BitFrom(ws, v, f + 1, i - ws[f - 1])
  }

  function BitAt(ws: Widths, v: Assignment, i: nat): bool { BitFrom(ws, v, 1, i) }

  lemma {:induction false} BitSkips(ws: Widths, v: Assignment, f: nat, g: nat, j: nat)
    requires Fits(ws, v) && 1 <= f <= g <= |ws|
    ensures Start(ws, f) <= Start(ws, g) && BitFrom(ws, v, f, Start(ws, g) - Start(ws, f) + j) == BitFrom(ws, v, g, j)
    decreases g - f
  {
    StartMono(ws, f, g);
    if f < g {
      StartNext(ws, f, g);
      BitSkips(ws, v, f + 1, g, j);
    }
  }

  /** Variable Start(f) + j is bit j of field f. */
  lemma BitOfField(ws: Widths, v: Assignment, f: nat, j: nat)
    requires Fits(ws, v) && 1 <= f <= |ws| && j < ws[f - 1]
    ensures BitAt(ws, v, Start(ws, f) + j) == v[f - 1][j]
  {
    BitSkips(ws, v, 1, f, j);
  }

  /** Field of an expanded variable: a walk over the fields. */
  method FindField(ws: Widths, i: nat) returns (f: nat)
    requires Layout(ws)
    ensures i < Total(ws) ==> 1 <= f <= |ws| && Start(ws, f) <= i < Start(ws, f) + ws[f - 1]
    ensures i >= Total(ws) ==> f == 0
  {
    var start := 0;
    f := 1;
    while f <= |ws|
      invariant 1 <= f <= |ws| + 1 && start == Start(ws, f) <= i
    {
      if i < start + ws[f - 1] {
        StartNext(ws, f, |ws| + 1);
        return;
      }
      start := start + ws[f - 1];
      f := f + 1;
    }
    f := 0;
  }

  // ---------------------------------------------------------------- BDDs

  datatype Bdd = Zero | One | Branch(i: nat, low: Bdd, high: Bdd)

  /** Variables increase along every path, starting at k. */
  predicate OrderedFrom(b: Bdd, k: nat) {
    b.Branch? ==> b.i >= k && OrderedFrom(b.low, b.i + 1) && OrderedFrom(b.high, b.i + 1)
  }

  /** All variables belong to declared fields. */
  predicate VarsBelow(b: Bdd, n: nat) {
    b.Branch? ==> b.i < n && VarsBelow(b.low, n) && VarsBelow(b.high, n)
  }

  predicate Sem(ws: Widths, b: Bdd, v: Assignment) {
    match b
    case Zero => false
    case One => true
    case Branch(i, low, high) => if BitAt(ws, v, i) then Sem(ws, high, v) else Sem(ws, low, v)
  }

  ghost function Truth(x: bool): real { if x then 1.0 else 0.0 }

  /** r is the diagram of b. */
  ghost predicate Converted(ws: Widths, s: Store, b: Bdd, r: Id) {
    && Wf(ws, s) && r in s
    && forall v {:trigger Fits(ws, v)} :: Fits(ws, v) ==> Eval(ws, s, r, v) == Truth(Sem(ws, b, v))
  }

  // ---------------------------------------------------------------- from BDD to diagram

  /** Child c stands for b once field f has value x. */
  ghost predicate StandsFor(ws: Widths, s: Store, b: Bdd, f: nat, x: Bits, c: Id)
    requires 1 <= f <= |ws|
  {
    && Wf(ws, s) && c in s
    && forall v {:trigger Fits(ws, v)} :: Fits(ws, v) && v[f - 1] == x ==> Eval(ws, s, c, v) == Truth(Sem(ws, b, v))
  }

  ghost predicate GatheredAt(ws: Widths, s: Store, b: Bdd, f: nat, e: Edges, done: Label, x: Bits)
    requires 1 <= f <= |ws|
  {
    if x in done then StandsFor(ws, s, b, f, x, ChildAt(e, x)) else ChildAt(e, x) == FALSE
  }

  /** The edges gathered so far stand for b on the field values done and are empty elsewhere. */
  ghost predicate Gathered(ws: Widths, s: Store, b: Bdd, f: nat, e: Edges, done: Label) {
    && Wf(ws, s) && WfEdges(ws, s, f, e)
    && forall x {:trigger ChildAt(e, x)} :: x in FieldUniv(ws, f) ==> GatheredAt(ws, s, b, f, e, done, x)
  }

  lemma GatheredNothing(ws: Widths, s: Store, b: Bdd, f: nat)
    requires Wf(ws, s) && 1 <= f <= |ws|
    ensures Gathered(ws, s, b, f, map[], {})
  {
    forall x | x in FieldUniv(ws, f) ensures GatheredAt(ws, s, b, f, map[], {}, x) {
      assert ChildAt(map[], x) == FALSE;
    }
  }

  lemma GatheredKept(ws: Widths, s: Store, t: Store, b: Bdd, f: nat, e: Edges, done: Label)
    requires Gathered(ws, s, b, f, e, done) && Wf(ws, t) && Keeps(s, t, s.Keys)
    ensures Gathered(ws, t, b, f, e, done)
  {
    AllClosed(ws, s);
    EdgesAll(ws, s, f, e);
    WfEdgesKept(ws, s, t, s.Keys, f, e);
    forall x | x in FieldUniv(ws, f) ensures GatheredAt(ws, t, b, f, e, done, x) {
      assert GatheredAt(ws, s, b, f, e, done, x);
      var c := ChildAt(e, x);
      ChildOk(ws, s, f, e, x);
      assert KeptAt(s, t, c);
      if x in done {
        forall v | Fits(ws, v) && v[f - 1] == x ensures Eval(ws, t, c, v) == Truth(Sem(ws, b, v)) {
          EvalKept(ws, s, t, s.Keys, c, v);
        }
      }
    }
  }

  /** b restricted to the field values in cube is cur. */
  ghost predicate Restricts(ws: Widths, b: Bdd, f: nat, cube: Label, cur: Bdd) {
    forall v {:trigger Fits(ws, v)} :: Fits(ws, v) && 1 <= f <= |v| && v[f - 1] in cube ==>
        Sem(ws, cur, v) == Sem(ws, b, v)
  }

  /** One finished cube: its child is the diagram of the BDD reached there. */
  lemma GatheredAdd(ws: Widths, s: Store, b: Bdd, f: nat, e: Edges, done: Label, cube: Label, cur: Bdd, r: Id)
    requires Gathered(ws, s, b, f, e, done) && cube != {} && cube <= FieldUniv(ws, f) && cube !! done
    requires Restricts(ws, b, f, cube, cur) && Converted(ws, s, cur, r) && Level(s, r) > f
    ensures Gathered(ws, s, b, f, AddEdge(e, r, cube), done + cube)
  {
    forall x | x in cube ensures x !in Support(e) {
      assert GatheredAt(ws, s, b, f, e, done, x);
    }
    AddEdgeWf(ws, s, f, e, r, cube);
    forall x | x in FieldUniv(ws, f) ensures GatheredAt(ws, s, b, f, AddEdge(e, r, cube), done + cube, x) {
      AddEdgeChild(e, r, cube, x);
      assert GatheredAt(ws, s, b, f, e, done, x);
    }
  }

  /** A cube on which the BDD is false needs no edge. */
  lemma GatheredZero(ws: Widths, s: Store, b: Bdd, f: nat, e: Edges, done: Label, cube: Label)
    requires Gathered(ws, s, b, f, e, done) && cube <= FieldUniv(ws, f) && cube !! done
    requires Restricts(ws, b, f, cube, Zero)
    ensures Gathered(ws, s, b, f, e, done + cube)
  {
    forall x | x in FieldUniv(ws, f) ensures GatheredAt(ws, s, b, f, e, done + cube, x) {
      assert GatheredAt(ws, s, b, f, e, done, x);
      if x in cube {
        forall v | Fits(ws, v) && v[f - 1] == x ensures Eval(ws, s, FALSE, v) == Truth(Sem(ws, b, v)) {
          SentinelValues(ws, s, v);
        }
      }
    }
  }

  /** Field values that agree with x on the first offset bits are not told apart yet. */
  ghost predicate IsCube(ws: Widths, f: nat, cube: Label, offset: nat)
    requires 1 <= f <= |ws|
  {
    && offset <= ws[f - 1] && cube != {} && cube <= FieldUniv(ws, f)
    && forall x, y :: x in cube && y in FieldUniv(ws, f) && x[..offset] == y[..offset] ==> y in cube
  }

  function Half(cube: Label, offset: nat, bit: bool): Label {
    set x | x in cube && offset < |x| && x[offset] == bit
  }

  lemma HalfIsCube(ws: Widths, f: nat, cube: Label, offset: nat, bit: bool)
    requires 1 <= f <= |ws| && IsCube(ws, f, cube, offset) && offset < ws[f - 1]
    ensures IsCube(ws, f, Half(cube, offset, bit), offset + 1)
  {
    var h := Half(cube, offset, bit);
    var x :| x in cube;
    var y := x[offset := bit];
    assert x[..offset] == y[..offset];
    assert y in h;
    forall a, c | a in h && c in FieldUniv(ws, f) && a[..offset + 1] == c[..offset + 1] ensures c in h {
      assert a[..offset] == a[..offset + 1][..offset] == c[..offset];
      assert a[offset] == a[..offset + 1][offset] == c[offset];
    }
  }

  lemma HalvesMakeCube(ws: Widths, f: nat, cube: Label, offset: nat, done: Label)
    requires 1 <= f <= |ws| && IsCube(ws, f, cube, offset) && offset < ws[f - 1] && cube !! done
    ensures var l, h := Half(cube, offset, false), Half(cube, offset, true);
            l !! done && h !! (done + l) && done + l + h == done + cube
  {
    assert Half(cube, offset, false) + Half(cube, offset, true) == cube;
  }

  /** The BDD with variable i, at or above its top, fixed. */
  function Cofactor(b: Bdd, i: nat, bit: bool): Bdd {
    if b.Branch? && b.i == i then (if bit then b.high else b.low) else b
  }

  lemma CofactorFacts(ws: Widths, f: nat, cur: Bdd, offset: nat)
    requires 1 <= f <= |ws| && offset < ws[f - 1] && OrderedFrom(cur, Start(ws, f) + offset)
    ensures var i, n := Start(ws, f) + offset, Total(ws);
            && OrderedFrom(Cofactor(cur, i, false), i + 1) && OrderedFrom(Cofactor(cur, i, true), i + 1)
            && (VarsBelow(cur, n) <==> VarsBelow(Cofactor(cur, i, false), n) && VarsBelow(Cofactor(cur, i, true), n))
  {
    StartNext(ws, f, |ws| + 1);
  }

  /** The BDD below a branch on bit offset of field f. */
  lemma RestrictsHalf(ws: Widths, b: Bdd, f: nat, cube: Label, cur: Bdd, offset: nat, bit: bool)
    requires 1 <= f <= |ws| && offset < ws[f - 1] && Restricts(ws, b, f, cube, cur)
    ensures Restricts(ws, b, f, Half(cube, offset, bit), Cofactor(cur, Start(ws, f) + offset, bit))
  {
    var next := Cofactor(cur, Start(ws, f) + offset, bit);
    forall v | Fits(ws, v) && v[f - 1] in Half(cube, offset, bit) ensures Sem(ws, next, v) == Sem(ws, b, v) {
      BitOfField(ws, v, f, offset);
    }
  }

  /** A whole field of gathered edges, made into a node. */
  lemma GatheredConverted(ws: Widths, s: Store, b: Bdd, f: nat, e: Edges, r: Id)
    requires 1 <= f <= |ws| && Gathered(ws, s, b, f, e, FieldUniv(ws, f)) && Denotes(ws, s, f, e, r)
    ensures Converted(ws, s, b, r)
  {
    forall v | Fits(ws, v) ensures Eval(ws, s, r, v) == Truth(Sem(ws, b, v)) {
      var x := v[f - 1];
      assert GatheredAt(ws, s, b, f, e, FieldUniv(ws, f), x);
      assert Eval(ws, s, r, v) == EvalEdges(ws, s, f, e, v);
    }
  }

  lemma LeafConverted(ws: Widths, s: Store, b: Bdd)
    requires Wf(ws, s) && !b.Branch?
    ensures Converted(ws, s, b, if b.Zero? then FALSE else TRUE)
  {
    forall v | Fits(ws, v) ensures Eval(ws, s, if b.Zero? then FALSE else TRUE, v) == Truth(Sem(ws, b, v)) {
      SentinelValues(ws, s, v);
    }
  }

  /** Build the diagram of a BDD whose variables start no earlier than field f0. It fails
      exactly when some variable belongs to no field. */
  method FromMtbdd(en: Engine, b: Bdd, ghost f0: nat) returns (r: Outcome)
    requires en.Valid() && en.boolean && !en.collects && 1 <= f0 <= |en.ws| + 1 && OrderedFrom(b, Start(en.ws, f0))
    modifies en
    ensures en.Valid() && en.pins == old(en.pins) && Keeps(old(en.nodes), en.nodes, old(en.nodes).Keys)
    ensures r.Got? <==> VarsBelow(b, Total(en.ws))
    ensures r.Got? ==> Converted(en.ws, en.nodes, b, r.id) && Level(en.nodes, r.id) >= f0
    decreases |en.ws| + 1 - f0, 3, 0, 0
  {
    if !b.Branch? {
      LeafConverted(en.ws, en.nodes, b);
      r := Got(if b.Zero? then FALSE else TRUE);
    } else {
      var f := FindField(en.ws, b.i);
      if f == 0 {
        r := Failed;
      } else {
        if f < f0 { StartNext(en.ws, f, f0); }
        r := FromBranch(en, b, f);
      }
    }
  }

  method FromBranch(en: Engine, b: Bdd, f: nat) returns (r: Outcome)
    requires en.Valid() && en.boolean && !en.collects && 1 <= f <= |en.ws| && OrderedFrom(b, Start(en.ws, f))
    modifies en
    ensures en.Valid() && en.pins == old(en.pins) && Keeps(old(en.nodes), en.nodes, old(en.nodes).Keys)
    ensures r.Got? <==> VarsBelow(b, Total(en.ws))
    ensures r.Got? ==> Converted(en.ws, en.nodes, b, r.id) && Level(en.nodes, r.id) >= f
    decreases |en.ws| + 1 - f, 2, 0, 0
  {
    ghost var s0 := en.nodes;
    GatheredNothing(en.ws, en.nodes, b, f);
    WholeIsCube(en.ws, f, en.univ[f - 1]);
    var ok, e := Gather(en, b, b, f, 0, en.univ[f - 1], map[], {});
    if ok {
      ghost var s1 := en.nodes;
      KeepsLess(s0, s1, s0.Keys, s0.Keys);
      EdgesAll(en.ws, s1, f, e);
      var id := en.Mk(f, e);
      KeepsTrans(s0, s1, en.nodes, s0.Keys, s1.Keys);
      GatheredKept(en.ws, s1, en.nodes, b, f, e, en.univ[f - 1]);
      GatheredConverted(en.ws, en.nodes, b, f, e, id);
      r := Got(id);
    } else {
      r := Failed;
    }
  }

  lemma WholeIsCube(ws: Widths, f: nat, u: Label)
    requires Layout(ws) && 1 <= f <= |ws| && u == FieldUniv(ws, f)
    ensures IsCube(ws, f, u, 0) && {} + u == u
  {
    assert Zeros(ws[f - 1]) in u;
  }

  /** Walk the BDD over the bits of field f, adding an edge for every cube of field values on
      which nothing but deeper fields is left to decide. */
  method Gather(en: Engine, ghost b: Bdd, cur: Bdd, f: nat, offset: nat, cube: Label, e: Edges, ghost done: Label)
    returns (ok: bool, e': Edges)
    requires en.Valid() && en.boolean && !en.collects && 1 <= f <= |en.ws| && IsCube(en.ws, f, cube, offset)
    requires cube !! done
    requires OrderedFrom(cur, Start(en.ws, f) + offset) && Restricts(en.ws, b, f, cube, cur)
    requires Gathered(en.ws, en.nodes, b, f, e, done)
    modifies en
    ensures en.Valid() && en.pins == old(en.pins) && Keeps(old(en.nodes), en.nodes, old(en.nodes).Keys)
    ensures ok <==> VarsBelow(cur, Total(en.ws))
    ensures ok ==> Gathered(en.ws, en.nodes, b, f, e', done + cube)
    decreases |en.ws| + 1 - f, 1, en.ws[f - 1] - offset, 2
  {
    if cur.Zero? {
      GatheredZero(en.ws, en.nodes, b, f, e, done, cube);
      ok, e' := true, e;
    } else if offset >= en.ws[f - 1] || !cur.Branch? || cur.i >= Start(en.ws, f) + en.ws[f - 1] {
      ok, e' := GatherOne(en, b, cur, f, cube, e, done);
    } else {
      ok, e' := GatherBoth(en, b, cur, f, offset, cube, e, done);
    }
  }

  method GatherOne(en: Engine, ghost b: Bdd, cur: Bdd, f: nat, cube: Label, e: Edges, ghost done: Label)
    returns (ok: bool, e': Edges)
    requires en.Valid() && en.boolean && !en.collects && 1 <= f <= |en.ws| && cube != {}
    requires cube <= FieldUniv(en.ws, f) && cube !! done
    requires OrderedFrom(cur, Start(en.ws, f + 1)) && Restricts(en.ws, b, f, cube, cur)
    requires Gathered(en.ws, en.nodes, b, f, e, done)
    modifies en
    ensures en.Valid() && en.pins == old(en.pins) && Keeps(old(en.nodes), en.nodes, old(en.nodes).Keys)
    ensures ok <==> VarsBelow(cur, Total(en.ws))
    ensures ok ==> Gathered(en.ws, en.nodes, b, f, e', done + cube)
    decreases |en.ws| + 1 - f, 0, 0, 0
  {
    ghost var s0 := en.nodes;
    var r := FromMtbdd(en, cur, f + 1);
    KeepsLess(s0, en.nodes, s0.Keys, s0.Keys);
    ok, e' := r.Got?, e;
    if ok {
      GatheredKept(en.ws, s0, en.nodes, b, f, e, done);
      GatheredAdd(en.ws, en.nodes, b, f, e, done, cube, cur, r.id);
      e' := AddEdge(e, r.id, cube);
    }
  }

  method GatherBoth(en: Engine, ghost b: Bdd, cur: Bdd, f: nat, offset: nat, cube: Label, e: Edges, ghost done: Label)
    returns (ok: bool, e': Edges)
    requires en.Valid() && en.boolean && !en.collects && 1 <= f <= |en.ws| && IsCube(en.ws, f, cube, offset)
    requires cube !! done
    requires OrderedFrom(cur, Start(en.ws, f) + offset) && Restricts(en.ws, b, f, cube, cur)
    requires Gathered(en.ws, en.nodes, b, f, e, done)
    requires offset < en.ws[f - 1]
    modifies en
    ensures en.Valid() && en.pins == old(en.pins) && Keeps(old(en.nodes), en.nodes, old(en.nodes).Keys)
    ensures ok <==> VarsBelow(cur, Total(en.ws))
    ensures ok ==> Gathered(en.ws, en.nodes, b, f, e', done + cube)
    decreases |en.ws| + 1 - f, 1, en.ws[f - 1] - offset, 1
  {
    ghost var s0 := en.nodes;
    HalvesMakeCube(en.ws, f, cube, offset, done);
    CofactorFacts(en.ws, f, cur, offset);
    ok, e' := GatherHalf(en, b, cur, f, offset, false, cube, e, done);
    ghost var s1 := en.nodes;
    if ok {
      KeepsLess(s0, s1, s0.Keys, s0.Keys);
      ok, e' := GatherHalf(en, b, cur, f, offset, true, cube, e', done + Half(cube, offset, false));
      KeepsTrans(s0, s1, en.nodes, s0.Keys, s1.Keys);
    }
  }

  method GatherHalf(en: Engine, ghost b: Bdd, cur: Bdd, f: nat, offset: nat, bit: bool, cube: Label, e: Edges,
                    ghost done: Label)
    returns (ok: bool, e': Edges)
    requires en.Valid() && en.boolean && !en.collects && 1 <= f <= |en.ws| && IsCube(en.ws, f, cube, offset)
    requires offset < en.ws[f - 1]
    requires OrderedFrom(cur, Start(en.ws, f) + offset) && Restricts(en.ws, b, f, cube, cur)
    requires Gathered(en.ws, en.nodes, b, f, e, done)
    requires Half(cube, offset, bit) !! done
    modifies en
    ensures en.Valid() && en.pins == old(en.pins) && Keeps(old(en.nodes), en.nodes, old(en.nodes).Keys)
    ensures ok <==> VarsBelow(Cofactor(cur, Start(en.ws, f) + offset, bit), Total(en.ws))
    ensures ok ==> Gathered(en.ws, en.nodes, b, f, e', done + Half(cube, offset, bit))
    decreases |en.ws| + 1 - f, 1, en.ws[f - 1] - offset, 0
  {
    HalfIsCube(en.ws, f, cube, offset, bit);
    RestrictsHalf(en.ws, b, f, cube, cur, offset, bit);
    CofactorFacts(en.ws, f, cur, offset);
    ok, e' := Gather(en, b, Cofactor(cur, Start(en.ws, f) + offset, bit), f, offset + 1, Half(cube, offset, bit), e,
        done);
  }

  // ---------------------------------------------------------------- from diagram to BDD

  function MaxWidth(ws: Widths): (m: nat)
    ensures forall i :: 0 <= i < |ws| ==> ws[i] <= m
    ensures |ws| > 0 ==> exists i :: 0 <= i < |ws| && ws[i] == m
  {
    if |ws| == 0 then 0
    else
      var m := MaxWidth(ws[..|ws| - 1]);
      var w := ws[|ws| - 1];
      assert forall i :: 0 <= i < |ws| - 1 ==> ws[i] == ws[..|ws| - 1][i];
      if |ws| > 1 && m >= w then m else w
  }

  /** Where the label of field f is read in the expanded variables. Labels are stored over the
      last bits of the shared variables; a field that starts before the greatest width is not
      moved to its own variables. */
  function ReadAt(ws: Widths, f: nat): nat
    requires 1 <= f <= |ws|
  {
    if Start(ws, f) < MaxWidth(ws) then MaxWidth(ws) - ws[f - 1] else Start(ws, f)
  }

  function Slice(ws: Widths, v: Assignment, p: nat, w: nat): (x: Bits)
    ensures |x| == w
  {
    seq(w, j requires 0 <= j < w => BitAt(ws, v, p + j))
  }

  /** The mapped label holds at v. */
  predicate LabelAt(ws: Widths, f: nat, l: Label, v: Assignment)
    requires 1 <= f <= |ws|
  {
    Slice(ws, v, ReadAt(ws, f), ws[f - 1]) in l
  }

  /** The BDD of node a is true at v. */
  ghost predicate InBdd(ws: Widths, s: Store, a: Id, v: Assignment)
    requires Wf(ws, s) && a in s
    decreases LEAF_FIELD - Level(s, a)
  {
    a == TRUE ||
    (s[a].Internal? && 1 <= s[a].field <= |ws| &&
     exists c :: c in s[a].edges && c in s && s[a].field < Level(s, c) <= LEAF_FIELD &&
         LabelAt(ws, s[a].field, s[a].edges[c], v) && InBdd(ws, s, c, v))
  }

  /** The loop over the edges of a node: each contributes its mapped label and its child. */
  method ToMtbdd(ws: Widths, s: Store, all: set<Assignment>, a: Id) returns (r: set<Assignment>)
    requires Wf(ws, s) && BoolStore(s) && a in s
    ensures forall v :: v in r <==> v in all && InBdd(ws, s, a, v)
    decreases LEAF_FIELD - Level(s, a)
  {
    if a == TRUE {
      r := all;
    } else if a == FALSE {
      r := {};
    } else {
      NodeChildren(ws, s, a);
      LevelBound(ws, s, a);
      var f, e := s[a].field, s[a].edges;
      r := {};
      var todo := e.Keys;
      while todo != {}
        invariant todo <= e.Keys
        invariant forall v :: v in r <==>
                    v in all && exists c :: c in e && c !in todo && LabelAt(ws, f, e[c], v) && InBdd(ws, s, c, v)
        decreases |todo|
      {
        var c :| c in todo;
        LevelBound(ws, s, c);
        var below := ToMtbdd(ws, s, all, c);
        r := r + set v | v in below && LabelAt(ws, f, e[c], v);
        todo := todo - {c};
      }
      forall c | c in e ensures c in s && f < Level(s, c) <= LEAF_FIELD { LevelBound(ws, s, c); }
    }
  }

  // ---------------------------------------------------------------- when the conversion is right

  /** With the greatest width on field 1 every label is read at its own field. */
  lemma ReadAtOwn(ws: Widths, f: nat)
    requires Layout(ws) && ws[0] == MaxWidth(ws) && 1 <= f <= |ws|
    ensures ReadAt(ws, f) == Start(ws, f)
  {
    if f > 1 { StartNext(ws, 1, f); }
  }

  lemma SliceOwn(ws: Widths, v: Assignment, f: nat)
    requires Fits(ws, v) && 1 <= f <= |ws|
    ensures Slice(ws, v, Start(ws, f), ws[f - 1]) == v[f - 1]
  {
    var x, y := Slice(ws, v, Start(ws, f), ws[f - 1]), v[f - 1];
    forall j | 0 <= j < |x| ensures x[j] == y[j] {
      BitOfField(ws, v, f, j);
    }
  }

  lemma {:induction false} InBddIsEval(ws: Widths, s: Store, a: Id, v: Assignment)
    requires Wf(ws, s) && BoolStore(s) && a in s && Fits(ws, v) && ws[0] == MaxWidth(ws)
    ensures InBdd(ws, s, a, v) <==> Eval(ws, s, a, v) != 0.0
    decreases LEAF_FIELD - Level(s, a)
  {
    if s[a].Leaf? {
      SentinelValues(ws, s, v);
    } else {
      var f, e := s[a].field, s[a].edges;
      NodeChild(ws, s, a, v);
      LevelBound(ws, s, a);
      ReadAtOwn(ws, f);
      SliceOwn(ws, v, f);
      var d := ChildAt(e, v[f - 1]);
      LevelBound(ws, s, d);
      InBddIsEval(ws, s, d, v);
      InBddChild(ws, s, a, v);
    }
  }

  /** With labels read at their own field, only the child taken under v counts. */
  lemma InBddChild(ws: Widths, s: Store, a: Id, v: Assignment)
    requires Wf(ws, s) && a in s && s[a].Internal? && Fits(ws, v) && 1 <= s[a].field <= |ws|
    requires Slice(ws, v, ReadAt(ws, s[a].field), ws[s[a].field - 1]) == v[s[a].field - 1]
    ensures var d := ChildAt(s[a].edges, v[s[a].field - 1]);
            d in s && (InBdd(ws, s, a, v) <==> InBdd(ws, s, d, v))
  {
    var f, e := s[a].field, s[a].edges;
    NodeChild(ws, s, a, v);
    var d := ChildAt(e, v[f - 1]);
    LevelBound(ws, s, d);
    if InBdd(ws, s, a, v) {
      var c :| c in e && c in s && f < Level(s, c) <= LEAF_FIELD && LabelAt(ws, f, e[c], v) && InBdd(ws, s, c, v);
      ChildAtUnique(e, v[f - 1], c);
    }
    if InBdd(ws, s, d, v) && d in e {
      assert LabelAt(ws, f, e[d], v);
    }
  }

  /** The BDD of every Boolean diagram means what the diagram means. */
  ghost predicate Faithful(ws: Widths) {
    forall s, a, v {:trigger InBdd(ws, s, a, v)} :: Wf(ws, s) && BoolStore(s) && a in s && Fits(ws, v) ==>
      (InBdd(ws, s, a, v) <==> Eval(ws, s, a, v) != 0.0)
  }

  // ---------------------------------------------------------------- field by field

  /** FALSE, TRUE and a node of field f with one edge to TRUE. */
  function LabelStore(f: nat, l: Label): Store {
    map[FALSE := Leaf(0.0), TRUE := Leaf(1.0), 2 := Internal(f, map[TRUE := l])]
  }

  /** A label that some values of the field are in and some are not. */
  ghost predicate Splits(ws: Widths, f: nat, l: Label) {
    1 <= f <= |ws| && l <= FieldUniv(ws, f) && l != {} && l != FieldUniv(ws, f)
  }

  lemma LabelStoreOk(ws: Widths, f: nat, l: Label)
    requires Layout(ws) && Splits(ws, f, l)
    ensures Wf(ws, LabelStore(f, l)) && BoolStore(LabelStore(f, l))
  {
    var s := LabelStore(f, l);
    forall i | i in s ensures WfNode(ws, s, s[i]) {
      if i == 2 { assert EdgeOk(ws, s, f, map[TRUE := l], TRUE); }
    }
    forall i, j | i in s && j in s && SameNode(s, i, j) ensures i == j {}
  }

  /** The BDD of such a node is its label, read where the conversion puts it. */
  lemma LabelBdd(ws: Widths, f: nat, l: Label, v: Assignment)
    requires Layout(ws) && Splits(ws, f, l) && Fits(ws, v)
    ensures Wf(ws, LabelStore(f, l))
    ensures InBdd(ws, LabelStore(f, l), 2, v) <==> LabelAt(ws, f, l, v)
    ensures Eval(ws, LabelStore(f, l), 2, v) != 0.0 <==> v[f - 1] in l
  {
    var s := LabelStore(f, l);
    LabelStoreOk(ws, f, l);
    NodeChild(ws, s, 2, v);
    SentinelValues(ws, s, v);
    assert s[2].edges == map[TRUE := l] && InBdd(ws, s, TRUE, v);
    if v[f - 1] in l { ChildAtUnique(s[2].edges, v[f - 1], TRUE); }
  }

  /** The values of field f with bit j set. */
  ghost function BitLabel(ws: Widths, f: nat, j: nat): Label
    requires 1 <= f <= |ws|
  {
    set x | x in FieldUniv(ws, f) && j < |x| && x[j]
  }

  lemma BitLabelSplits(ws: Widths, f: nat, j: nat)
    requires 1 <= f <= |ws| && j < ws[f - 1]
    ensures Splits(ws, f, BitLabel(ws, f, j))
  {
    var z := Zeros(ws[f - 1]);
    assert z in FieldUniv(ws, f) && z !in BitLabel(ws, f, j);
    assert z[j := true] in BitLabel(ws, f, j);
  }

  /** The BDD of the node of bit j of field f is a single variable: its own if the field starts at
      or after the greatest width, and the shared variable of that bit if it starts before. */
  lemma BitIsVariable(ws: Widths, f: nat, j: nat, v: Assignment)
    requires Layout(ws) && 1 <= f <= |ws| && j < ws[f - 1] && Fits(ws, v)
    ensures Wf(ws, LabelStore(f, BitLabel(ws, f, j)))
    ensures InBdd(ws, LabelStore(f, BitLabel(ws, f, j)), 2, v) <==>
            BitAt(ws, v, if Start(ws, f) >= MaxWidth(ws) then Start(ws, f) + j else MaxWidth(ws) - ws[f - 1] + j)
  {
    BitLabelSplits(ws, f, j);
    LabelBdd(ws, f, BitLabel(ws, f, j), v);
    var x := Slice(ws, v, ReadAt(ws, f), ws[f - 1]);
    assert x in FieldUniv(ws, f);
  }

  /** Every node of field f over TRUE is converted to a BDD that means the same. */
  ghost predicate FieldFaithful(ws: Widths, f: nat)
    requires Layout(ws)
  {
    forall l, v {:trigger LabelAt(ws, f, l, v)} :: Splits(ws, f, l) && Fits(ws, v) ==>
      FaithfulAt(ws, f, l, v)
  }

  ghost predicate FaithfulAt(ws: Widths, f: nat, l: Label, v: Assignment)
    requires Layout(ws) && Splits(ws, f, l) && Fits(ws, v)
  {
    LabelStoreOk(ws, f, l);
    InBdd(ws, LabelStore(f, l), 2, v) <==> Eval(ws, LabelStore(f, l), 2, v) != 0.0
  }

  /** The field starts at or after the greatest width, or ends exactly there. */
  predicate WellPlaced(ws: Widths, f: nat)
    requires 1 <= f <= |ws|
  {
    Start(ws, f) >= MaxWidth(ws) || Start(ws, f) + ws[f - 1] == MaxWidth(ws)
  }

  lemma FieldFaithfulIff(ws: Widths, f: nat)
    requires Layout(ws) && 1 <= f <= |ws|
    ensures FieldFaithful(ws, f) <==> WellPlaced(ws, f)
  {
    if WellPlaced(ws, f) {
      forall l, v | Splits(ws, f, l) && Fits(ws, v) ensures FaithfulAt(ws, f, l, v) {
        LabelBdd(ws, f, l, v);
        SliceOwn(ws, v, f);
      }
    } else {
      var v := Misread(ws, f);
      var l := BitLabel(ws, f, 0);
      assert LabelAt(ws, f, l, v) || !LabelAt(ws, f, l, v);
      assert !FaithfulAt(ws, f, l, v);
    }
  }

  /** The assignment whose only true variable is the first of field f. */
  function OnlyFirst(ws: Widths, f: nat): (v: Assignment)
    requires Layout(ws) && 1 <= f <= |ws|
    ensures Fits(ws, v) && v[f - 1][0]
  {
    ZeroAssignment(ws)[f - 1 := Zeros(ws[f - 1])[0 := true]]
  }

  lemma {:induction false} OnlyFirstBit(ws: Widths, f: nat, g: nat, i: nat)
    requires Layout(ws) && 1 <= f <= |ws| && g >= 1 && BitFrom(ws, OnlyFirst(ws, f), g, i)
    ensures g <= f && Start(ws, f) == Start(ws, g) + i
    decreases |ws| + 1 - g
  {
    if i >= ws[g - 1] { OnlyFirstBit(ws, f, g + 1, i - ws[g - 1]); }
  }

  /** The first bit of a field that is not well placed is read somewhere else. */
  lemma Misread(ws: Widths, f: nat) returns (v: Assignment)
    requires Layout(ws) && 1 <= f <= |ws| && !WellPlaced(ws, f)
    ensures var s := LabelStore(f, BitLabel(ws, f, 0));
            && Fits(ws, v) && Splits(ws, f, BitLabel(ws, f, 0)) && Wf(ws, s) && BoolStore(s)
            && !InBdd(ws, s, 2, v) && Eval(ws, s, 2, v) != 0.0
  {
    v := OnlyFirst(ws, f);
    BitLabelSplits(ws, f, 0);
    LabelStoreOk(ws, f, BitLabel(ws, f, 0));
    LabelBdd(ws, f, BitLabel(ws, f, 0), v);
    BitIsVariable(ws, f, 0, v);
    if BitAt(ws, v, MaxWidth(ws) - ws[f - 1]) { OnlyFirstBit(ws, f, 1, MaxWidth(ws) - ws[f - 1]); }
  }

  /** The conversion is right for all diagrams exactly when it is for every field, and that is
      when field 1 has the greatest width. */
  lemma FaithfulIffFirstWidest(ws: Widths)
    requires Layout(ws)
    ensures Faithful(ws) <==> ws[0] == MaxWidth(ws)
    ensures Faithful(ws) <==> forall f :: 1 <= f <= |ws| ==> FieldFaithful(ws, f)
  {
    if ws[0] == MaxWidth(ws) {
      forall s, a, v | Wf(ws, s) && BoolStore(s) && a in s && Fits(ws, v)
        ensures InBdd(ws, s, a, v) <==> Eval(ws, s, a, v) != 0.0
      {
        InBddIsEval(ws, s, a, v);
      }
      forall f | 1 <= f <= |ws| ensures FieldFaithful(ws, f) {
        FieldFaithfulIff(ws, f);
        if f > 1 { StartNext(ws, 1, f); }
      }
    } else {
      FieldFaithfulIff(ws, 1);
      assert !WellPlaced(ws, 1);
      var v := Misread(ws, 1);
      var s := LabelStore(1, BitLabel(ws, 1, 0));
      assert InBdd(ws, s, 2, v) != (Eval(ws, s, 2, v) != 0.0);
    }
  }

  // ---------------------------------------------------------------- round trips

  /** BDD to diagram and back is the same BDD. */
  lemma RoundTripBdd(ws: Widths, s: Store, b: Bdd, r: Id, v: Assignment)
    requires Converted(ws, s, b, r) && BoolStore(s) && ws[0] == MaxWidth(ws) && Fits(ws, v)
    ensures InBdd(ws, s, r, v) <==> Sem(ws, b, v)
  {
    InBddIsEval(ws, s, r, v);
  }

  /** b is the BDD of node a. */
  ghost predicate BddOf(ws: Widths, s: Store, a: Id, b: Bdd)
    requires Wf(ws, s) && a in s
  {
    forall v {:trigger Fits(ws, v)} :: Fits(ws, v) ==> (Sem(ws, b, v) <==> InBdd(ws, s, a, v))
  }

  /** Diagram to BDD and back is the same node. */
  lemma RoundTripNode(ws: Widths, s: Store, a: Id, b: Bdd, r: Id)
    requires Wf(ws, s) && BoolStore(s) && a in s && ws[0] == MaxWidth(ws) && BddOf(ws, s, a, b)
    requires Converted(ws, s, b, r)
    ensures r == a
  {
    forall v | Fits(ws, v) ensures Eval(ws, s, r, v) == Eval(ws, s, a, v) {
      InBddIsEval(ws, s, a, v);
      EvalBool(ws, s, a, v);
    }
    Canonicity(ws, s, r, a);
  }
}
