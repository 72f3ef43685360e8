/** Whole arithmetic runs, collections included, against functions that know nothing of nodes.
    A client can reference internal nodes only: the counts of leaves are sticky, and a collection
    looks at the edges of table nodes, so a leaf that only a client holds is lost. */
module Calculations {
  import opened Labels
  import opened Fractions
  import opened Diagram
  import opened Division
  import opened Operations
  import opened Liveness
  import opened StoreSteps
  import opened Collection
  import opened Engines
  import opened Quantify
  import opened Summing

  /** One client call. All but the last two put their result into a new register. */
  datatype Calc =
    | Constant(q: Frac)
    | Indicator(field: nat, region: Label)
    | Combine(op: Op, i: nat, j: nat)
    | SumOut(field: nat, i: nat)
    | Drop(i: nat)
    | GarbageCollect

  /** A register holds a node until the client drops it or a collection takes it. */
  datatype Reg = Held(id: Id) | Dropped | Lost

  datatype Status = Ok | Error | Dangling

  predicate ArithmeticOp(op: Op) { op.Plus? || op.Minus? || op.Times? || op.Divide? }

  // ---------------------------------------------------------------- the reference

  ghost function Zero(): Fn { v => 0.0 }

  ghost function RegAt(fs: seq<Fn>, i: nat): Fn { if i < |fs| then fs[i] else Zero() }

  ghost function ExactFn(ws: Widths, op: Op, x: Fn, y: Fn): Fn {
    v => if op.Plus? then x(v) + y(v)
         else if op.Minus? then x(v) - y(v)
         else if op.Times? then Product(x(v), y(v))
         else if |v| == |ws| then QuotOf(ws, x, y, v, 0)
         else 0.0
  }

  ghost function AlongFn(x: Fn, v: Assignment, t: nat): Bits -> real
    requires 1 <= t <= |v|
  {
    z => x(Put(v, t, z))
  }

  ghost function SumFn(ws: Widths, t: nat, x: Fn): Fn {
    v => if 1 <= t <= |ws| && |v| == |ws| then SumOver(FieldUniv(ws, t), AlongFn(x, v, t)) else 0.0
  }

  /** The function of the new register. */
  ghost function ResultFn(ws: Widths, c: Calc, fs: seq<Fn>): Fn {
    match c
    case Constant(q) => if Canonical(q) then v => Value(q) else Zero()
    case Indicator(f, l) => v => if 1 <= f <= |v| && v[f - 1] in l then 1.0 else 0.0
    case Combine(op, i, j) => ExactFn(ws, op, RegAt(fs, i), RegAt(fs, j))
    case SumOut(t, i) => SumFn(ws, t, RegAt(fs, i))
    case _ => Zero()
  }

  predicate Makes(c: Calc) { !c.Drop? && !c.GarbageCollect? }

  ghost function RefStep(ws: Widths, c: Calc, fs: seq<Fn>): seq<Fn> {
    if Makes(c) then fs + [ResultFn(ws, c, fs)] else fs
  }

  ghost function Reference(ws: Widths, cs: seq<Calc>, fs: seq<Fn>): seq<Fn> {
    if cs == [] then fs else RefStep(ws, cs[|cs| - 1], Reference(ws, cs[..|cs| - 1], fs))
  }

  /** Some sum of x over values of field t, the other fields as in v, cannot be represented. */
  ghost predicate SumOverflows(ws: Widths, t: nat, x: Fn, v: Assignment, z: Label)
    requires 1 <= t <= |ws|
  {
    Fits(ws, v) && z <= FieldUniv(ws, t) && !Representable(SumOver(z, AlongFn(x, v, t)))
  }

  ghost predicate DefinedFor(ws: Widths, op: Op, x: Fn, y: Fn) {
    && ArithmeticOp(op)
    && (forall v {:trigger Fits(ws, v)} :: Fits(ws, v) ==> DefinedAt(op, x(v), y(v)))
    && (op.Divide? ==> exists v {:trigger Fits(ws, v)} :: Fits(ws, v) && y(v) != 0.0)
  }

  /** The call has a result whatever the order in which edges are visited. */
  ghost predicate Fine(ws: Widths, c: Calc, fs: seq<Fn>) {
    match c
    case Constant(q) => Canonical(q)
    case Indicator(f, l) => 1 <= f <= |ws| && l <= FieldUniv(ws, f)
    case Combine(op, i, j) => DefinedFor(ws, op, RegAt(fs, i), RegAt(fs, j))
    case SumOut(t, i) => 1 <= t <= |ws| && ws[t - 1] <= 30 && forall v, z :: !SumOverflows(ws, t, RegAt(fs, i), v, z)
    case _ => true
  }

  // ---------------------------------------------------------------- registers

  ghost predicate Denote(ws: Widths, s: Store, a: Id, x: Fn) {
    Wf(ws, s) && a in s && forall v {:trigger Fits(ws, v)} :: Fits(ws, v) ==> Eval(ws, s, a, v) == x(v)
  }

  ghost predicate MeansAt(ws: Widths, s: Store, r: Reg, x: Fn) { r.Held? ==> Denote(ws, s, r.id, x) }

  /** Every register that still holds a node denotes its function. */
  ghost predicate Means(ws: Widths, s: Store, regs: seq<Reg>, fs: seq<Fn>) {
    && |regs| == |fs|
    && forall i {:trigger MeansAt(ws, s, regs[i], fs[i])} :: 0 <= i < |regs| ==> MeansAt(ws, s, regs[i], fs[i])
  }

  ghost predicate OwnsAt(s: Store, pins: multiset<Id>, regs: seq<Reg>, a: Id) {
    pins[a] == if a in s && s[a].Internal? then multiset(regs)[Held(a)] else 0
  }

  /** The references held are those of the registers that hold internal nodes. */
  ghost predicate Owns(s: Store, pins: multiset<Id>, regs: seq<Reg>) {
    && (forall a {:trigger OwnsAt(s, pins, regs, a)} :: OwnsAt(s, pins, regs, a))
    && (forall i :: 0 <= i < |regs| && regs[i].Held? ==> regs[i].id in s)
  }

  ghost predicate Client(en: Engine, regs: seq<Reg>)
    reads en
  {
    en.Valid() && !en.boolean && ListsAll(en.order) && Owns(en.nodes, en.pins, regs)
  }

  lemma OwnsAppend(s: Store, pins: multiset<Id>, regs: seq<Reg>, r: Id)
    requires Owns(s, pins, regs) && r in s
    ensures Owns(s, if s[r].Internal? then pins + multiset{r} else pins, regs + [Held(r)])
  {
    var more := if s[r].Internal? then pins + multiset{r} else pins;
    var longer := regs + [Held(r)];
    forall a ensures OwnsAt(s, more, longer, a) { assert OwnsAt(s, pins, regs, a); }
  }

  lemma OwnsDrop(s: Store, pins: multiset<Id>, regs: seq<Reg>, i: nat)
    requires Owns(s, pins, regs) && i < |regs| && regs[i].Held?
    ensures var a := regs[i].id;
            && a in s && (s[a].Internal? ==> a in pins)
            && Owns(s, if s[a].Internal? then pins - multiset{a} else pins, regs[i := Dropped])
  {
    var a := regs[i].id;
    assert regs[i] in multiset(regs) && OwnsAt(s, pins, regs, a);
    var less := if s[a].Internal? then pins - multiset{a} else pins;
    var left := regs[i := Dropped];
    forall b ensures OwnsAt(s, less, left, b) { assert OwnsAt(s, pins, regs, b); }
  }

  lemma OwnsKept(s: Store, t: Store, pins: multiset<Id>, regs: seq<Reg>)
    requires Owns(s, pins, regs) && Keeps(s, t, s.Keys)
    ensures Owns(t, pins, regs)
  {
    forall a ensures OwnsAt(t, pins, regs, a) {
      assert OwnsAt(s, pins, regs, a);
      if Held(a) in multiset(regs) {
        var i :| 0 <= i < |regs| && regs[i] == Held(a);
        assert KeptAt(s, t, a);
      } else if a in s {
        assert KeptAt(s, t, a);
      }
    }
    forall i | 0 <= i < |regs| && regs[i].Held? ensures regs[i].id in t { assert KeptAt(s, t, regs[i].id); }
  }

  lemma DenoteKept(ws: Widths, s: Store, t: Store, k: set<Id>, a: Id, x: Fn)
    requires Denote(ws, s, a, x) && Wf(ws, t) && Closed(s, k) && Keeps(s, t, k) && a in k
    ensures Denote(ws, t, a, x)
  {
    assert KeptAt(s, t, a);
    forall v | Fits(ws, v) ensures Eval(ws, t, a, v) == x(v) { EvalKept(ws, s, t, k, a, v); }
  }

  lemma MeansKept(ws: Widths, s: Store, t: Store, regs: seq<Reg>, fs: seq<Fn>)
    requires Means(ws, s, regs, fs) && Wf(ws, s) && Wf(ws, t) && Keeps(s, t, s.Keys)
    ensures Means(ws, t, regs, fs)
  {
    AllClosed(ws, s);
    forall i | 0 <= i < |regs| ensures MeansAt(ws, t, regs[i], fs[i]) {
      assert MeansAt(ws, s, regs[i], fs[i]);
      if regs[i].Held? { DenoteKept(ws, s, t, s.Keys, regs[i].id, fs[i]); }
    }
  }

  lemma MeansAppend(ws: Widths, s: Store, regs: seq<Reg>, fs: seq<Fn>, r: Id, x: Fn)
    requires Means(ws, s, regs, fs) && Denote(ws, s, r, x)
    ensures Means(ws, s, regs + [Held(r)], fs + [x])
  {
    var regs', fs' := regs + [Held(r)], fs + [x];
    forall i | 0 <= i < |regs'| ensures MeansAt(ws, s, regs'[i], fs'[i]) {
      if i < |regs| { assert MeansAt(ws, s, regs[i], fs[i]); }
    }
  }

  // ---------------------------------------------------------------- results

  lemma CombineDenotes(ws: Widths, s: Store, op: Op, a: Id, b: Id, r: Id, x: Fn, y: Fn)
    requires ArithmeticOp(op) && Computes(ws, s, op, a, b, r) && Denote(ws, s, a, x) && Denote(ws, s, b, y)
    ensures Denote(ws, s, r, ExactFn(ws, op, x, y))
  {
    forall v | Fits(ws, v) ensures Eval(ws, s, r, v) == ExactFn(ws, op, x, y)(v) {
      assert ResultAt(ws, s, op, a, b, r, v);
      if op.Divide? { QuotientFn(ws, s, a, b, x, y, v); }
    }
  }

  /** The quotient is a function of the operands' functions. */
  lemma QuotientFn(ws: Widths, s: Store, a: Id, b: Id, x: Fn, y: Fn, v: Assignment)
    requires Denote(ws, s, a, x) && Denote(ws, s, b, y) && Fits(ws, v)
    ensures QuotAt(ws, s, a, b, v) == QuotOf(ws, x, y, v, 0)
  {
    LevelBound(ws, s, a);
    LevelBound(ws, s, b);
    forall w | Fits(ws, w) ensures Eval(ws, s, a, w) == x(Fix(v, w, 0)) && Eval(ws, s, b, w) == y(Fix(v, w, 0)) {
      assert Fix(v, w, 0) == w;
    }
    QuotAtIs(ws, s, a, b, x, y, v, 0);
  }

  lemma CombineFine(ws: Widths, s: Store, op: Op, a: Id, b: Id, r: Id, x: Fn, y: Fn)
    requires ArithmeticOp(op) && Computes(ws, s, op, a, b, r) && !(op.Divide? && b == FALSE)
    requires Denote(ws, s, a, x) && Denote(ws, s, b, y)
    ensures DefinedFor(ws, op, x, y)
  {
    forall v | Fits(ws, v) ensures DefinedAt(op, x(v), y(v)) { assert ResultAt(ws, s, op, a, b, r, v); }
    if op.Divide? {
      var v := NonZeroSomewhere(ws, s, b);
      assert Fits(ws, v) && y(v) != 0.0;
    }
  }

  lemma CombineNotFine(ws: Widths, s: Store, op: Op, a: Id, b: Id, x: Fn, y: Fn)
    requires Denote(ws, s, a, x) && Denote(ws, s, b, y)
    requires (op.Divide? && b == FALSE) || Undefined(ws, s, op, a, b)
    ensures !DefinedFor(ws, op, x, y)
  {
    if op.Divide? && b == FALSE {
      forall v | Fits(ws, v) ensures y(v) == 0.0 { SentinelValues(ws, s, v); }
    }
  }

  lemma SameAlong(ws: Widths, s: Store, t: nat, a: Id, x: Fn, v: Assignment, z: Label)
    requires Denote(ws, s, a, x) && Fits(ws, v) && 1 <= t <= |ws| && z <= FieldUniv(ws, t)
    ensures SumOver(z, Along(ws, s, a, v, t)) == SumOver(z, AlongFn(x, v, t))
  {
    forall y | y in z ensures Along(ws, s, a, v, t)(y) == AlongFn(x, v, t)(y) { PutFits(ws, v, t, y); }
    SumSame(z, Along(ws, s, a, v, t), AlongFn(x, v, t));
  }

  lemma SumDenotes(ws: Widths, s: Store, t: nat, a: Id, r: Id, x: Fn)
    requires Quantified(ws, s, Sum, t, a, r) && Denote(ws, s, a, x)
    ensures Denote(ws, s, r, SumFn(ws, t, x))
  {
    forall v | Fits(ws, v) ensures Eval(ws, s, r, v) == SumFn(ws, t, x)(v) {
      SameAlong(ws, s, t, a, x, v, FieldUniv(ws, t));
    }
  }

  lemma SumNotFine(ws: Widths, s: Store, t: nat, a: Id, x: Fn)
    requires Overflows(ws, s, t, a) && Denote(ws, s, a, x) && 1 <= t <= |ws|
    ensures exists v, z :: SumOverflows(ws, t, x, v, z)
  {
    var v, z :| OverflowAt(ws, s, t, a, v, z);
    SameAlong(ws, s, t, a, x, v, z);
    assert SumOverflows(ws, t, x, v, z);
  }

  // ---------------------------------------------------------------- one call

  predicate HeldAt(regs: seq<Reg>, i: nat) { i < |regs| && regs[i].Held? }

  /** The call names a register that holds nothing. */
  predicate Gone(c: Calc, regs: seq<Reg>) {
    match c
    case Combine(_, i, j) => !HeldAt(regs, i) || !HeldAt(regs, j)
    case SumOut(_, i) => !HeldAt(regs, i)
    case Drop(i) => !HeldAt(regs, i)
    case _ => false
  }

  lemma HeldDenotes(ws: Widths, s: Store, regs: seq<Reg>, fs: seq<Fn>, i: nat)
    requires Means(ws, s, regs, fs) && HeldAt(regs, i)
    ensures Denote(ws, s, regs[i].id, RegAt(fs, i))
  {
    assert MeansAt(ws, s, regs[i], fs[i]);
  }

  /** One more register, with a node. */
  predicate Grown(regs: seq<Reg>, regs': seq<Reg>) {
    |regs'| == |regs| + 1 && regs'[..|regs|] == regs && regs'[|regs|].Held?
  }

  /** A call that made node r: put it into a new register and reference it. */
  method Assign(en: Engine, regs: seq<Reg>, r: Id, ghost c: Calc, ghost fs: seq<Fn>, ghost s0: Store)
    returns (regs': seq<Reg>)
    requires en.Valid() && !en.boolean && Wf(en.ws, s0) && Keeps(s0, en.nodes, s0.Keys) && Owns(s0, en.pins, regs)
    requires ListsAll(en.order)
    requires Means(en.ws, s0, regs, fs) && Makes(c) && Denote(en.ws, en.nodes, r, ResultFn(en.ws, c, fs))
    modifies en`rc, en`pins, en`peak
    ensures Client(en, regs') && regs' == regs + [Held(r)] && Means(en.ws, en.nodes, regs', RefStep(en.ws, c, fs))
  {
    ghost var s := en.nodes;
    OwnsKept(s0, s, en.pins, regs);
    MeansKept(en.ws, s0, s, regs, fs);
    MeansAppend(en.ws, s, regs, fs, r, ResultFn(en.ws, c, fs));
    OwnsAppend(s, en.pins, regs, r);
    if en.nodes[r].Internal? { en.Pin(r); }
    regs' := regs + [Held(r)];
  }

  method DoConstant(en: Engine, regs: seq<Reg>, q: Frac, ghost fs: seq<Fn>) returns (regs': seq<Reg>)
    requires Client(en, regs) && Means(en.ws, en.nodes, regs, fs) && Canonical(q)
    modifies en
    ensures Client(en, regs') && Grown(regs, regs')
    ensures Means(en.ws, en.nodes, regs', RefStep(en.ws, Constant(q), fs))
  {
    ghost var s0 := en.nodes;
    var r := en.MkLeaf(q);
    forall v | Fits(en.ws, v) ensures Eval(en.ws, en.nodes, r, v) == Value(q) {}
    regs' := Assign(en, regs, r, Constant(q), fs, s0);
  }

  method DoIndicator(en: Engine, regs: seq<Reg>, f: nat, l: Label, ghost fs: seq<Fn>) returns (regs': seq<Reg>)
    requires Client(en, regs) && Means(en.ws, en.nodes, regs, fs) && Fine(en.ws, Indicator(f, l), fs)
    modifies en
    ensures Client(en, regs') && Grown(regs, regs')
    ensures Means(en.ws, en.nodes, regs', RefStep(en.ws, Indicator(f, l), fs))
  {
    ghost var s0 := en.nodes;
    var e := if l == {} then map[] else map[TRUE := l];
    assert WfEdges(en.ws, en.nodes, f, e);
    var r := en.Mk(f, e);
    forall v | Fits(en.ws, v) ensures Eval(en.ws, en.nodes, r, v) == if v[f - 1] in l then 1.0 else 0.0 {
      SentinelValues(en.ws, en.nodes, v);
      assert Eval(en.ws, en.nodes, r, v) == EvalEdges(en.ws, en.nodes, f, e, v);
      if v[f - 1] in l { ChildAtUnique(e, v[f - 1], TRUE); }
    }
    regs' := Assign(en, regs, r, Indicator(f, l), fs, s0);
  }

  method DoCombine(en: Engine, regs: seq<Reg>, op: Op, i: nat, j: nat, ghost fs: seq<Fn>)
    returns (st: Status, regs': seq<Reg>)
    requires Client(en, regs) && Means(en.ws, en.nodes, regs, fs) && HeldAt(regs, i) && HeldAt(regs, j)
    requires ArithmeticOp(op)
    modifies en
    ensures Client(en, regs') && !st.Dangling? && (st.Ok? <==> Fine(en.ws, Combine(op, i, j), fs))
    ensures st.Ok? ==> Grown(regs, regs')
    ensures st.Ok? ==> Means(en.ws, en.nodes, regs', RefStep(en.ws, Combine(op, i, j), fs))
    ensures st.Error? ==> regs' == regs && Means(en.ws, en.nodes, regs, fs)
  {
    ghost var s0 := en.nodes;
    var a, b := regs[i].id, regs[j].id;
    var o := en.Apply(op, a, b);
    KeepsLess(s0, en.nodes, s0.Keys, s0.Keys);
    MeansKept(en.ws, s0, en.nodes, regs, fs);
    HeldDenotes(en.ws, en.nodes, regs, fs, i);
    HeldDenotes(en.ws, en.nodes, regs, fs, j);
    if o.Got? {
      CombineDenotes(en.ws, en.nodes, op, a, b, o.id, RegAt(fs, i), RegAt(fs, j));
      CombineFine(en.ws, en.nodes, op, a, b, o.id, RegAt(fs, i), RegAt(fs, j));
      regs' := Assign(en, regs, o.id, Combine(op, i, j), fs, s0);
      st := Ok;
    } else {
      CombineNotFine(en.ws, en.nodes, op, a, b, RegAt(fs, i), RegAt(fs, j));
      OwnsKept(s0, en.nodes, en.pins, regs);
      st, regs' := Error, regs;
    }
  }

  method DoSumOut(en: Engine, regs: seq<Reg>, t: nat, i: nat, ghost fs: seq<Fn>) returns (st: Status, regs': seq<Reg>)
    requires Client(en, regs) && Means(en.ws, en.nodes, regs, fs) && HeldAt(regs, i) && 1 <= t <= |en.ws|
    modifies en
    ensures Client(en, regs') && !st.Dangling? && (st.Error? ==> !Fine(en.ws, SumOut(t, i), fs))
    ensures st.Error? <==> SumFails(en.ws, old(en.nodes), en.order, t, regs[i].id)
    ensures st.Ok? ==> Grown(regs, regs')
    ensures st.Ok? ==> Means(en.ws, en.nodes, regs', RefStep(en.ws, SumOut(t, i), fs))
    ensures st.Error? ==> regs' == regs && Means(en.ws, en.nodes, regs, fs)
  {
    ghost var s0 := en.nodes;
    var a := regs[i].id;
    var o := AbstractPlus(en, a, t);
    KeepsLess(s0, en.nodes, s0.Keys, s0.Keys);
    MeansKept(en.ws, s0, en.nodes, regs, fs);
    HeldDenotes(en.ws, en.nodes, regs, fs, i);
    if o.Got? {
      SumDenotes(en.ws, en.nodes, t, a, o.id, RegAt(fs, i));
      regs' := Assign(en, regs, o.id, SumOut(t, i), fs, s0);
      st := Ok;
    } else {
      HeldDenotes(en.ws, s0, regs, fs, i);
      if en.ws[t - 1] <= 30 {
        FailsOverflows(en.ws, s0, en.order, t, a);
        SumNotFine(en.ws, s0, t, a, RegAt(fs, i));
      }
      OwnsKept(s0, en.nodes, en.pins, regs);
      st, regs' := Error, regs;
    }
  }

  method DoDrop(en: Engine, regs: seq<Reg>, i: nat, ghost fs: seq<Fn>) returns (regs': seq<Reg>)
    requires Client(en, regs) && Means(en.ws, en.nodes, regs, fs) && HeldAt(regs, i)
    modifies en
    ensures Client(en, regs') && regs' == regs[i := Dropped] && Means(en.ws, en.nodes, regs', fs)
  {
    ghost var s := en.nodes;
    OwnsDrop(s, en.pins, regs, i);
    regs' := regs[i := Dropped];
    if en.nodes[regs[i].id].Internal? { en.UnpinOne(regs[i].id); }
    forall k | 0 <= k < |regs'| ensures MeansAt(en.ws, s, regs'[k], fs[k]) { assert MeansAt(en.ws, s, regs[k], fs[k]); }
  }

  // ---------------------------------------------------------------- collection

  /** A register after a collection that left store t: leaves that no table node points to are
      gone, referenced or not. */
  function After(t: Store, r: Reg): Reg { if r.Held? && r.id !in t then Lost else r }

  function AfterAll(t: Store, regs: seq<Reg>): seq<Reg> { seq(|regs|, i requires 0 <= i < |regs| => After(t, regs[i])) }

  /** A register keeps its node in a collection exactly when the node could be reached before it
      from the roots. */
  ghost predicate Survives(ws: Widths, s: Store, roots: multiset<Id>, t: Store, r: Reg)
    requires Wf(ws, s)
  {
    r.Held? ==> r.id in s && (After(t, r) == r <==> Live(ws, s, roots, r.id))
  }

  ghost predicate AllSurvive(ws: Widths, s: Store, roots: multiset<Id>, t: Store, regs: seq<Reg>) {
    && Wf(ws, s) && t.Keys == LiveSet(ws, s, roots)
    && forall i :: 0 <= i < |regs| ==> Survives(ws, s, roots, t, regs[i])
  }

  /** An internal node of a register is a root; a leaf is reached if it is a sentinel or if a node
      that is reached points to it. */
  lemma RegReached(ws: Widths, s: Store, rc: Counts, pins: multiset<Id>, regs: seq<Reg>, i: nat)
    requires Wf(ws, s) && Owns(s, pins, regs) && HeldAt(regs, i) && (forall a :: a in pins ==> a in s && s[a].Internal?)
    ensures var a, roots := regs[i].id, Roots(s, rc, pins);
            && a in s && (s[a].Internal? ==> Live(ws, s, roots, a))
            && (s[a].Leaf? ==> (Live(ws, s, roots, a) <==>
                  a == FALSE || a == TRUE || exists p :: p in Parents(s, a) && Live(ws, s, roots, p)))
  {
    var a := regs[i].id;
    assert regs[i] in multiset(regs) && OwnsAt(s, pins, regs, a);
    if p :| p in Parents(s, a) && Live(ws, s, Roots(s, rc, pins), p) { NodeChildren(ws, s, p); }
    if s[a].Leaf? && Live(ws, s, Roots(s, rc, pins), a) && a != FALSE && a != TRUE {
      assert a !in Roots(s, rc, pins);
      var p :| p in s && s[p].Internal? && a in s[p].edges && Live(ws, s, Roots(s, rc, pins), p);
      IsParent(s, p, a);
    }
  }

  lemma AfterOwns(ws: Widths, s: Store, t: Store, rc: Counts, pins: multiset<Id>, regs: seq<Reg>)
    requires Collected(ws, s, t, rc, pins) && Owns(s, pins, regs)
    ensures Owns(t, pins, AfterAll(t, regs))
  {
    var regs' := AfterAll(t, regs);
    KeepsLess(s, t, LiveSet(ws, s, pins), LiveSet(ws, s, pins));
    forall a ensures OwnsAt(t, pins, regs', a) {
      assert OwnsAt(s, pins, regs, a);
      assert a in s && s[a].Internal? && a !in t ==> a !in LiveSet(ws, s, pins);
      if a in t { HeldCount(t, regs, a); }
    }
  }

  /** Registers that hold a surviving node are as many as before. */
  lemma {:induction false} HeldCount(t: Store, regs: seq<Reg>, a: Id)
    requires a in t
    ensures multiset(AfterAll(t, regs))[Held(a)] == multiset(regs)[Held(a)]
    decreases |regs|
  {
    if regs != [] {
      var k := |regs| - 1;
      HeldCount(t, regs[..k], a);
      assert regs == regs[..k] + [regs[k]];
      assert AfterAll(t, regs) == AfterAll(t, regs[..k]) + [After(t, regs[k])];
    }
  }

  lemma AfterMeans(ws: Widths, s: Store, t: Store, rc: Counts, pins: multiset<Id>, regs: seq<Reg>, fs: seq<Fn>)
    requires Collected(ws, s, t, rc, pins) && Means(ws, s, regs, fs)
    ensures Means(ws, t, AfterAll(t, regs), fs)
  {
    var regs' := AfterAll(t, regs);
    AllClosed(ws, t);
    forall i | 0 <= i < |regs'| ensures MeansAt(ws, t, regs'[i], fs[i]) {
      assert MeansAt(ws, s, regs[i], fs[i]);
      if regs'[i].Held? { DenoteBack(ws, s, t, regs[i].id, fs[i]); }
    }
  }

  /** A surviving node means what it meant. */
  lemma DenoteBack(ws: Widths, s: Store, t: Store, a: Id, x: Fn)
    requires Denote(ws, s, a, x) && Wf(ws, t) && Submap(t, s) && a in t
    ensures Denote(ws, t, a, x)
  {
    AllClosed(ws, t);
    forall i | i in t ensures KeptAt(t, s, i) {}
    forall v | Fits(ws, v) ensures Eval(ws, t, a, v) == x(v) { EvalKept(ws, t, s, t.Keys, a, v); }
  }

  /** A collection leaves exactly the nodes that could be reached before it, so it takes exactly
      the client's leaves that are no sentinels and that no such node points to. */
  method DoCollect(en: Engine, regs: seq<Reg>, ghost fs: seq<Fn>) returns (regs': seq<Reg>)
    requires Client(en, regs) && Means(en.ws, en.nodes, regs, fs)
    modifies en
    ensures Client(en, regs') && regs' == AfterAll(en.nodes, regs) && Means(en.ws, en.nodes, regs', fs)
    ensures AllSurvive(en.ws, old(en.nodes), Roots(old(en.nodes), old(en.rc), old(en.pins)), en.nodes, regs)
    ensures Submap(en.nodes, old(en.nodes)) && Clean(en)
  {
    ghost var s0, p := en.nodes, en.pins;
    en.Collect();
    AfterOwns(en.ws, s0, en.nodes, en.rc, p, regs);
    AfterMeans(en.ws, s0, en.nodes, en.rc, p, regs, fs);
    regs' := AfterAll(en.nodes, regs);
  }

  // ---------------------------------------------------------------- whole runs

  /** A new leaf that no diagram contains is taken by the next collection although the client
      holds it. */
  method ConstantLost(en: Engine, regs: seq<Reg>, q: Frac, ghost fs: seq<Fn>) returns (regs': seq<Reg>)
    requires Client(en, regs) && Means(en.ws, en.nodes, regs, fs) && Canonical(q) && Value(q) != 0.0 && Value(q) != 1.0
    requires forall p, c :: p in en.nodes && en.nodes[p].Internal? && c in en.nodes[p].edges && c in en.nodes ==>
               en.nodes[c] != Leaf(Value(q))
    modifies en
    ensures Client(en, regs') && |regs'| == |regs| + 1 && regs'[|regs|] == Lost
  {
    ghost var s0 := en.nodes;
    var r := en.MkLeaf(q);
    ghost var s1 := en.nodes;
    LeafUnused(en.ws, s0, s1, q, r);
    forall v | Fits(en.ws, v) ensures Eval(en.ws, en.nodes, r, v) == Value(q) {}
    regs' := Assign(en, regs, r, Constant(q), fs, s0);
    var held := regs';
    ghost var roots := Roots(s1, en.rc, en.pins);
    regs' := DoCollect(en, held, RefStep(en.ws, Constant(q), fs));
    assert Survives(en.ws, s1, roots, en.nodes, held[|regs|]);
    assert r !in roots;
    if Live(en.ws, s1, roots, r) {
      var p :| p in s1 && s1[p].Internal? && r in s1[p].edges;
      IsParent(s1, p, r);
    }
  }

  lemma LeafUnused(ws: Widths, s: Store, t: Store, q: Frac, r: Id)
    requires Wf(ws, s) && Wf(ws, t) && Keeps(s, t, s.Keys) && Canonical(q) && r in t && t[r] == Leaf(Value(q))
    requires Value(q) != 0.0 && Value(q) != 1.0 && forall i :: i in t && i !in s ==> i == r
    requires forall p, c :: p in s && s[p].Internal? && c in s[p].edges && c in s ==> s[c] != Leaf(Value(q))
    ensures !Marked(t, r)
  {
    forall p | p in t && t[p].Internal? ensures r !in t[p].edges {
      assert KeptAt(s, t, p);
      NodeChildren(ws, s, p);
      assert r in s ==> KeptAt(s, t, r);
    }
  }

  /** One call: it fails for want of a register, or of a result, or puts the right function into
      the right register. */
  method Do(en: Engine, regs: seq<Reg>, c: Calc, ghost fs: seq<Fn>) returns (st: Status, regs': seq<Reg>)
    requires Client(en, regs) && Means(en.ws, en.nodes, regs, fs)
    modifies en
    ensures Client(en, regs') && (st.Dangling? <==> Gone(c, regs)) && (st.Error? ==> !Fine(en.ws, c, fs))
    ensures st.Ok? && !c.SumOut? ==> Fine(en.ws, c, fs)
    ensures c.SumOut? && !st.Dangling? ==>
              (st.Ok? <==> 1 <= c.field <= |en.ws| && !SumFails(en.ws, old(en.nodes), en.order, c.field, regs[c.i].id))
    ensures Means(en.ws, en.nodes, regs', if st.Ok? then RefStep(en.ws, c, fs) else fs) && (!st.Ok? ==> regs' == regs)
    ensures st.Ok? && c.GarbageCollect? ==> Clean(en)
    ensures st.Ok? ==> Moved(en.ws, c, old(en.nodes), old(Roots(en.nodes, en.rc, en.pins)), regs, en.nodes, regs')
  {
    st, regs' := Error, regs;
    if Gone(c, regs) {
      st := Dangling;
    } else {
      match c
      case Constant(q) =>
        if Canonical(q) {
          regs' := DoConstant(en, regs, q, fs);
          st := Ok;
        }
      case Indicator(f, l) =>
        if 1 <= f <= |en.ws| && l <= en.univ[f - 1] {
          regs' := DoIndicator(en, regs, f, l, fs);
          st := Ok;
        }
      case Combine(op, i, j) =>
        if ArithmeticOp(op) { st, regs' := DoCombine(en, regs, op, i, j, fs); }
      case SumOut(t, i) =>
        if 1 <= t <= |en.ws| { st, regs' := DoSumOut(en, regs, t, i, fs); }
      case Drop(i) =>
        regs' := DoDrop(en, regs, i, fs);
        st := Ok;
      case GarbageCollect =>
        regs' := DoCollect(en, regs, fs);
        st := Ok;
    }
  }

  /** The engine holds exactly the nodes that can be reached from the references held, if no node
      has had UINT32_MAX references and edges. */
  ghost predicate Clean(en: Engine)
    reads en
  {
    en.Valid() && (en.peak < PROTECTED ==> en.nodes.Keys == LiveSet(en.ws, en.nodes, en.pins))
  }

  /** What a call does to the registers that were there. */
  ghost predicate Moved(ws: Widths, c: Calc, s: Store, roots: multiset<Id>, regs: seq<Reg>, t: Store, regs': seq<Reg>) {
    match c
    case Drop(i) => i < |regs| && regs' == regs[i := Dropped]
    case GarbageCollect => regs' == AfterAll(t, regs) && AllSurvive(ws, s, roots, t, regs)
    case _ => Grown(regs, regs')
  }

  /** Any list of calls follows the reference until a call has no result or names a register that
      holds nothing, whatever was cached or collected on the way. */
  method Calculate(en: Engine, cs: seq<Calc>, regs: seq<Reg>, ghost fs: seq<Fn>)
    returns (st: Status, regs': seq<Reg>, n: nat)
    requires Client(en, regs) && Means(en.ws, en.nodes, regs, fs)
    modifies en
    ensures Client(en, regs') && n <= |cs| && (st.Ok? <==> n == |cs|)
    ensures Means(en.ws, en.nodes, regs', Reference(en.ws, cs[..n], fs))
    ensures st.Error? ==> !Fine(en.ws, cs[n], Reference(en.ws, cs[..n], fs))
    ensures st.Dangling? ==> Gone(cs[n], regs')
    ensures forall k {:trigger FineAt(en.ws, cs, k, fs)} :: 0 <= k < n ==> FineAt(en.ws, cs, k, fs)
    ensures st.Ok? && n > 0 && cs[n - 1].GarbageCollect? ==> Clean(en)
  {
    st, regs', n := Ok, regs, 0;
    ghost var gs := fs;
    while n < |cs| && st.Ok?
      invariant Client(en, regs') && n <= |cs| && (!st.Ok? ==> n < |cs|)
      invariant gs == Reference(en.ws, cs[..n], fs) && Means(en.ws, en.nodes, regs', gs)
      invariant st.Error? ==> !Fine(en.ws, cs[n], gs)
      invariant st.Dangling? ==> Gone(cs[n], regs')
      invariant forall k {:trigger FineAt(en.ws, cs, k, fs)} :: 0 <= k < n ==> FineAt(en.ws, cs, k, fs)
      invariant st.Ok? && n > 0 && cs[n - 1].GarbageCollect? ==> Clean(en)
      decreases |cs| - n, if st.Ok? then 1 else 0
    {
      st, regs' := Do(en, regs', cs[n], gs);
      if st.Ok? {
        ReferenceNext(en.ws, cs, n, fs);
        gs := RefStep(en.ws, cs[n], gs);
        n := n + 1;
      }
    }
  }

  lemma ReferenceNext(ws: Widths, cs: seq<Calc>, n: nat, fs: seq<Fn>)
    requires n < |cs|
    ensures Reference(ws, cs[..n + 1], fs) == RefStep(ws, cs[n], Reference(ws, cs[..n], fs))
  {
    assert cs[..n + 1][..n] == cs[..n];
  }

  /** Call k has a result in the reference, if that can be told without the order of edges. */
  ghost predicate FineAt(ws: Widths, cs: seq<Calc>, k: nat, fs: seq<Fn>)
    requires k < |cs|
  {
    cs[k].SumOut? || Fine(ws, cs[k], Reference(ws, cs[..k], fs))
  }

  /** Two registers that hold nodes hold the same node exactly when their functions agree. */
  lemma SameRegister(ws: Widths, s: Store, regs: seq<Reg>, fs: seq<Fn>, i: nat, j: nat)
    requires Means(ws, s, regs, fs) && HeldAt(regs, i) && HeldAt(regs, j)
    ensures regs[i] == regs[j] <==> forall v :: Fits(ws, v) ==> fs[i](v) == fs[j](v)
  {
    assert MeansAt(ws, s, regs[i], fs[i]) && MeansAt(ws, s, regs[j], fs[j]);
    Canonicity(ws, s, regs[i].id, regs[j].id);
  }
}
