/** Whole Boolean runs: any sequence of client calls, collections included, against a
    reference that knows nothing of nodes, caches or reference counts. */
module Runs {
  import opened Labels
  import opened Diagram
  import opened Operations
  import opened Liveness
  import opened Collection
  import opened Engines
  import opened BooleanOps

  /** One client call. Results go to a new register, on which the client holds a reference. */
  datatype Command =
    | Literal(field: nat, region: Label)
    | Binary(op: Op, i: nat, j: nat)
    | Complement(i: nat)
    | Drop(i: nat)
    | GarbageCollect

  /** A call a client with n registers can make. */
  ghost predicate Scoped(ws: Widths, c: Command, n: nat) {
    match c
    case Literal(f, l) => 1 <= f <= |ws| && l <= FieldUniv(ws, f)
    case Binary(op, i, j) => BooleanOp(op) && i < n && j < n
    case Complement(i) => i < n
    case Drop(i) => i < n
    case GarbageCollect => true
  }

  predicate IsOr(c: Command) { c.Binary? && c.op.Or? }

  function Arity(c: Command): nat { if c.Drop? || c.GarbageCollect? then 0 else 1 }

  /** Registers after a list of calls, when there were n before. */
  ghost predicate ScopedAll(ws: Widths, cs: seq<Command>, n: nat)
    decreases |cs|
  {
    cs == [] || (Scoped(ws, cs[0], n) && ScopedAll(ws, cs[1..], n + Arity(cs[0])))
  }

  // ---------------------------------------------------------------- the reference

  function Combine(op: Op, x: bool, y: bool): bool { if op.And? then x && y else x || y }

  /** What one call does to the truth values of the registers at assignment v. */
  ghost function Step(ws: Widths, c: Command, v: Assignment, regs: seq<bool>): (r: seq<bool>)
    requires Scoped(ws, c, |regs|) && |v| == |ws|
    ensures |r| == |regs| + Arity(c)
  {
    match c
    case Literal(f, l) => regs + [v[f - 1] in l]
    case Binary(op, i, j) => regs + [Combine(op, regs[i], regs[j])]
    case Complement(i) => regs + [!regs[i]]
    case Drop(i) => regs[i := false]
    case GarbageCollect => regs
  }

  ghost function Reference(ws: Widths, cs: seq<Command>, v: Assignment, regs: seq<bool>): (r: seq<bool>)
    requires ScopedAll(ws, cs, |regs|) && |v| == |ws|
    decreases |cs|
  {
    if cs == [] then regs else Reference(ws, cs[1..], v, Step(ws, cs[0], v, regs))
  }

  // ---------------------------------------------------------------- the client's registers

  /** One reference for each register that holds a. */
  ghost predicate OwnsAt(s: Store, pins: multiset<Id>, regs: seq<Id>, a: Id) {
    pins[a] == if a in s && s[a].Internal? then multiset(regs)[a] else 0
  }

  /** The references held are those of the registers that hold internal nodes. */
  ghost predicate Owns(s: Store, pins: multiset<Id>, regs: seq<Id>) {
    forall a {:trigger OwnsAt(s, pins, regs, a)} :: OwnsAt(s, pins, regs, a)
  }

  lemma OwnsAppend(s: Store, pins: multiset<Id>, regs: seq<Id>, r: Id)
    requires Owns(s, pins, regs) && r in s
    ensures Owns(s, if s[r].Internal? then pins + multiset{r} else pins, regs + [r])
  {
    var more := if s[r].Internal? then pins + multiset{r} else pins;
    forall a ensures OwnsAt(s, more, regs + [r], a) {
      assert OwnsAt(s, pins, regs, a);
    }
  }

  lemma OwnsDrop(s: Store, pins: multiset<Id>, regs: seq<Id>, i: nat)
    requires Owns(s, pins, regs) && i < |regs| && regs[i] in s && FALSE in s && s[FALSE].Leaf?
    ensures s[regs[i]].Internal? ==> regs[i] in pins
    ensures Owns(s, if s[regs[i]].Internal? then pins - multiset{regs[i]} else pins, regs[i := FALSE])
  {
    assert regs[i] in multiset(regs) && OwnsAt(s, pins, regs, regs[i]);
    var less := if s[regs[i]].Internal? then pins - multiset{regs[i]} else pins;
    var left := regs[i := FALSE];
    forall a ensures OwnsAt(s, less, left, a) {
      assert OwnsAt(s, pins, regs, a);
    }
  }

  lemma OwnsKept(s: Store, t: Store, pins: multiset<Id>, regs: seq<Id>)
    requires Owns(s, pins, regs) && forall i :: 0 <= i < |regs| ==> regs[i] in s && KeptAt(s, t, regs[i])
    ensures Owns(t, pins, regs)
  {
    forall a ensures OwnsAt(t, pins, regs, a) {
      assert OwnsAt(s, pins, regs, a);
      if a in multiset(regs) {
        var i :| 0 <= i < |regs| && regs[i] == a;
        assert KeptAt(s, t, regs[i]);
      }
    }
  }

  /** Every register is a node that no collection removes. */
  lemma RegsLive(ws: Widths, s: Store, pins: multiset<Id>, regs: seq<Id>)
    requires Wf(ws, s) && BoolStore(s) && Owns(s, pins, regs) && forall i :: 0 <= i < |regs| ==> regs[i] in s
    ensures forall i :: 0 <= i < |regs| ==> regs[i] in LiveSet(ws, s, pins)
  {
    forall i | 0 <= i < |regs| ensures regs[i] in LiveSet(ws, s, pins) {
      assert regs[i] in multiset(regs) && OwnsAt(s, pins, regs, regs[i]);
    }
  }

  ghost function Truth(x: bool): real { if x then 1.0 else 0.0 }

  ghost predicate MeansAt(ws: Widths, s: Store, regs: seq<Id>, bs: seq<bool>, v: Assignment)
    requires Wf(ws, s) && Fits(ws, v) && forall i :: 0 <= i < |regs| ==> regs[i] in s
  {
    |bs| == |regs| && forall i :: 0 <= i < |regs| ==> Eval(ws, s, regs[i], v) == Truth(bs[i])
  }

  lemma MeansKept(ws: Widths, s: Store, t: Store, k: set<Id>, regs: seq<Id>, bs: seq<bool>, v: Assignment)
    requires Wf(ws, s) && Wf(ws, t) && Fits(ws, v) && Closed(s, k) && Keeps(s, t, k)
    requires forall i :: 0 <= i < |regs| ==> regs[i] in k
    requires MeansAt(ws, s, regs, bs, v)
    ensures (forall i :: 0 <= i < |regs| ==> regs[i] in t) && MeansAt(ws, t, regs, bs, v)
  {
    forall i | 0 <= i < |regs| ensures regs[i] in t && Eval(ws, t, regs[i], v) == Eval(ws, s, regs[i], v) {
      EvalKept(ws, s, t, k, regs[i], v);
    }
  }

  /** A client with these registers, holding a reference on each. */
  ghost predicate Client(en: Engine, regs: seq<Id>)
    reads en
  {
    en.Valid() && en.boolean && Owns(en.nodes, en.pins, regs) && forall i :: 0 <= i < |regs| ==> regs[i] in en.nodes
  }

  /** The engine holds exactly the nodes that can be reached from the references held, if no OR has
      raised counts and no node has had UINT32_MAX references and edges. */
  ghost predicate Clean(en: Engine)
    reads en
  {
    en.Valid() && (!en.raised && en.peak < PROTECTED ==> en.nodes.Keys == LiveSet(en.ws, en.nodes, en.pins))
  }

  /** From store s to store t the registers have followed the reference's step. */
  ghost predicate Follows(ws: Widths, s: Store, regs: seq<Id>, t: Store, regs': seq<Id>, c: Command) {
    && Wf(ws, s) && Wf(ws, t) && Scoped(ws, c, |regs|)
    && (forall i :: 0 <= i < |regs| ==> regs[i] in s) && (forall i :: 0 <= i < |regs'| ==> regs'[i] in t)
    && forall v, bs {:trigger MeansAt(ws, s, regs, bs, v)} :: Fits(ws, v) && MeansAt(ws, s, regs, bs, v) ==>
         MeansAt(ws, t, regs', Step(ws, c, v, bs), v)
  }

  /** A call whose result r means what the reference says, stored in a new register. */
  lemma FollowsNew(ws: Widths, s: Store, t: Store, k: set<Id>, regs: seq<Id>, c: Command, r: Id)
    requires Wf(ws, s) && Wf(ws, t) && Closed(s, k) && Keeps(s, t, k) && Scoped(ws, c, |regs|) && Arity(c) == 1
    requires r in t
    requires forall i :: 0 <= i < |regs| ==> regs[i] in k
    requires forall v, bs {:trigger MeansAt(ws, s, regs, bs, v)} :: Fits(ws, v) && MeansAt(ws, s, regs, bs, v) ==>
               Eval(ws, t, r, v) == Truth(Step(ws, c, v, bs)[|regs|])
    ensures Follows(ws, s, regs, t, regs + [r], c)
  {
    forall i | 0 <= i < |regs| ensures regs[i] in t { assert KeptAt(s, t, regs[i]); }
    forall v, bs | Fits(ws, v) && MeansAt(ws, s, regs, bs, v)
      ensures MeansAt(ws, t, regs + [r], Step(ws, c, v, bs), v)
    {
      MeansKept(ws, s, t, k, regs, bs, v);
    }
  }

  lemma FollowsDrop(ws: Widths, s: Store, regs: seq<Id>, i: nat)
    requires Wf(ws, s) && i < |regs| && forall j :: 0 <= j < |regs| ==> regs[j] in s
    ensures Follows(ws, s, regs, s, regs[i := FALSE], Drop(i))
  {
    forall v, bs | Fits(ws, v) && MeansAt(ws, s, regs, bs, v)
      ensures MeansAt(ws, s, regs[i := FALSE], Step(ws, Drop(i), v, bs), v)
    {
      SentinelValues(ws, s, v);
    }
  }

  /** Store a result in a new register and take a reference on it. */
  method Assign(en: Engine, regs: seq<Id>, r: Id, ghost s0: Store) returns (regs': seq<Id>)
    requires en.Valid() && en.boolean && r in en.nodes && Owns(s0, en.pins, regs)
    requires forall i :: 0 <= i < |regs| ==> regs[i] in s0 && KeptAt(s0, en.nodes, regs[i])
    modifies en`rc, en`pins, en`peak
    ensures Client(en, regs') && regs' == regs + [r]
  {
    ghost var s := en.nodes;
    OwnsKept(s0, s, en.pins, regs);
    OwnsAppend(s, en.pins, regs, r);
    forall i | 0 <= i < |regs| ensures regs[i] in s { assert KeptAt(s0, s, regs[i]); }
    if en.nodes[r].Internal? { en.Pin(r); }
    regs' := regs + [r];
  }

  method DoLiteral(en: Engine, regs: seq<Id>, f: nat, l: Label) returns (regs': seq<Id>)
    requires Client(en, regs) && Scoped(en.ws, Literal(f, l), |regs|)
    modifies en
    ensures en.raised == old(en.raised)
    ensures Client(en, regs') && |regs'| == |regs| + 1 &&
            Follows(en.ws, old(en.nodes), regs, en.nodes, regs', Literal(f, l))
  {
    ghost var s0, k0 := en.nodes, en.Keep();
    RegsLive(en.ws, s0, en.pins, regs);
    en.KeepClosed();
    var e := if l == {} then map[] else map[TRUE := l];
    assert WfEdges(en.ws, en.nodes, f, e);
    var r := en.Mk(f, e);
    forall v | Fits(en.ws, v) ensures Eval(en.ws, en.nodes, r, v) == Truth(v[f - 1] in l) {
      SentinelValues(en.ws, en.nodes, v);
      assert Eval(en.ws, en.nodes, r, v) == EvalEdges(en.ws, en.nodes, f, e, v);
      if v[f - 1] in l { ChildAtUnique(e, v[f - 1], TRUE); }
    }
    FollowsNew(en.ws, s0, en.nodes, k0, regs, Literal(f, l), r);
    regs' := Assign(en, regs, r, s0);
  }

  method DoBinary(en: Engine, regs: seq<Id>, op: Op, i: nat, j: nat) returns (regs': seq<Id>)
    requires Client(en, regs) && Scoped(en.ws, Binary(op, i, j), |regs|)
    modifies en
    ensures en.raised == old(en.raised) || op.Or?
    ensures Client(en, regs') && |regs'| == |regs| + 1 &&
            Follows(en.ws, old(en.nodes), regs, en.nodes, regs', Binary(op, i, j))
  {
    ghost var s0, k0 := en.nodes, en.Keep();
    RegsLive(en.ws, s0, en.pins, regs);
    en.KeepClosed();
    var o := en.Apply(op, regs[i], regs[j]);
    var r := o.id;
    forall v, bs | Fits(en.ws, v) && MeansAt(en.ws, s0, regs, bs, v)
      ensures Eval(en.ws, en.nodes, r, v) == Truth(Combine(op, bs[i], bs[j]))
    {
      MeansKept(en.ws, s0, en.nodes, k0, regs, bs, v);
      assert ResultAt(en.ws, en.nodes, op, regs[i], regs[j], r, v);
    }
    FollowsNew(en.ws, s0, en.nodes, k0, regs, Binary(op, i, j), r);
    regs' := Assign(en, regs, r, s0);
  }

  method DoComplement(en: Engine, regs: seq<Id>, i: nat) returns (regs': seq<Id>)
    requires Client(en, regs) && i < |regs|
    modifies en
    ensures en.raised == old(en.raised)
    ensures Client(en, regs') && |regs'| == |regs| + 1 &&
            Follows(en.ws, old(en.nodes), regs, en.nodes, regs', Complement(i))
  {
    ghost var s0, k0 := en.nodes, en.Keep();
    RegsLive(en.ws, s0, en.pins, regs);
    en.KeepClosed();
    var r := Not(en, regs[i]);
    forall v, bs | Fits(en.ws, v) && MeansAt(en.ws, s0, regs, bs, v)
      ensures Eval(en.ws, en.nodes, r, v) == Truth(!bs[i])
    {
      MeansKept(en.ws, s0, en.nodes, k0, regs, bs, v);
      SentinelValues(en.ws, en.nodes, v);
      assert ResultAt(en.ws, en.nodes, Minus, TRUE, regs[i], r, v);
    }
    FollowsNew(en.ws, s0, en.nodes, k0, regs, Complement(i), r);
    regs' := Assign(en, regs, r, s0);
  }

  method DoDrop(en: Engine, regs: seq<Id>, i: nat) returns (regs': seq<Id>)
    requires Client(en, regs) && i < |regs|
    modifies en
    ensures en.raised == old(en.raised)
    ensures Client(en, regs') && |regs'| == |regs| && Follows(en.ws, old(en.nodes), regs, en.nodes, regs', Drop(i))
  {
    ghost var s := en.nodes;
    OwnsDrop(s, en.pins, regs, i);
    regs' := regs[i := FALSE];
    if en.nodes[regs[i]].Internal? { en.UnpinOne(regs[i]); }
    FollowsDrop(en.ws, s, regs, i);
  }

  method DoCollect(en: Engine, regs: seq<Id>)
    requires Client(en, regs)
    modifies en
    ensures en.raised == old(en.raised)
    ensures Client(en, regs) && Follows(en.ws, old(en.nodes), regs, en.nodes, regs, GarbageCollect)
    ensures !en.raised ==>
              en.nodes.Keys == LiveSet(en.ws, old(en.nodes), Roots(old(en.nodes), old(en.rc), old(en.pins)))
    ensures Clean(en) && Collected(en.ws, old(en.nodes), en.nodes, en.rc, en.pins)
  {
    ghost var s0 := en.nodes;
    ghost var k0 := LiveSet(en.ws, s0, en.pins);
    RegsLive(en.ws, s0, en.pins, regs);
    LiveClosed(en.ws, s0, en.pins);
    en.Collect();
    forall i | 0 <= i < |regs| ensures regs[i] in s0 && KeptAt(s0, en.nodes, regs[i]) { assert regs[i] in k0; }
    OwnsKept(s0, en.nodes, en.pins, regs);
    forall v, bs | Fits(en.ws, v) && MeansAt(en.ws, s0, regs, bs, v)
      ensures MeansAt(en.ws, en.nodes, regs, bs, v)
    {
      MeansKept(en.ws, s0, en.nodes, k0, regs, bs, v);
    }
  }

  method Do(en: Engine, regs: seq<Id>, c: Command) returns (regs': seq<Id>)
    requires Client(en, regs) && Scoped(en.ws, c, |regs|)
    modifies en
    ensures en.raised == old(en.raised) || IsOr(c)
    ensures Client(en, regs') && |regs'| == |regs| + Arity(c)
    ensures Follows(en.ws, old(en.nodes), regs, en.nodes, regs', c)
    ensures c.GarbageCollect? && !en.raised ==>
              en.nodes.Keys == LiveSet(en.ws, old(en.nodes), Roots(old(en.nodes), old(en.rc), old(en.pins)))
    ensures c.GarbageCollect? ==> Clean(en)
  {
    match c
    case Literal(f, l) => regs' := DoLiteral(en, regs, f, l);
    case Binary(op, i, j) => regs' := DoBinary(en, regs, op, i, j);
    case Complement(i) => regs' := DoComplement(en, regs, i);
    case Drop(i) => regs' := DoDrop(en, regs, i);
    case GarbageCollect =>
      DoCollect(en, regs);
      regs' := regs;
  }

  ghost predicate FollowsAll(ws: Widths, s: Store, regs: seq<Id>, t: Store, regs': seq<Id>, cs: seq<Command>) {
    && Wf(ws, s) && Wf(ws, t) && ScopedAll(ws, cs, |regs|)
    && (forall i :: 0 <= i < |regs| ==> regs[i] in s) && (forall i :: 0 <= i < |regs'| ==> regs'[i] in t)
    && forall v, bs {:trigger MeansAt(ws, s, regs, bs, v)} :: Fits(ws, v) && MeansAt(ws, s, regs, bs, v) ==>
         MeansAt(ws, t, regs', Reference(ws, cs, v, bs), v)
  }

  lemma FollowsChain(ws: Widths, s: Store, regs: seq<Id>, m: Store, mid: seq<Id>, t: Store, regs': seq<Id>,
                     cs: seq<Command>)
    requires cs != [] && Follows(ws, s, regs, m, mid, cs[0]) && |mid| == |regs| + Arity(cs[0])
    requires FollowsAll(ws, m, mid, t, regs', cs[1..])
    ensures FollowsAll(ws, s, regs, t, regs', cs)
  {
    forall v, bs | Fits(ws, v) && MeansAt(ws, s, regs, bs, v)
      ensures MeansAt(ws, t, regs', Reference(ws, cs, v, bs), v)
    {
      assert MeansAt(ws, m, mid, Step(ws, cs[0], v, bs), v);
    }
  }

  /** Any sequence of calls keeps the registers in step with the reference, whatever was
      cached, collected or dropped on the way. */
  method Run(en: Engine, cs: seq<Command>, regs: seq<Id>) returns (regs': seq<Id>)
    requires Client(en, regs) && ScopedAll(en.ws, cs, |regs|)
    modifies en
    ensures Client(en, regs') && FollowsAll(en.ws, old(en.nodes), regs, en.nodes, regs', cs)
    ensures (forall c :: c in cs ==> !IsOr(c)) ==> en.raised == old(en.raised)
    ensures (if cs == [] then old(Clean(en)) else cs[|cs| - 1].GarbageCollect?) ==> Clean(en)
    decreases |cs|
  {
    if cs == [] {
      regs' := regs;
    } else {
      ghost var s0 := en.nodes;
      var mid := Do(en, regs, cs[0]);
      ghost var s1 := en.nodes;
      regs' := Run(en, cs[1..], mid);
      assert |cs| > 1 ==> cs[1..][|cs| - 2] == cs[|cs| - 1];
      FollowsChain(en.ws, s0, regs, s1, mid, en.nodes, regs', cs);
    }
  }

  ghost predicate SameMeaning(ws: Widths, cs: seq<Command>, i: nat, j: nat) {
    && ScopedAll(ws, cs, 0)
    && forall v {:trigger Fits(ws, v)} :: Fits(ws, v) ==>
         var r := Reference(ws, cs, v, []); i < |r| && j < |r| && r[i] == r[j]
  }

  /** After a run from scratch, two registers hold the same node exactly when the reference
      gives them the same truth value everywhere. */
  lemma SameRegister(ws: Widths, s: Store, t: Store, cs: seq<Command>, regs: seq<Id>, i: nat, j: nat)
    requires FollowsAll(ws, s, [], t, regs, cs) && i < |regs| && j < |regs|
    ensures regs[i] == regs[j] <==> SameMeaning(ws, cs, i, j)
  {
    forall v | Fits(ws, v)
      ensures |Reference(ws, cs, v, [])| == |regs|
      ensures Eval(ws, t, regs[i], v) == Eval(ws, t, regs[j], v) <==>
              Reference(ws, cs, v, [])[i] == Reference(ws, cs, v, [])[j]
    {
      assert MeansAt(ws, s, [], [], v);
      assert MeansAt(ws, t, regs, Reference(ws, cs, v, []), v);
    }
    Canonicity(ws, t, regs[i], regs[j]);
  }
}
