/** Counting satisfying assignments by a walk over the fields. */
module Satcount {
  import opened Labels
  import opened Fractions
  import opened Diagram
  import opened EdgeAlgebra
  import opened Quantify
  import opened Conversion
  import opened Engines

  // ---------------------------------------------------------------- what is counted

  /** All assignments that agree with v on the fields before f, field by field. */
  ghost function Extensions(ws: Widths, v: Assignment, f: nat): set<Assignment>
    requires f >= 1 && |v| == |ws|
    decreases |ws| + 1 - f, 0
  {
    if f > |ws| then {v} else set x, w | x in FieldUniv(ws, f) && w in ExtensionsAt(ws, v, f, x) :: w
  }

  ghost function ExtensionsAt(ws: Widths, v: Assignment, f: nat, x: Bits): set<Assignment>
    requires 1 <= f <= |ws| == |v|
    decreases |ws| - f, 1
  {
    Extensions(ws, Put(v, f, x), f + 1)
  }

  lemma {:induction false} ExtensionsAre(ws: Widths, v: Assignment, f: nat, w: Assignment)
    requires 1 <= f <= |ws| + 1 && Fits(ws, v)
    ensures w in Extensions(ws, v, f) <==> Fits(ws, w) && w[..f - 1] == v[..f - 1]
    decreases |ws| + 1 - f
  {
    if f > |ws| {
      assert Fits(ws, w) ==> w[..f - 1] == w;
      assert v[..f - 1] == v;
    } else {
      forall x | x in FieldUniv(ws, f)
        ensures w in ExtensionsAt(ws, v, f, x) <==> Fits(ws, w) && w[..f - 1] == v[..f - 1] && w[f - 1] == x
      {
        PutFits(ws, v, f, x);
        ExtensionsAre(ws, Put(v, f, x), f + 1, w);
        PrefixPut(ws, v, f, x, w);
      }
      if Fits(ws, w) { assert w[f - 1] in FieldUniv(ws, f); }
    }
  }

  lemma PrefixPut(ws: Widths, v: Assignment, f: nat, x: Bits, w: Assignment)
    requires 1 <= f <= |ws| && |v| == |ws|
    ensures |w| == |ws| ==> (w[..f] == Put(v, f, x)[..f] <==> w[..f - 1] == v[..f - 1] && w[f - 1] == x)
  {
    if |w| == |ws| {
      var u := Put(v, f, x);
      assert w[..f] == w[..f - 1] + [w[f - 1]];
      assert u[..f] == v[..f - 1] + [x];
      if w[..f] == u[..f] {
        assert w[f - 1] == w[..f][f - 1] == x;
        assert w[..f - 1] == w[..f][..f - 1];
      }
    }
  }

  ghost predicate IsAll(ws: Widths, u: set<Assignment>) {
    forall v: Assignment {:trigger v in u} :: v in u <==> Fits(ws, v)
  }

  lemma AllExist(ws: Widths)
    ensures exists u :: IsAll(ws, u)
  {
    var u := Extensions(ws, ZeroAssignment(ws), 1);
    forall v ensures v in u <==> Fits(ws, v) { ExtensionsAre(ws, ZeroAssignment(ws), 1, v); }
    assert IsAll(ws, u);
  }

  /** All assignments. */
  ghost function All(ws: Widths): (u: set<Assignment>)
    ensures IsAll(ws, u)
  {
    AllExist(ws);
    var u :| IsAll(ws, u);
    u
  }

  /** Assignments that agree with v on the fields before f and at which a is non-zero. */
  ghost function SatFrom(ws: Widths, s: Store, a: Id, v: Assignment, f: nat): set<Assignment>
    requires 1 <= f <= |ws| + 1 && |v| == |ws|
  {
    set w | w in All(ws) && w[..f - 1] == v[..f - 1] && ValueAt(ws, s, a, w) != 0.0
  }

  /** The full assignments at which a is non-zero. */
  lemma SatFromOne(ws: Widths, s: Store, a: Id, w: Assignment)
    requires Wf(ws, s) && a in s
    ensures w in SatFrom(ws, s, a, ZeroAssignment(ws), 1) <==> Fits(ws, w) && Eval(ws, s, a, w) != 0.0
  {
    assert w in All(ws) <==> Fits(ws, w);
  }

  ghost function Count(ws: Widths, s: Store, a: Id, v: Assignment, f: nat): real
    requires 1 <= f <= |ws| + 1 && |v| == |ws|
  {
    |SatFrom(ws, s, a, v, f)| as real
  }

  // ---------------------------------------------------------------- splitting the count

  ghost function UnionOf(u: Label, part: Bits -> set<Assignment>): set<Assignment> {
    set x, w | x in u && w in part(x) :: w
  }

  ghost function SizeOf(part: Bits -> set<Assignment>): Bits -> real {
    x => |part(x)| as real
  }

  /** The size of a disjoint union is the sum of the sizes. */
  lemma {:induction false} UnionSize(u: Label, part: Bits -> set<Assignment>)
    requires forall x, y :: x in u && y in u && x != y ==> part(x) !! part(y)
    ensures |UnionOf(u, part)| as real == SumOver(u, SizeOf(part))
    decreases |u|
  {
    if u == {} {
      SumNone(SizeOf(part));
      assert UnionOf(u, part) == {};
    } else {
      var x :| x in u;
      UnionSize(u - {x}, part);
      SumRemove(u, SizeOf(part), x);
      UnionSplits(u, part, x);
      SizeSplits(UnionOf(u, part), part(x), UnionOf(u - {x}, part));
    }
  }

  lemma UnionSplits(u: Label, part: Bits -> set<Assignment>, x: Bits)
    requires x in u && forall y, z :: y in u && z in u && y != z ==> part(y) !! part(z)
    ensures UnionOf(u, part) == part(x) + UnionOf(u - {x}, part) && part(x) !! UnionOf(u - {x}, part)
  {
    forall w | w in UnionOf(u - {x}, part) ensures w !in part(x) {
      var y :| y in u - {x} && w in part(y);
      assert part(x) !! part(y);
    }
  }

  lemma SizeSplits(c: set<Assignment>, a: set<Assignment>, b: set<Assignment>)
    requires c == a + b && a !! b
    ensures |c| as real == |a| as real + |b| as real
  {}

  ghost function Parts(ws: Widths, s: Store, a: Id, v: Assignment, f: nat): Bits -> set<Assignment>
    requires 1 <= f <= |ws| && |v| == |ws|
  {
    x => SatFrom(ws, s, a, Put(v, f, x), f + 1)
  }

  lemma PartsApart(ws: Widths, s: Store, a: Id, v: Assignment, f: nat, x: Bits, y: Bits)
    requires 1 <= f <= |ws| && Fits(ws, v) && x in FieldUniv(ws, f) && y in FieldUniv(ws, f) && x != y
    ensures Parts(ws, s, a, v, f)(x) !! Parts(ws, s, a, v, f)(y)
  {
    PutFits(ws, v, f, x);
    PutFits(ws, v, f, y);
    var p, q := Parts(ws, s, a, v, f)(x), Parts(ws, s, a, v, f)(y);
    forall w | w in p ensures w !in q {
      PrefixPut(ws, v, f, x, w);
      PrefixPut(ws, v, f, y, w);
    }
  }

  /** The count splits over the values of field f. */
  lemma CountSplits(ws: Widths, s: Store, a: Id, v: Assignment, f: nat)
    requires 1 <= f <= |ws| && Fits(ws, v)
    ensures Count(ws, s, a, v, f) == SumOver(FieldUniv(ws, f), SizeOf(Parts(ws, s, a, v, f)))
  {
    var part := Parts(ws, s, a, v, f);
    forall x, y | x in FieldUniv(ws, f) && y in FieldUniv(ws, f) && x != y ensures part(x) !! part(y) {
      PartsApart(ws, s, a, v, f, x, y);
    }
    UnionSize(FieldUniv(ws, f), part);
    PartsUnion(ws, s, a, v, f);
  }

  lemma PartsUnion(ws: Widths, s: Store, a: Id, v: Assignment, f: nat)
    requires 1 <= f <= |ws| && Fits(ws, v)
    ensures SatFrom(ws, s, a, v, f) == UnionOf(FieldUniv(ws, f), Parts(ws, s, a, v, f))
  {
    var part := Parts(ws, s, a, v, f);
    forall w | w in All(ws) ensures w in SatFrom(ws, s, a, v, f) <==> w in part(w[f - 1]) {
      PrefixPut(ws, v, f, w[f - 1], w);
    }
    forall x, w | x in FieldUniv(ws, f) && w in part(x) ensures w in SatFrom(ws, s, a, v, f) {
      PrefixPut(ws, v, f, x, w);
    }
  }

  // ---------------------------------------------------------------- labels over shared variables

  /** A label seen over n more leading variables. */
  function Padded(l: Label, n: nat): Label {
    if n == 0 then l else Prefixed(false, Padded(l, n - 1)) + Prefixed(true, Padded(l, n - 1))
  }

  /** The leading variables are free. */
  lemma {:induction false} PaddedIs(l: Label, n: nat, x: Bits)
    ensures x in Padded(l, n) <==> |x| >= n && x[n..] in l
  {
    if n > 0 && |x| > 0 {
      PaddedIs(l, n - 1, x[1..]);
      assert x == [x[0]] + x[1..];
      if |x| >= n { assert x[1..][n - 1..] == x[n..]; }
      if x in Prefixed(x[0], Padded(l, n - 1)) {
        var y :| y in Padded(l, n - 1) && x == [x[0]] + y;
        assert y == x[1..];
      }
    }
  }

  /** m doubled n times. */
  function Doubled(m: nat, n: nat): nat { if n == 0 then m else 2 * Doubled(m, n - 1) }

  lemma {:induction false} DoubledIs(m: nat, n: nat)
    ensures Doubled(m, n) == m * Pow2(n)
  {
    if n > 0 {
      DoubledIs(m, n - 1);
      assert 2 * (m * Pow2(n - 1)) == m * (2 * Pow2(n - 1));
    }
  }

  lemma {:induction false} PaddedSize(l: Label, n: nat)
    ensures |Padded(l, n)| == Doubled(|l|, n)
  {
    if n > 0 {
      PaddedSize(l, n - 1);
      var r := Padded(l, n - 1);
      PrefixedSize(false, r);
      PrefixedSize(true, r);
      PrefixedApart(r);
    }
  }

  lemma PrefixedApart(r: Label)
    ensures Prefixed(false, r) !! Prefixed(true, r)
  {
    assert forall x :: x in Prefixed(false, r) ==> !x[0];
    assert forall x :: x in Prefixed(true, r) ==> x[0];
  }

  lemma DivideBack(m: nat, p: nat)
    requires p > 0
    ensures (m * p) as real / p as real == m as real
  {
    assert (m * p) as real == m as real * p as real;
  }

  /** Dividing the count over the shared variables by the padding leaves the label's size. */
  lemma DivisionExact(l: Label, n: nat)
    ensures |Padded(l, n)| as real / Pow2(n) as real == |l| as real
  {
    PaddedSize(l, n);
    DoubledIs(|l|, n);
    DivideBack(|l|, Pow2(n));
  }

  // ---------------------------------------------------------------- the walk

  /** r counts the assignments of fields f and later at which a is non-zero. */
  ghost predicate Counts(ws: Widths, s: Store, a: Id, f: nat, r: real) {
    1 <= f <= |ws| + 1 && forall v {:trigger Fits(ws, v)} :: Fits(ws, v) ==> Count(ws, s, a, v, f) == r
  }

  lemma CountsFalse(ws: Widths, s: Store, f: nat)
    requires Wf(ws, s) && 1 <= f <= |ws| + 1
    ensures Counts(ws, s, FALSE, f, 0.0)
  {
    forall v | Fits(ws, v) ensures Count(ws, s, FALSE, v, f) == 0.0 {
      forall w | w in All(ws) ensures ValueAt(ws, s, FALSE, w) == 0.0 {}
      assert SatFrom(ws, s, FALSE, v, f) == {};
    }
  }

  /** A field that a skips multiplies the count by the number of its values. */
  lemma CountsSkip(ws: Widths, s: Store, a: Id, f: nat, r: real)
    requires 1 <= f <= |ws| && Counts(ws, s, a, f + 1, r)
    ensures Counts(ws, s, a, f, Repeated(Pow2(ws[f - 1]), r))
  {
    forall v | Fits(ws, v) ensures Count(ws, s, a, v, f) == Repeated(Pow2(ws[f - 1]), r) {
      CountSplits(ws, s, a, v, f);
      var h := SizeOf(Parts(ws, s, a, v, f));
      forall x | x in FieldUniv(ws, f) ensures h(x) == r {
        PutFits(ws, v, f, x);
        assert Count(ws, s, a, Put(v, f, x), f + 1) == r;
      }
      SumConst(FieldUniv(ws, f), h, r);
      UnivSize(ws[f - 1]);
    }
  }

  /** Number of assignments of fields f and later. */
  ghost function Measure(ws: Widths, f: nat): real
    requires f >= 1
    decreases |ws| + 1 - f
  {
    if f > |ws| then 1.0 else Repeated(Pow2(ws[f - 1]), Measure(ws, f + 1))
  }

  lemma {:induction false} CountsLeaf(ws: Widths, s: Store, a: Id, f: nat)
    requires Wf(ws, s) && a in s && s[a].Leaf? && s[a].value != 0.0 && 1 <= f <= |ws| + 1
    ensures Counts(ws, s, a, f, Measure(ws, f))
    decreases |ws| + 1 - f
  {
    if f > |ws| {
      forall v | Fits(ws, v) ensures Count(ws, s, a, v, f) == 1.0 {
        assert forall w :: w in All(ws) ==> w[..f - 1] == w;
        assert v[..f - 1] == v && SatFrom(ws, s, a, v, f) == {v};
      }
    } else {
      CountsLeaf(ws, s, a, f + 1);
      CountsSkip(ws, s, a, f, Measure(ws, f + 1));
    }
  }

  /** Below value x of its own field, a counts as the child taken there. */
  lemma PartIsChild(ws: Widths, s: Store, a: Id, v: Assignment, x: Bits)
    requires Wf(ws, s) && a in s && s[a].Internal? && 1 <= s[a].field <= |ws| && Fits(ws, v)
    requires x in FieldUniv(ws, s[a].field)
    ensures var f := s[a].field;
            SizeOf(Parts(ws, s, a, v, f))(x) == Count(ws, s, ChildAt(s[a].edges, x), Put(v, f, x), f + 1)
  {
    var f := s[a].field;
    PutFits(ws, v, f, x);
    var c, u := ChildAt(s[a].edges, x), Put(v, f, x);
    forall w | w in All(ws) && w[..f] == u[..f] ensures ValueAt(ws, s, a, w) == ValueAt(ws, s, c, w) {
      PrefixPut(ws, v, f, x, w);
      NodeChild(ws, s, a, w);
    }
    assert SatFrom(ws, s, a, u, f + 1) == SatFrom(ws, s, c, u, f + 1);
  }

  /** acc is the count over the labels done so far. */
  ghost predicate Partial(ws: Widths, s: Store, a: Id, done: set<Id>, acc: real) {
    && Wf(ws, s) && a in s && s[a].Internal? && 1 <= s[a].field <= |ws|
    && forall v {:trigger Fits(ws, v)} :: Fits(ws, v) ==>
         acc == SumOver(Covered(s[a].edges, done), SizeOf(Parts(ws, s, a, v, s[a].field)))
  }

  lemma PartialStart(ws: Widths, s: Store, a: Id)
    requires Wf(ws, s) && a in s && s[a].Internal?
    ensures Partial(ws, s, a, {}, 0.0)
  {
    NodeChildren(ws, s, a);
    assert Covered(s[a].edges, {}) == {};
    forall v | Fits(ws, v) ensures SumOver(Covered(s[a].edges, {}), SizeOf(Parts(ws, s, a, v, s[a].field))) == 0.0 {
      SumNone(SizeOf(Parts(ws, s, a, v, s[a].field)));
    }
  }

  lemma PartialAdd(ws: Widths, s: Store, a: Id, f: nat, done: set<Id>, acc: real, c: Id, r: real)
    requires Partial(ws, s, a, done, acc) && f == s[a].field && c in s[a].edges && c !in done
    requires Counts(ws, s, c, f + 1, r)
    ensures Partial(ws, s, a, done + {c}, acc + Repeated(|s[a].edges[c]|, r))
  {
    var e := s[a].edges;
    NodeChildren(ws, s, a);
    EdgesAll(ws, s, f, e);
    forall v | Fits(ws, v)
      ensures acc + Repeated(|e[c]|, r) == SumOver(Covered(e, done + {c}), SizeOf(Parts(ws, s, a, v, f)))
    {
      LabelParts(ws, s, a, f, c, r, v);
      SumLabel(e, done, c, SizeOf(Parts(ws, s, a, v, f)), r);
    }
  }

  lemma LabelParts(ws: Widths, s: Store, a: Id, f: nat, c: Id, r: real, v: Assignment)
    requires Wf(ws, s) && a in s && s[a].Internal? && f == s[a].field && c in s[a].edges && Fits(ws, v)
    requires Counts(ws, s, c, f + 1, r)
    ensures 1 <= f <= |ws| && forall x :: x in s[a].edges[c] ==> SizeOf(Parts(ws, s, a, v, f))(x) == r
  {
    var e := s[a].edges;
    NodeChildren(ws, s, a);
    EdgesAll(ws, s, f, e);
    forall x | x in e[c] ensures SizeOf(Parts(ws, s, a, v, f))(x) == r {
      ChildAtUnique(e, x, c);
      PartIsChild(ws, s, a, v, x);
      PutFits(ws, v, f, x);
    }
  }

  /** Values without an edge contribute nothing. */
  lemma PartialAll(ws: Widths, s: Store, a: Id, acc: real)
    requires a in s && s[a].Internal? && Partial(ws, s, a, s[a].edges.Keys, acc)
    ensures Counts(ws, s, a, s[a].field, acc)
  {
    var f, e := s[a].field, s[a].edges;
    NodeChildren(ws, s, a);
    EdgesAll(ws, s, f, e);
    CountsFalse(ws, s, f + 1);
    var u, k := FieldUniv(ws, f), Covered(e, e.Keys);
    forall v | Fits(ws, v) ensures Count(ws, s, a, v, f) == acc {
      CountSplits(ws, s, a, v, f);
      var h := SizeOf(Parts(ws, s, a, v, f));
      forall x | x in u - k ensures h(x) == 0.0 { EmptyPart(ws, s, a, v, x); }
      SumRest(u, k, h);
    }
  }

  lemma EmptyPart(ws: Widths, s: Store, a: Id, v: Assignment, x: Bits)
    requires Wf(ws, s) && a in s && s[a].Internal? && 1 <= s[a].field <= |ws| && Fits(ws, v)
    requires x in FieldUniv(ws, s[a].field)
    requires x !in Covered(s[a].edges, s[a].edges.Keys) && Counts(ws, s, FALSE, s[a].field + 1, 0.0)
    ensures SizeOf(Parts(ws, s, a, v, s[a].field))(x) == 0.0
  {
    PartIsChild(ws, s, a, v, x);
    PutFits(ws, v, s[a].field, x);
    assert ChildAt(s[a].edges, x) == FALSE;
  }

  /** What multiplying r by the sizes of fields g and later gives. */
  ghost function Times(ws: Widths, g: nat, r: real): real
    requires g >= 1
    decreases |ws| + 1 - g
  {
    if g > |ws| then r else Times(ws, g + 1, Product(r, Pow2(ws[g - 1]) as real))
  }

  lemma Regroup(r: real, p: real, m: real)
    ensures Product(Product(r, p), m) == Product(r, Product(p, m)) && Product(r, 1.0) == r && Product(1.0, r) == r
  {}

  lemma MeasureStep(ws: Widths, g: nat)
    requires 1 <= g <= |ws|
    ensures Measure(ws, g) == Product(Pow2(ws[g - 1]) as real, Measure(ws, g + 1))
  {
    RepeatedIs(Pow2(ws[g - 1]), Measure(ws, g + 1));
  }

  lemma {:induction false} TimesIs(ws: Widths, g: nat, r: real)
    requires g >= 1
    ensures Times(ws, g, r) == Product(r, Measure(ws, g))
    decreases |ws| + 1 - g
  {
    if g > |ws| {
      Regroup(r, 1.0, 1.0);
    } else {
      var p, m := Pow2(ws[g - 1]) as real, Measure(ws, g + 1);
      TimesIs(ws, g + 1, Product(r, p));
      MeasureStep(ws, g);
      Regroup(r, p, m);
    }
  }

  /** The product of the sizes of the remaining fields. */
  method LeafMeasure(ws: Widths, f: nat) returns (r: real)
    requires 1 <= f <= |ws| + 1
    ensures r == Measure(ws, f)
  {
    r := 1.0;
    var g := f;
    while g <= |ws|
      invariant f <= g <= |ws| + 1 && Times(ws, g, r) == Times(ws, f, 1.0)
    {
      r := Product(r, Pow2(ws[g - 1]) as real);
      g := g + 1;
    }
    TimesIs(ws, f, 1.0);
    Regroup(Measure(ws, f), 1.0, 1.0);
  }

  method Scaled(n: nat, y: real) returns (r: real)
    ensures r == Repeated(n, y)
  {
    RepeatedIs(n, y);
    r := n as real * y;
  }

  /** The size of a label, counted over the shared variables and divided by the padding. */
  method SharedSize(l: Label, pad: nat) returns (size: real)
    ensures size == |l| as real
  {
    DivisionExact(l, pad);
    size := |Padded(l, pad)| as real / Pow2(pad) as real;
  }

  method Weighed(l: Label, pad: nat, y: real) returns (r: real)
    ensures r == Repeated(|l|, y)
  {
    var size := SharedSize(l, pad);
    RepeatedIs(|l|, y);
    r := size * y;
  }

  /** The number of assignments of fields f and later at which a is non-zero. */
  method CountFrom(ws: Widths, s: Store, a: Id, f: nat) returns (r: real)
    requires Wf(ws, s) && a in s && 1 <= f <= |ws| + 1 && f <= Level(s, a)
    ensures Counts(ws, s, a, f, r)
    decreases |ws| + 1 - f, 3
  {
    if a == FALSE {
      CountsFalse(ws, s, f);
      r := 0.0;
    } else if s[a].Leaf? {
      NonZeroLeaf(ws, s, a);
      CountsLeaf(ws, s, a, f);
      r := LeafMeasure(ws, f);
    } else if f == s[a].field {
      NodeChildren(ws, s, a);
      r := CountEdges(ws, s, a);
    } else {
      NodeChildren(ws, s, a);
      var below := CountFrom(ws, s, a, f + 1);
      CountsSkip(ws, s, a, f, below);
      r := Scaled(Pow2(ws[f - 1]), below);
    }
  }

  /** Each edge counts its label, over the shared variables and divided by the padding, times
      its child. */
  method CountEdges(ws: Widths, s: Store, a: Id) returns (r: real)
    requires Wf(ws, s) && a in s && s[a].Internal? && 1 <= s[a].field <= |ws|
    ensures Counts(ws, s, a, s[a].field, r)
    decreases |ws| + 1 - s[a].field, 2
  {
    var f, e := s[a].field, s[a].edges;
    NodeChildren(ws, s, a);
    var pad := MaxWidth(ws) - ws[f - 1];
    PartialStart(ws, s, a);
    r := 0.0;
    var todo := e.Keys;
    assert e.Keys - todo == {};
    while todo != {}
      invariant todo <= e.Keys && Partial(ws, s, a, e.Keys - todo, r)
      decreases |todo|
    {
      var c :| c in todo;
      r := CountEdge(ws, s, a, f, pad, e.Keys - todo, r, c);
      assert e.Keys - todo + {c} == e.Keys - (todo - {c});
      todo := todo - {c};
    }
    assert e.Keys - todo == e.Keys;
    PartialAll(ws, s, a, r);
  }

  method CountEdge(ws: Widths, s: Store, a: Id, f: nat, pad: nat, ghost done: set<Id>, acc: real, c: Id)
    returns (r: real)
    requires Partial(ws, s, a, done, acc) && f == s[a].field && c in s[a].edges && c !in done
    ensures Partial(ws, s, a, done + {c}, r)
    decreases |ws| + 1 - f, 1
  {
    NodeChildren(ws, s, a);
    var part, below := WeighedCount(ws, s, c, f, s[a].edges[c], pad);
    PartialAdd(ws, s, a, f, done, acc, c, below);
    r := acc + part;
  }

  method WeighedCount(ws: Widths, s: Store, c: Id, f: nat, l: Label, pad: nat) returns (part: real, below: real)
    requires Wf(ws, s) && c in s && 1 <= f <= |ws| && f < Level(s, c)
    ensures Counts(ws, s, c, f + 1, below) && part == Repeated(|l|, below)
    decreases |ws| + 1 - f, 0
  {
    below := CountFrom(ws, s, c, f + 1);
    part := Weighed(l, pad, below);
  }

  /** Satcount is the number of full assignments at which the diagram is non-zero. */
  method SatcountOf(ws: Widths, s: Store, a: Id, ghost all: set<Assignment>) returns (r: real)
    requires Wf(ws, s) && a in s && forall v :: v in all <==> Fits(ws, v) && ValueAt(ws, s, a, v) != 0.0
    ensures r == |all| as real
  {
    LevelBound(ws, s, a);
    r := CountFrom(ws, s, a, 1);
    ghost var z := ZeroAssignment(ws);
    assert Count(ws, s, a, z, 1) == r;
    forall w ensures w in SatFrom(ws, s, a, z, 1) <==> w in all { SatFromOne(ws, s, a, w); }
    assert SatFrom(ws, s, a, z, 1) == all;
  }
}
