/** Arithmetic on diagrams as clients see it, and the identities that canonicity turns into
    equality of nodes. */
module ArithmeticOps {
  import opened Labels
  import opened Fractions
  import opened Diagram
  import opened Division
  import opened Operations
  import opened Engines

  ghost predicate QuotientAt(ws: Widths, s: Store, a: Id, b: Id, v: Assignment)
    requires Wf(ws, s) && a in s && b in s && Fits(ws, v)
  {
    var x, y := Eval(ws, s, a, v), Eval(ws, s, b, v);
    if y == 0.0 then x == 0.0 else Representable(x / y)
  }

  /** The dividend is zero wherever the divisor is, and every quotient can be represented. */
  ghost predicate Divisible(ws: Widths, s: Store, a: Id, b: Id) {
    && Wf(ws, s) && a in s && b in s
    && forall v {:trigger Fits(ws, v)} :: Fits(ws, v) ==> QuotientAt(ws, s, a, b, v)
  }

  /** r is a divided by b: exact where b is not zero, and everywhere what the walk down the two
      diagrams gives. */
  ghost predicate Divided(ws: Widths, s: Store, a: Id, b: Id, r: Id) {
    && Wf(ws, s) && a in s && b in s && r in s
    && (forall v {:trigger Fits(ws, v)} :: Fits(ws, v) ==> Eval(ws, s, r, v) == QuotAt(ws, s, a, b, v))
    && (forall v {:trigger Fits(ws, v)} :: Fits(ws, v) && Eval(ws, s, b, v) != 0.0 ==>
          Eval(ws, s, r, v) == Eval(ws, s, a, v) / Eval(ws, s, b, v))
  }

  lemma DivisibleIffDefined(ws: Widths, s: Store, a: Id, b: Id)
    requires Wf(ws, s) && a in s && b in s
    ensures Divisible(ws, s, a, b) <==> !Undefined(ws, s, Divide, a, b)
  {
    forall v | Fits(ws, v)
      ensures QuotientAt(ws, s, a, b, v) <==> DefinedAt(Divide, Eval(ws, s, a, v), Eval(ws, s, b, v))
    {}
  }

  /** Division succeeds exactly on a divisible pair with a divisor other than FALSE, and is
      exact wherever the divisor is non-zero. */
  method Quotient(en: Engine, a: Id, b: Id) returns (r: Outcome)
    requires en.Valid() && !en.boolean && a in en.nodes && b in en.nodes
    modifies en
    ensures en.Valid() && en.pins == old(en.pins) && Keeps(old(en.nodes), en.nodes, old(en.nodes).Keys)
    ensures r.Got? <==> b != FALSE && Divisible(en.ws, en.nodes, a, b)
    ensures r.Got? ==> Divided(en.ws, en.nodes, a, b, r.id)
  {
    ghost var s0 := en.nodes;
    r := en.Apply(Divide, a, b);
    assert KeptAt(s0, en.nodes, a) && KeptAt(s0, en.nodes, b);
    DivisibleIffDefined(en.ws, en.nodes, a, b);
    if r.Got? {
      NotBoth(en.ws, en.nodes, Divide, a, b, r.id);
      ExactQuotient(en.ws, en.nodes, a, b, r.id);
    }
  }

  lemma ExactQuotient(ws: Widths, s: Store, a: Id, b: Id, r: Id)
    requires Computes(ws, s, Divide, a, b, r)
    ensures Divided(ws, s, a, b, r)
  {
    forall v | Fits(ws, v) ensures Eval(ws, s, r, v) == QuotAt(ws, s, a, b, v) {
      assert ResultAt(ws, s, Divide, a, b, r, v);
    }
    forall v | Fits(ws, v) && Eval(ws, s, b, v) != 0.0
      ensures Eval(ws, s, r, v) == Eval(ws, s, a, v) / Eval(ws, s, b, v)
    {
      assert ResultAt(ws, s, Divide, a, b, r, v);
    }
  }

  /** The quotient is zero wherever the divisor is. */
  ghost predicate ZeroExtended(ws: Widths, s: Store, b: Id, r: Id)
    requires Wf(ws, s) && b in s && r in s
  {
    forall v {:trigger Fits(ws, v)} :: Fits(ws, v) && Eval(ws, s, b, v) == 0.0 ==> Eval(ws, s, r, v) == 0.0
  }

  /** A quotient is zero wherever the divisor is exactly when dividend and divisor do not share,
      at the same place, a node that has zeros. */
  lemma ZeroExtendedIff(ws: Widths, s: Store, a: Id, b: Id, r: Id)
    requires Computes(ws, s, Divide, a, b, r)
    ensures ZeroExtended(ws, s, b, r) <==> !ShareZeros(ws, s, a, b)
  {
    OneAtZeroIffShared(ws, s, a, b);
    forall v | Fits(ws, v) && Eval(ws, s, b, v) == 0.0
      ensures Eval(ws, s, r, v) == if MeetsEqual(ws, s, a, b, v) then 1.0 else 0.0
    {
      assert ResultAt(ws, s, Divide, a, b, r, v);
      QuotAtZero(ws, s, a, b, v);
    }
    if ShareZeros(ws, s, a, b) {
      var v :| OneAtZero(ws, s, a, b, v);
    } else {
      forall v | Fits(ws, v) && Eval(ws, s, b, v) == 0.0 ensures Eval(ws, s, r, v) == 0.0 {
        assert !OneAtZero(ws, s, a, b, v);
      }
    }
  }

  /** Any quotient of a diagram by itself is TRUE, so it is zero at the diagram's zeros exactly
      when there are none. */
  lemma SelfQuotient(ws: Widths, s: Store, a: Id, r: Id)
    requires Computes(ws, s, Divide, a, a, r) && a != FALSE
    ensures r == TRUE && (ZeroExtended(ws, s, a, r) <==> !HasZero(ws, s, a))
  {
    forall v | Fits(ws, v) ensures Eval(ws, s, r, v) == Eval(ws, s, TRUE, v) {
      assert ResultAt(ws, s, Divide, a, a, r, v);
      SentinelValues(ws, s, v);
    }
    Canonicity(ws, s, r, TRUE);
    if !HasZero(ws, s, a) { forall v | Fits(ws, v) ensures Eval(ws, s, a, v) != 0.0 {} }
  }

  /** Two different nodes of field 1 that branch to the same node of field 2 under one value: the
      quotient is one where both are zero. */
  function SharingStore(): Store {
    map[FALSE := Leaf(0.0), TRUE := Leaf(1.0), 2 := Leaf(2.0),
        3 := Internal(2, map[TRUE := {[true]}]),
        4 := Internal(1, map[3 := {[true]}, TRUE := {[false]}]),
        5 := Internal(1, map[3 := {[true]}, 2 := {[false]}])]
  }

  /** A node over one bit that takes c at 1, and d or nothing at 0. */
  lemma OneBitNode(s: Store, f: nat, e: Edges, c: Id, d: Id)
    requires 1 <= f <= 2 && c != d && c in s && Level(s, c) > f && c != FALSE && d != FALSE
    requires e == map[c := {[true]}] || (e == map[c := {[true]}, d := {[false]}] && d in s && Level(s, d) > f)
    ensures WfNode([1, 1], s, Internal(f, e))
  {
    assert [true][0] != [false][0];
    assert FieldUniv([1, 1], f) == Univ(1) && [true] in Univ(1) && [false] in Univ(1);
    assert c in e;
    forall x | x in e ensures EdgeOk([1, 1], s, f, e, x) {}
    forall x, y | x in e && y in e && x != y ensures Apart(e, x, y) {}
  }

  lemma SharingStoreOk()
    ensures Wf([1, 1], SharingStore())
  {
    var s := SharingStore();
    OneBitNode(s, 2, s[3].edges, TRUE, 3);
    OneBitNode(s, 1, s[4].edges, 3, TRUE);
    OneBitNode(s, 1, s[5].edges, 3, 2);
    forall i | i in s ensures WfNode([1, 1], s, s[i]) {
      assert i == FALSE || i == TRUE || i == 2 || s[i] == Internal(s[i].field, s[i].edges);
    }
    assert TRUE in s[4].edges && TRUE !in s[5].edges;
    forall i, j | i in s && j in s && SameNode(s, i, j) ensures i == j {}
  }

  /** The values of the three nodes: 3 is a bit, and 4 and 5 follow it or are constant. */
  lemma SharingValues(v: Assignment)
    requires Wf([1, 1], SharingStore()) && Fits([1, 1], v)
    ensures var x, y := Eval([1, 1], SharingStore(), 4, v), Eval([1, 1], SharingStore(), 5, v);
            if v[0] == [true] then x == y == (if v[1] == [true] then 1.0 else 0.0) else x == 1.0 && y == 2.0
  {
    var ws, s := [1, 1], SharingStore();
    NodeChild(ws, s, 4, v);
    NodeChild(ws, s, 5, v);
    NodeChild(ws, s, 3, v);
    SentinelValues(ws, s, v);
    assert [true][0] != [false][0];
    assert |v[0]| == 1;
    if v[0][0] {
      assert v[0] == [true];
      ChildAtUnique(s[4].edges, v[0], 3);
      ChildAtUnique(s[5].edges, v[0], 3);
    } else {
      assert v[0] == [false];
      ChildAtUnique(s[4].edges, v[0], TRUE);
      ChildAtUnique(s[5].edges, v[0], 2);
    }
    if v[1] == [true] { ChildAtUnique(s[3].edges, v[1], TRUE); }
  }

  /** Node 4 can be divided by node 5, and under ([true], [false]), where both are zero, the
      quotient is one. */
  lemma OneOverZero()
    ensures Divisible([1, 1], SharingStore(), 4, 5)
    ensures var ws, s, v := [1, 1], SharingStore(), [[true], [false]];
            && Fits(ws, v) && Eval(ws, s, 4, v) == 0.0 && Eval(ws, s, 5, v) == 0.0
            && QuotAt(ws, s, 4, 5, v) == 1.0
  {
    SharingStoreOk();
    var ws, s, v := [1, 1], SharingStore(), [[true], [false]];
    SharingValues(v);
    NodeChildren(ws, s, 4);
    NodeChildren(ws, s, 5);
    ChildAtUnique(s[4].edges, [true], 3);
    ChildAtUnique(s[5].edges, [true], 3);
    QuotStep(ws, s, 4, 5, v);
    assert Down(ws, s, 4, 1, v) == 3 && Down(ws, s, 5, 1, v) == 3;
    assert IsRatio(1.0, 1, 1) && IsRatio(0.5, 1, 2);
    forall w | Fits(ws, w) ensures QuotientAt(ws, s, 4, 5, w) { SharingValues(w); }
  }

  /** Subtracting what was added returns the first operand's node. */
  lemma PlusThenMinus(ws: Widths, s: Store, a: Id, b: Id, c: Id, d: Id)
    requires Computes(ws, s, Plus, a, b, c) && Computes(ws, s, Minus, c, b, d)
    ensures d == a
  {
    forall v | Fits(ws, v) ensures Eval(ws, s, d, v) == Eval(ws, s, a, v) {
      assert ResultAt(ws, s, Plus, a, b, c, v) && ResultAt(ws, s, Minus, c, b, d, v);
    }
    Canonicity(ws, s, d, a);
  }

  /** Dividing a product by a factor without zeros returns the other factor's node. */
  lemma TimesThenDivide(ws: Widths, s: Store, a: Id, b: Id, c: Id, d: Id)
    requires Computes(ws, s, Times, a, b, c) && Computes(ws, s, Divide, c, b, d)
    requires forall v :: Fits(ws, v) ==> Eval(ws, s, b, v) != 0.0
    ensures d == a
  {
    forall v | Fits(ws, v) ensures Eval(ws, s, d, v) == Eval(ws, s, a, v) {
      assert ResultAt(ws, s, Times, a, b, c, v) && ResultAt(ws, s, Divide, c, b, d, v);
      BackAt(Eval(ws, s, a, v), Eval(ws, s, b, v), Eval(ws, s, c, v), Eval(ws, s, d, v));
    }
    Canonicity(ws, s, d, a);
  }

  lemma BackAt(x: real, y: real, z: real, w: real)
    requires y != 0.0 && Agrees(Times, x, y, z) && Agrees(Divide, z, y, w)
    ensures w == x
  {
    assert (x * y) / y == x;
  }

  lemma DistributesAt(x: real, y: real, z: real, sum: real, left: real, xy: real, xz: real, right: real)
    requires Agrees(Plus, y, z, sum) && Agrees(Times, x, sum, left)
    requires Agrees(Times, x, y, xy) && Agrees(Times, x, z, xz) && Agrees(Plus, xy, xz, right)
    ensures left == right
  {
    assert x * (y + z) == x * y + x * z;
  }

  /** Multiplication distributes over addition, node for node. */
  lemma Distributes(ws: Widths, s: Store, a: Id, b: Id, c: Id, sum: Id, left: Id, ab: Id, ac: Id, right: Id)
    requires Computes(ws, s, Plus, b, c, sum) && Computes(ws, s, Times, a, sum, left)
    requires Computes(ws, s, Times, a, b, ab) && Computes(ws, s, Times, a, c, ac)
    requires Computes(ws, s, Plus, ab, ac, right)
    ensures left == right
  {
    forall v | Fits(ws, v) ensures Eval(ws, s, left, v) == Eval(ws, s, right, v) {
      assert ResultAt(ws, s, Plus, b, c, sum, v) && ResultAt(ws, s, Times, a, sum, left, v);
      assert ResultAt(ws, s, Times, a, b, ab, v) && ResultAt(ws, s, Times, a, c, ac, v) &&
          ResultAt(ws, s, Plus, ab, ac, right, v);
      DistributesAt(Eval(ws, s, a, v), Eval(ws, s, b, v), Eval(ws, s, c, v), Eval(ws, s, sum, v), Eval(ws, s, left, v),
                    Eval(ws, s, ab, v), Eval(ws, s, ac, v), Eval(ws, s, right, v));
    }
    Canonicity(ws, s, left, right);
  }
}
