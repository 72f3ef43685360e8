/** The quotient of two diagrams at every assignment, zeros of the divisor included. Where both
    operands are zero the code returns what its walk down the two diagrams meets first: zero at
    the FALSE edge of the dividend, or one at two equal nodes. */
module Division {
  import opened Labels
  import opened Diagram

  /** Where the walk goes from a at field f under v. */
  ghost function Down(ws: Widths, s: Store, a: Id, f: nat, v: Assignment): (c: Id)
    requires Wf(ws, s) && a in s && Fits(ws, v) && 1 <= f <= |ws| && f <= Level(s, a)
    ensures c in s && Level(s, c) >= Level(s, a) && (Level(s, a) == f ==> Level(s, c) > f)
    ensures Eval(ws, s, a, v) == Eval(ws, s, c, v)
  {
    if Level(s, a) == f then
      NodeChild(ws, s, a, v);
      ChildAt(s[a].edges, v[f - 1])
    else a
  }

  /** Neither operand decides the quotient: the walk goes on. */
  ghost predicate GoesOn(s: Store, a: Id, b: Id) {
    && a in s && b in s && a != FALSE && b != FALSE && b != TRUE && a != b
    && (s[a].Internal? || s[b].Internal?)
  }

  lemma TopOf(ws: Widths, s: Store, a: Id, b: Id)
    requires Wf(ws, s) && GoesOn(s, a, b)
    ensures 1 <= Min(Level(s, a), Level(s, b)) <= |ws| && Level(s, a) <= LEAF_FIELD && Level(s, b) <= LEAF_FIELD
  {
    LevelBound(ws, s, a);
    LevelBound(ws, s, b);
    if s[a].Internal? { NodeChildren(ws, s, a); }
    if s[b].Internal? { NodeChildren(ws, s, b); }
  }

  /** The quotient the code computes at v. */
  ghost function QuotAt(ws: Widths, s: Store, a: Id, b: Id, v: Assignment): real
    requires Wf(ws, s) && a in s && b in s && Fits(ws, v)
    decreases (LEAF_FIELD - Level(s, a)) + (LEAF_FIELD - Level(s, b))
  {
    if a == FALSE || b == FALSE then 0.0
    else if b == TRUE then Eval(ws, s, a, v)
    else if a == b then 1.0
    else if s[a].Leaf? && s[b].Leaf? then if s[b].value == 0.0 then 0.0 else s[a].value / s[b].value
    else
      TopOf(ws, s, a, b);
      var f := Min(Level(s, a), Level(s, b));
      LevelBound(ws, s, Down(ws, s, a, f, v));
      LevelBound(ws, s, Down(ws, s, b, f, v));
      QuotAt(ws, s, Down(ws, s, a, f, v), Down(ws, s, b, f, v), v)
  }

  lemma QuotStep(ws: Widths, s: Store, a: Id, b: Id, v: Assignment)
    requires Wf(ws, s) && GoesOn(s, a, b) && Fits(ws, v)
    ensures var f := Min(Level(s, a), Level(s, b));
            1 <= f <= |ws| && QuotAt(ws, s, a, b, v) == QuotAt(ws, s, Down(ws, s, a, f, v), Down(ws, s, b, f, v), v)
  {
    TopOf(ws, s, a, b);
  }

  /** The walk keeps to the nodes it can reach. */
  lemma {:induction false} QuotKept(ws: Widths, s: Store, t: Store, k: set<Id>, a: Id, b: Id, v: Assignment)
    requires Wf(ws, s) && Wf(ws, t) && Closed(s, k) && Keeps(s, t, k) && a in k && b in k && Fits(ws, v)
    ensures a in t && b in t && QuotAt(ws, s, a, b, v) == QuotAt(ws, t, a, b, v)
    decreases (LEAF_FIELD - Level(s, a)) + (LEAF_FIELD - Level(s, b))
  {
    assert KeptAt(s, t, a) && KeptAt(s, t, b);
    if GoesOn(s, a, b) {
      TopOf(ws, s, a, b);
      var f := Min(Level(s, a), Level(s, b));
      var c, d := Down(ws, s, a, f, v), Down(ws, s, b, f, v);
      LevelBound(ws, s, c);
      LevelBound(ws, s, d);
      DownKept(ws, s, t, k, a, f, v);
      DownKept(ws, s, t, k, b, f, v);
      QuotKept(ws, s, t, k, c, d, v);
      QuotStep(ws, s, a, b, v);
      QuotStep(ws, t, a, b, v);
    } else if b == TRUE {
      EvalKept(ws, s, t, k, a, v);
    }
  }

  lemma DownKept(ws: Widths, s: Store, t: Store, k: set<Id>, a: Id, f: nat, v: Assignment)
    requires Wf(ws, s) && Wf(ws, t) && Closed(s, k) && Keeps(s, t, k) && a in k && Fits(ws, v)
    requires 1 <= f <= |ws| && f <= Level(s, a)
    ensures a in t && Level(t, a) == Level(s, a) && Down(ws, s, a, f, v) in k &&
            Down(ws, t, a, f, v) == Down(ws, s, a, f, v)
  {
    assert KeptAt(s, t, a) && ClosedAt(s, k, a);
  }

  // ---------------------------------------------------------------- at zeros of the divisor

  /** The walk under v ends at two equal nodes. */
  ghost predicate MeetsEqual(ws: Widths, s: Store, a: Id, b: Id, v: Assignment)
    requires Wf(ws, s) && a in s && b in s && Fits(ws, v)
    decreases (LEAF_FIELD - Level(s, a)) + (LEAF_FIELD - Level(s, b))
  {
    if a == FALSE || b == FALSE || b == TRUE then false
    else if a == b then true
    else if s[a].Leaf? && s[b].Leaf? then false
    else
      TopOf(ws, s, a, b);
      var f := Min(Level(s, a), Level(s, b));
      LevelBound(ws, s, Down(ws, s, a, f, v));
      LevelBound(ws, s, Down(ws, s, b, f, v));
      MeetsEqual(ws, s, Down(ws, s, a, f, v), Down(ws, s, b, f, v), v)
  }

  /** Where both operands are zero the quotient is one if the walk ends at equal nodes, and zero
      if it does not. */
  lemma {:induction false} QuotAtZero(ws: Widths, s: Store, a: Id, b: Id, v: Assignment)
    requires Wf(ws, s) && a in s && b in s && Fits(ws, v)
    requires Eval(ws, s, a, v) == 0.0 && Eval(ws, s, b, v) == 0.0
    ensures QuotAt(ws, s, a, b, v) == if MeetsEqual(ws, s, a, b, v) then 1.0 else 0.0
    decreases (LEAF_FIELD - Level(s, a)) + (LEAF_FIELD - Level(s, b))
  {
    SentinelValues(ws, s, v);
    if GoesOn(s, a, b) {
      TopOf(ws, s, a, b);
      var f := Min(Level(s, a), Level(s, b));
      var c, d := Down(ws, s, a, f, v), Down(ws, s, b, f, v);
      LevelBound(ws, s, c);
      LevelBound(ws, s, d);
      QuotAtZero(ws, s, c, d, v);
      QuotStep(ws, s, a, b, v);
    }
  }

  /** Where the divisor is not zero the quotient is exact. */
  lemma {:induction false} QuotExact(ws: Widths, s: Store, a: Id, b: Id, v: Assignment)
    requires Wf(ws, s) && a in s && b in s && Fits(ws, v) && Eval(ws, s, b, v) != 0.0
    ensures QuotAt(ws, s, a, b, v) == Eval(ws, s, a, v) / Eval(ws, s, b, v)
    decreases (LEAF_FIELD - Level(s, a)) + (LEAF_FIELD - Level(s, b))
  {
    SentinelValues(ws, s, v);
    if GoesOn(s, a, b) {
      TopOf(ws, s, a, b);
      var f := Min(Level(s, a), Level(s, b));
      var c, d := Down(ws, s, a, f, v), Down(ws, s, b, f, v);
      LevelBound(ws, s, c);
      LevelBound(ws, s, d);
      QuotExact(ws, s, c, d, v);
      QuotStep(ws, s, a, b, v);
    } else {
      SimpleRatios(Eval(ws, s, a, v), Eval(ws, s, b, v));
    }
  }

  lemma SimpleRatios(x: real, y: real)
    requires y != 0.0
    ensures 0.0 / y == 0.0 && x / 1.0 == x && y / y == 1.0
  {}

  // ---------------------------------------------------------------- shared zeros, read off the nodes

  /** The child of a at value x of field f, or a itself if it is deeper. */
  ghost function At(ws: Widths, s: Store, a: Id, f: nat, x: Bits): (c: Id)
    requires Wf(ws, s) && a in s && 1 <= f <= |ws| && f <= Level(s, a)
    ensures c in s && Level(s, c) >= Level(s, a) && (Level(s, a) == f ==> Level(s, c) > f)
  {
    if Level(s, a) == f then
      NodeChildren(ws, s, a);
      ChildOk(ws, s, f, s[a].edges, x);
      ChildAt(s[a].edges, x)
    else a
  }

  /** Some walk down a and b ends at node c on both sides. */
  ghost predicate MeetsAt(ws: Widths, s: Store, a: Id, b: Id, c: Id)
    requires Wf(ws, s) && a in s && b in s
    decreases (LEAF_FIELD - Level(s, a)) + (LEAF_FIELD - Level(s, b))
  {
    if a == FALSE || b == FALSE || b == TRUE then false
    else if a == b then a == c
    else if s[a].Leaf? && s[b].Leaf? then false
    else
      TopOf(ws, s, a, b);
      var f := Min(Level(s, a), Level(s, b));
      exists x :: x in FieldUniv(ws, f) && MeetsBelow(ws, s, a, b, f, x, c)
  }

  ghost predicate MeetsBelow(ws: Widths, s: Store, a: Id, b: Id, f: nat, x: Bits, c: Id)
    requires Wf(ws, s) && GoesOn(s, a, b) && 1 <= f <= |ws| && f == Min(Level(s, a), Level(s, b))
    decreases (LEAF_FIELD - Level(s, a)) + (LEAF_FIELD - Level(s, b)), 0
  {
    LevelBound(ws, s, a);
    LevelBound(ws, s, b);
    LevelBound(ws, s, At(ws, s, a, f, x));
    LevelBound(ws, s, At(ws, s, b, f, x));
    MeetsAt(ws, s, At(ws, s, a, f, x), At(ws, s, b, f, x), c)
  }

  ghost predicate HasZero(ws: Widths, s: Store, c: Id)
    requires Wf(ws, s) && c in s
  {
    exists v {:trigger Fits(ws, v)} :: Fits(ws, v) && Eval(ws, s, c, v) == 0.0
  }

  /** The dividend and the divisor share a node that has zeros. */
  ghost predicate ShareZeros(ws: Widths, s: Store, a: Id, b: Id)
    requires Wf(ws, s) && a in s && b in s
  {
    exists c :: c in s && MeetsAt(ws, s, a, b, c) && HasZero(ws, s, c)
  }

  ghost predicate OneAtZero(ws: Widths, s: Store, a: Id, b: Id, v: Assignment)
    requires Wf(ws, s) && a in s && b in s
  {
    Fits(ws, v) && Eval(ws, s, b, v) == 0.0 && MeetsEqual(ws, s, a, b, v)
  }

  /** A walk that ends at equal nodes where they are zero ends at a shared node with zeros. */
  lemma {:induction false} MetNode(ws: Widths, s: Store, a: Id, b: Id, v: Assignment) returns (c: Id)
    requires Wf(ws, s) && a in s && b in s && OneAtZero(ws, s, a, b, v)
    ensures c in s && MeetsAt(ws, s, a, b, c) && Eval(ws, s, c, v) == 0.0
    decreases (LEAF_FIELD - Level(s, a)) + (LEAF_FIELD - Level(s, b))
  {
    if a == b {
      c := a;
    } else {
      TopOf(ws, s, a, b);
      var f := Min(Level(s, a), Level(s, b));
      var x := v[f - 1];
      LevelBound(ws, s, Down(ws, s, a, f, v));
      LevelBound(ws, s, Down(ws, s, b, f, v));
      c := MetNode(ws, s, Down(ws, s, a, f, v), Down(ws, s, b, f, v), v);
      assert x in FieldUniv(ws, f) && MeetsBelow(ws, s, a, b, f, x, c);
    }
  }

  /** Changing a field above both operands changes nothing for the walk. */
  lemma {:induction false} MeetsLocal(ws: Widths, s: Store, a: Id, b: Id, v: Assignment, w: Assignment)
    requires Wf(ws, s) && a in s && b in s && Fits(ws, v) && Fits(ws, w)
    requires forall i :: 0 <= i < |ws| && (i + 1 >= Level(s, a) || i + 1 >= Level(s, b)) ==> v[i] == w[i]
    ensures MeetsEqual(ws, s, a, b, v) == MeetsEqual(ws, s, a, b, w)
    decreases (LEAF_FIELD - Level(s, a)) + (LEAF_FIELD - Level(s, b))
  {
    if GoesOn(s, a, b) {
      TopOf(ws, s, a, b);
      var f := Min(Level(s, a), Level(s, b));
      assert v[f - 1] == w[f - 1];
      LevelBound(ws, s, Down(ws, s, a, f, v));
      LevelBound(ws, s, Down(ws, s, b, f, v));
      MeetsLocal(ws, s, Down(ws, s, a, f, v), Down(ws, s, b, f, v), v, w);
    }
  }

  /** A shared node with zeros is met at an assignment where it is zero. */
  lemma {:induction false} MetSomewhere(ws: Widths, s: Store, a: Id, b: Id, c: Id) returns (v: Assignment)
    requires Wf(ws, s) && a in s && b in s && c in s && MeetsAt(ws, s, a, b, c) && HasZero(ws, s, c)
    ensures OneAtZero(ws, s, a, b, v)
    decreases (LEAF_FIELD - Level(s, a)) + (LEAF_FIELD - Level(s, b))
  {
    if a == b {
      v :| Fits(ws, v) && Eval(ws, s, c, v) == 0.0;
    } else {
      TopOf(ws, s, a, b);
      var f := Min(Level(s, a), Level(s, b));
      var x :| x in FieldUniv(ws, f) && MeetsBelow(ws, s, a, b, f, x, c);
      var p, q := At(ws, s, a, f, x), At(ws, s, b, f, x);
      LevelBound(ws, s, p);
      LevelBound(ws, s, q);
      var u := MetSomewhere(ws, s, p, q, c);
      v := Put(u, f, x);
      PutFits(ws, u, f, x);
      EvalPutAbove(ws, s, q, u, f, x);
      MeetsLocal(ws, s, p, q, v, u);
      assert Down(ws, s, a, f, v) == p && Down(ws, s, b, f, v) == q;
    }
  }

  /** The code's quotient is one at some zero of the divisor exactly when dividend and divisor
      share, at the same place, a node that has zeros. */
  lemma OneAtZeroIffShared(ws: Widths, s: Store, a: Id, b: Id)
    requires Wf(ws, s) && a in s && b in s
    ensures (exists v :: OneAtZero(ws, s, a, b, v)) <==> ShareZeros(ws, s, a, b)
  {
    if v :| OneAtZero(ws, s, a, b, v) {
      var c := MetNode(ws, s, a, b, v);
    }
    if ShareZeros(ws, s, a, b) {
      var c :| c in s && MeetsAt(ws, s, a, b, c) && HasZero(ws, s, c);
      var v := MetSomewhere(ws, s, a, b, c);
    }
  }

  // ---------------------------------------------------------------- the same, without nodes

  /** A function of full assignments. */
  type Fn = Assignment -> real

  /** The first k fields as in v, the rest as in w. */
  function Fix(v: Assignment, w: Assignment, k: nat): Assignment
    requires k <= |v| && k <= |w|
  {
    v[..k] + w[k..]
  }

  lemma FixFits(ws: Widths, v: Assignment, w: Assignment, k: nat)
    requires Fits(ws, v) && Fits(ws, w) && k <= |ws|
    ensures Fits(ws, Fix(v, w, k))
  {}

  /** x is constantly q once the first k fields are as in v. */
  ghost predicate Constantly(ws: Widths, x: Fn, v: Assignment, k: nat, q: real)
    requires k <= |ws| == |v|
  {
    forall w {:trigger Fits(ws, w)} :: Fits(ws, w) ==> x(Fix(v, w, k)) == q
  }

  /** x and y agree once the first k fields are as in v. */
  ghost predicate Agree(ws: Widths, x: Fn, y: Fn, v: Assignment, k: nat)
    requires k <= |ws| == |v|
  {
    forall w {:trigger Fits(ws, w)} :: Fits(ws, w) ==> x(Fix(v, w, k)) == y(Fix(v, w, k))
  }

  /** The quotient of two functions at v: fix the fields of v one after the other until one of
      the functions, or their agreement, decides. */
  ghost function QuotOf(ws: Widths, x: Fn, y: Fn, v: Assignment, k: nat): real
    requires k <= |ws| == |v|
    decreases |ws| - k
  {
    if Constantly(ws, x, v, k, 0.0) || Constantly(ws, y, v, k, 0.0) then 0.0
    else if Constantly(ws, y, v, k, 1.0) then x(v)
    else if Agree(ws, x, y, v, k) then 1.0
    else if k == |ws| then if y(v) == 0.0 then 0.0 else x(v) / y(v)
    else QuotOf(ws, x, y, v, k + 1)
  }

  /** Node a is what is left of x once the first k fields are as in v. */
  ghost predicate LeftOf(ws: Widths, s: Store, a: Id, x: Fn, v: Assignment, k: nat) {
    && Wf(ws, s) && a in s && Fits(ws, v) && k <= |ws| && k < Level(s, a)
    && forall w {:trigger Fits(ws, w)} :: Fits(ws, w) ==> Eval(ws, s, a, w) == x(Fix(v, w, k))
  }

  lemma LeftConstant(ws: Widths, s: Store, a: Id, x: Fn, v: Assignment, k: nat, c: Id)
    requires LeftOf(ws, s, a, x, v, k) && (c == FALSE || c == TRUE)
    ensures a == c <==> Constantly(ws, x, v, k, if c == FALSE then 0.0 else 1.0)
  {
    forall w | Fits(ws, w) ensures Eval(ws, s, c, w) == if c == FALSE then 0.0 else 1.0 { SentinelValues(ws, s, w); }
    Canonicity(ws, s, a, c);
  }

  lemma LeftSame(ws: Widths, s: Store, a: Id, b: Id, x: Fn, y: Fn, v: Assignment, k: nat)
    requires LeftOf(ws, s, a, x, v, k) && LeftOf(ws, s, b, y, v, k)
    ensures a == b <==> Agree(ws, x, y, v, k)
  {
    Canonicity(ws, s, a, b);
  }

  /** One more field fixed: the child taken there, or the node itself. */
  lemma LeftNext(ws: Widths, s: Store, a: Id, x: Fn, v: Assignment, k: nat)
    requires LeftOf(ws, s, a, x, v, k) && k < |ws|
    ensures LeftOf(ws, s, Down(ws, s, a, k + 1, v), x, v, k + 1)
  {
    var c := Down(ws, s, a, k + 1, v);
    LevelBound(ws, s, a);
    forall w | Fits(ws, w) ensures Eval(ws, s, c, w) == x(Fix(v, w, k + 1)) {
      var u := Fix(v, w, k + 1);
      FixFits(ws, v, w, k + 1);
      assert Fix(v, u, k) == u;
      EvalLocal(ws, s, c, w, u);
      assert Down(ws, s, a, k + 1, u) == c;
    }
  }

  /** What is left after all fields is the value. */
  lemma LeftValue(ws: Widths, s: Store, a: Id, x: Fn, v: Assignment, k: nat)
    requires LeftOf(ws, s, a, x, v, k)
    ensures Eval(ws, s, a, v) == x(v)
  {
    assert Fix(v, v, k) == v;
  }

  /** The walk down the nodes and the walk over the fields give the same quotient. */
  lemma {:induction false} QuotAtIs(ws: Widths, s: Store, a: Id, b: Id, x: Fn, y: Fn, v: Assignment, k: nat)
    requires LeftOf(ws, s, a, x, v, k) && LeftOf(ws, s, b, y, v, k)
    ensures QuotAt(ws, s, a, b, v) == QuotOf(ws, x, y, v, k)
    decreases |ws| - k
  {
    LeftConstant(ws, s, a, x, v, k, FALSE);
    LeftConstant(ws, s, b, y, v, k, FALSE);
    LeftConstant(ws, s, b, y, v, k, TRUE);
    LeftSame(ws, s, a, b, x, y, v, k);
    LeftValue(ws, s, a, x, v, k);
    LeftValue(ws, s, b, y, v, k);
    if a != FALSE && b != FALSE && b != TRUE && a != b {
      if k < |ws| {
        LeftNext(ws, s, a, x, v, k);
        LeftNext(ws, s, b, y, v, k);
        QuotAtIs(ws, s, Down(ws, s, a, k + 1, v), Down(ws, s, b, k + 1, v), x, y, v, k + 1);
        QuotDown(ws, s, a, b, v, k);
      } else {
        LevelBound(ws, s, a);
        LevelBound(ws, s, b);
        if s[a].Internal? { NodeChildren(ws, s, a); }
        if s[b].Internal? { NodeChildren(ws, s, b); }
      }
    }
  }

  /** Going down a field that neither operand looks at goes nowhere. */
  lemma QuotDown(ws: Widths, s: Store, a: Id, b: Id, v: Assignment, k: nat)
    requires Wf(ws, s) && a in s && b in s && Fits(ws, v) && k < |ws| && k < Level(s, a) && k < Level(s, b)
    requires a != FALSE && b != FALSE && b != TRUE && a != b
    ensures QuotAt(ws, s, a, b, v) == QuotAt(ws, s, Down(ws, s, a, k + 1, v), Down(ws, s, b, k + 1, v), v)
  {
    if GoesOn(s, a, b) && Min(Level(s, a), Level(s, b)) == k + 1 { QuotStep(ws, s, a, b, v); }
  }
}
