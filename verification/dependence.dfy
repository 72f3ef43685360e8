/** Which fields a diagram looks at, read off its nodes and off its meaning. */
module Dependence {
  import opened Labels
  import opened Diagram
  import opened Quantify

  /** Some node reachable from a belongs to field t. */
  ghost predicate Mentions(ws: Widths, s: Store, a: Id, t: nat)
    requires Wf(ws, s) && a in s
    decreases LEAF_FIELD - Level(s, a)
  {
    && s[a].Internal?
    && (s[a].field == t ||
        exists c :: c in s[a].edges && c in s && s[a].field < Level(s, c) <= LEAF_FIELD && Mentions(ws, s, c, t))
  }

  /** Changing field t alone can change the value. */
  ghost predicate DependsAt(ws: Widths, s: Store, a: Id, t: nat, v: Assignment, x: Bits)
    requires Wf(ws, s) && a in s && 1 <= t <= |ws| && Fits(ws, v) && x in FieldUniv(ws, t)
  {
    PutFits(ws, v, t, x);
    Eval(ws, s, a, Put(v, t, x)) != Eval(ws, s, a, v)
  }

  ghost predicate DependsOn(ws: Widths, s: Store, a: Id, t: nat)
    requires Wf(ws, s) && a in s && 1 <= t <= |ws|
  {
    exists v, x :: Fits(ws, v) && x in FieldUniv(ws, t) && DependsAt(ws, s, a, t, v, x)
  }

  /** A field no node belongs to cannot matter. */
  lemma {:induction false} UnmentionedIgnored(ws: Widths, s: Store, a: Id, t: nat, v: Assignment, x: Bits)
    requires Wf(ws, s) && a in s && 1 <= t <= |ws| && Fits(ws, v) && x in FieldUniv(ws, t) && !Mentions(ws, s, a, t)
    ensures !DependsAt(ws, s, a, t, v, x)
    decreases LEAF_FIELD - Level(s, a)
  {
    PutFits(ws, v, t, x);
    if s[a].Internal? {
      NodeChild(ws, s, a, v);
      NodeChild(ws, s, a, Put(v, t, x));
      var c := ChildAt(s[a].edges, v[s[a].field - 1]);
      LevelBound(ws, s, c);
      UnmentionedIgnored(ws, s, c, t, v, x);
    }
  }

  /** A node of field t has two values of t at which its children differ. */
  lemma OwnFieldMatters(ws: Widths, s: Store, a: Id)
    requires Wf(ws, s) && a in s && s[a].Internal?
    ensures 1 <= s[a].field <= |ws| && DependsOn(ws, s, a, s[a].field)
  {
    var t, e := s[a].field, s[a].edges;
    NodeChildren(ws, s, a);
    var z := Zeros(ws[t - 1]);
    NotConstant(ws, s, a, ChildAt(e, z));
    var x :| x in FieldUniv(ws, t) && ChildAt(e, x) != ChildAt(e, z);
    ChildOk(ws, s, t, e, x);
    ChildOk(ws, s, t, e, z);
    Canonicity(ws, s, ChildAt(e, x), ChildAt(e, z));
    var v :| Fits(ws, v) && Eval(ws, s, ChildAt(e, x), v) != Eval(ws, s, ChildAt(e, z), v);
    EvalAtChild(ws, s, a, x, v);
    EvalAtChild(ws, s, a, z, v);
    var w := Put(v, t, z);
    assert Put(w, t, x) == Put(v, t, x);
    assert DependsAt(ws, s, a, t, w, x);
  }

  /** What matters to a child of another field matters to its parent. */
  lemma ChildMatters(ws: Widths, s: Store, a: Id, c: Id, t: nat)
    requires Wf(ws, s) && a in s && s[a].Internal? && c in s[a].edges && c in s && 1 <= t <= |ws| && s[a].field != t
    requires DependsOn(ws, s, c, t)
    ensures DependsOn(ws, s, a, t)
  {
    var f, e := s[a].field, s[a].edges;
    var v, x :| Fits(ws, v) && x in FieldUniv(ws, t) && DependsAt(ws, s, c, t, v, x);
    NodeChildren(ws, s, a);
    assert EdgeOk(ws, s, f, e, c);
    var y :| y in e[c];
    ChildAtUnique(e, y, c);
    PutFits(ws, v, t, x);
    EvalAtChild(ws, s, a, y, v);
    EvalAtChild(ws, s, a, y, Put(v, t, x));
    var w := Put(v, f, y);
    assert Put(w, t, x) == Put(Put(v, t, x), f, y);
    assert DependsAt(ws, s, a, t, w, x);
  }

  lemma {:induction false} MentionedMatters(ws: Widths, s: Store, a: Id, t: nat)
    requires Wf(ws, s) && a in s && 1 <= t <= |ws| && Mentions(ws, s, a, t)
    ensures DependsOn(ws, s, a, t)
    decreases LEAF_FIELD - Level(s, a)
  {
    if s[a].field == t {
      OwnFieldMatters(ws, s, a);
    } else {
      var c :| c in s[a].edges && c in s && s[a].field < Level(s, c) <= LEAF_FIELD && Mentions(ws, s, c, t);
      MentionedMatters(ws, s, c, t);
      ChildMatters(ws, s, a, c, t);
    }
  }

  /** The fields of the reachable nodes are exactly the fields the function depends on. */
  lemma MentionsIffDepends(ws: Widths, s: Store, a: Id, t: nat)
    requires Wf(ws, s) && a in s && 1 <= t <= |ws|
    ensures Mentions(ws, s, a, t) <==> DependsOn(ws, s, a, t)
  {
    if Mentions(ws, s, a, t) {
      MentionedMatters(ws, s, a, t);
    } else if DependsOn(ws, s, a, t) {
      var v, x :| Fits(ws, v) && x in FieldUniv(ws, t) && DependsAt(ws, s, a, t, v, x);
      UnmentionedIgnored(ws, s, a, t, v, x);
    }
  }

  lemma QuantIgnores(ws: Widths, s: Store, q: Quantifier, t: nat, a: Id, v: Assignment, x: Bits)
    requires 1 <= t <= |ws| && Fits(ws, v) && x in FieldUniv(ws, t)
    ensures Fits(ws, Put(v, t, x)) && QuantAt(ws, s, q, t, a, Put(v, t, x)) == QuantAt(ws, s, q, t, a, v)
  {
    PutFits(ws, v, t, x);
    var w := Put(v, t, x);
    forall y | y in FieldUniv(ws, t) ensures Along(ws, s, a, w, t)(y) == Along(ws, s, a, v, t)(y) {
      assert Put(w, t, y) == Put(v, t, y);
    }
    QuantSame(ws, s, s, q, t, a, a, w, v);
  }

  /** Quantifying a field out, by sum or by disjunction, leaves no node of that field. */
  lemma QuantifiedGone(ws: Widths, s: Store, q: Quantifier, t: nat, a: Id, r: Id)
    requires Quantified(ws, s, q, t, a, r)
    ensures !Mentions(ws, s, r, t)
  {
    MentionsIffDepends(ws, s, r, t);
    if DependsOn(ws, s, r, t) {
      var v, x :| Fits(ws, v) && x in FieldUniv(ws, t) && DependsAt(ws, s, r, t, v, x);
      QuantIgnores(ws, s, q, t, a, v, x);
    }
  }
}
