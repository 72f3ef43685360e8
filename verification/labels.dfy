/** Field values and edge labels. A label is a BDD over the bits of one field; since BDD
    operations are exact and canonical, a label is the finite set of field values it accepts. */
module Labels {

  type Bits = seq<bool>
  type Label = set<Bits>

  function Pow2(n: nat): (r: nat)
    ensures r >= 1
  {
    if n == 0 then 1 else 2 * Pow2(n - 1)
  }

  /** u holds exactly the values of a field of w bits. */
  ghost predicate IsUniv(u: Label, w: nat) {
    forall x: Bits {:trigger x in u} :: x in u <==> |x| == w
  }

  /** All values of a field of w bits: the label "true". */
  ghost function Univ(w: nat): (u: Label)
    ensures IsUniv(u, w)
  {
    UnivExists(w);
    var u :| IsUniv(u, w);
    u
  }

  lemma {:induction false} UnivExists(w: nat)
    ensures exists u :: IsUniv(u, w)
  {
    var u := BuildUniv(w);
  }

  lemma {:induction false} BuildUniv(w: nat) returns (u: Label)
    ensures IsUniv(u, w) && |u| == Pow2(w)
  {
    if w == 0 {
      u := {[]};
    } else {
      var r := BuildUniv(w - 1);
      u := Prefixed(false, r) + Prefixed(true, r);
      PrefixedSize(false, r);
      PrefixedSize(true, r);
      forall x: Bits | |x| == w ensures x in Prefixed(x[0], r) {
        assert x == [x[0]] + x[1..];
        assert x[1..] in r;
      }
      assert Prefixed(false, r) !! Prefixed(true, r) by {
        assert forall x :: x in Prefixed(false, r) ==> !x[0];
        assert forall x :: x in Prefixed(true, r) ==> x[0];
      }
    }
  }

  function Prefixed(b: bool, r: Label): Label {
    set x | x in r :: [b] + x
  }

  lemma {:induction false} PrefixedSize(b: bool, r: Label)
    ensures |Prefixed(b, r)| == |r|
    decreases |r|
  {
    if r != {} {
      var x :| x in r;
      PrefixedSize(b, r - {x});
      assert Prefixed(b, r) == Prefixed(b, r - {x}) + {[b] + x};
      assert [b] + x !in Prefixed(b, r - {x}) by {
        assert forall y: Bits :: [b] + y == [b] + x ==> y == x by {
          forall y: Bits | [b] + y == [b] + x ensures y == x {
            assert y == ([b] + y)[1..] == ([b] + x)[1..] == x;
          }
        }
      }
    }
  }

  lemma UnivSize(w: nat)
    ensures |Univ(w)| == Pow2(w)
  {
    var u := BuildUniv(w);
    assert u == Univ(w);
  }

  function Zeros(w: nat): (x: Bits)
    ensures |x| == w
  {
    seq(w, _ => false)
  }

  // ---------------------------------------------------------------- sums over finite sets

  ghost function SumSeq<T(!new)>(l: seq<T>, f: T -> real): real {
    if l == [] then 0.0 else f(l[0]) + SumSeq(l[1..], f)
  }

  ghost predicate Lists<T(!new)>(l: seq<T>, s: set<T>) { multiset(l) == multiset(s) }

  /** The elements of a set in some order. */
  ghost function Listed<T(!new)>(s: set<T>): (l: seq<T>)
    ensures Lists(l, s)
  {
    ListExists(s);
    var l :| Lists(l, s);
    l
  }

  lemma {:induction false} ListExists<T(!new)>(s: set<T>)
    ensures exists l: seq<T> :: Lists(l, s)
    decreases |s|
  {
    if s == {} {
      assert Lists([], s);
    } else {
      var x :| x in s;
      ListExists(s - {x});
      var l :| Lists(l, s - {x});
      assert Lists([x] + l, s);
    }
  }

  ghost function SumOver<T(!new)>(s: set<T>, f: T -> real): real {
    SumSeq(Listed(s), f)
  }

  lemma {:induction false} SumSplit<T(!new)>(l: seq<T>, i: nat, f: T -> real)
    requires i < |l|
    ensures SumSeq(l, f) == f(l[i]) + SumSeq(l[..i] + l[i + 1..], f)
  {
    var m := l[..i] + l[i + 1..];
    if i == 0 {
      assert m == l[1..];
    } else {
      SumSplit(l[1..], i - 1, f);
      assert m[1..] == l[1..][..i - 1] + l[1..][i..];
    }
  }

  lemma TakenOut<T(!new)>(l: seq<T>, i: nat)
    requires i < |l|
    ensures multiset(l[..i] + l[i + 1..]) == multiset(l) - multiset{l[i]}
  {
    assert l == l[..i] + [l[i]] + l[i + 1..];
  }

  lemma BothShorter<T(!new)>(l: seq<T>, m: seq<T>, i: nat)
    requires multiset(l) == multiset(m) && i < |m| && l != [] && m[i] == l[0]
    ensures multiset(l[1..]) == multiset(m[..i] + m[i + 1..])
  {
    TakenOut(m, i);
    assert l == [l[0]] + l[1..];
    assert multiset(l) == multiset{l[0]} + multiset(l[1..]);
  }

  /** The sum does not depend on the order in which elements are taken. */
  lemma {:induction false} SumPermuted<T(!new)>(l: seq<T>, m: seq<T>, f: T -> real)
    requires multiset(l) == multiset(m)
    ensures SumSeq(l, f) == SumSeq(m, f)
    decreases |l|
  {
    assert |l| == |multiset(l)| == |multiset(m)| == |m|;
    if l != [] {
      assert l[0] in multiset(m);
      var i :| 0 <= i < |m| && m[i] == l[0];
      SumSplit(m, i, f);
      BothShorter(l, m, i);
      SumPermuted(l[1..], m[..i] + m[i + 1..], f);
    }
  }

  lemma SumRemove<T(!new)>(s: set<T>, f: T -> real, y: T)
    requires y in s
    ensures SumOver(s, f) == f(y) + SumOver(s - {y}, f)
  {
    var m := Listed(s - {y});
    assert multiset([y] + m) == multiset(s);
    SumPermuted(Listed(s), [y] + m, f);
    assert ([y] + m)[1..] == m;
  }

  lemma SumNone<T(!new)>(f: T -> real)
    ensures SumOver({}, f) == 0.0
  {
    var l := Listed<T>({});
    assert |l| == |multiset(l)| == 0;
  }

  lemma {:induction false} SumUnion<T(!new)>(s: set<T>, t: set<T>, f: T -> real)
    requires s !! t
    ensures SumOver(s + t, f) == SumOver(s, f) + SumOver(t, f)
    decreases |s|
  {
    if s == {} {
      SumNone(f);
      assert s + t == t;
    } else {
      var x :| x in s;
      SumUnion(s - {x}, t, f);
      SumRemove(s, f, x);
      SumRemove(s + t, f, x);
      assert s + t - {x} == (s - {x}) + t;
    }
  }

  lemma {:induction false} SumSame<T(!new)>(s: set<T>, f: T -> real, g: T -> real)
    requires forall x :: x in s ==> f(x) == g(x)
    ensures SumOver(s, f) == SumOver(s, g)
    decreases |s|
  {
    if s != {} {
      var x :| x in s;
      SumSame(s - {x}, f, g);
      SumRemove(s, f, x);
      SumRemove(s, g, x);
    } else {
      SumNone(f);
      SumNone(g);
    }
  }

  /** c added up n times. */
  ghost function Repeated(n: nat, c: real): real {
    if n == 0 then 0.0 else c + Repeated(n - 1, c)
  }

  lemma {:induction false} RepeatedIs(n: nat, c: real)
    ensures Repeated(n, c) == n as real * c
  {
    if n > 0 {
      RepeatedIs(n - 1, c);
      assert n as real * c == ((n - 1) as real + 1.0) * c;
    }
  }

  lemma {:induction false} SumConst<T(!new)>(s: set<T>, f: T -> real, c: real)
    requires forall x :: x in s ==> f(x) == c
    ensures SumOver(s, f) == Repeated(|s|, c)
    decreases |s|
  {
    if s != {} {
      var x :| x in s;
      SumConst(s - {x}, f, c);
      SumRemove(s, f, x);
    } else {
      SumNone(f);
    }
  }

  /** The sum over one more part on which the function is constant. */
  lemma SumMore<T(!new)>(s: set<T>, t: set<T>, f: T -> real, c: real)
    requires s !! t && forall x :: x in t ==> f(x) == c
    ensures SumOver(s + t, f) == SumOver(s, f) + Repeated(|t|, c)
  {
    SumUnion(s, t, f);
    SumConst(t, f, c);
  }

  /** Elements with value zero do not count. */
  lemma SumRest<T(!new)>(u: set<T>, k: set<T>, f: T -> real)
    requires k <= u && forall x :: x in u - k ==> f(x) == 0.0
    ensures SumOver(u, f) == SumOver(k, f)
  {
    assert u == k + (u - k);
    SumUnion(k, u - k, f);
    SumConst(u - k, f, 0.0);
    RepeatedIs(|u - k|, 0.0);
  }
}
