/** The sweep as a function of the order in which it visits nodes, and what it does after a node
    has been unprotected, which stores a zero count whatever refers to the node. */
module Unprotect {
  import opened Labels
  import opened Diagram
  import opened Liveness
  import opened Collection

  /** Store and counts after visiting the nodes of a list: a node with count zero is reclaimed. */
  function SweepOver(s: Store, rc: Counts, order: seq<Id>): (Store, Counts)
    decreases |order|
  {
    if order == [] then (s, rc)
    else
      var id := order[0];
      if id in s && s[id].Internal? && id in rc && rc[id] == 0 then
        SweepOver(Without(s, id), Dropped(s, rc, id), order[1..])
      else SweepOver(s, rc, order[1..])
  }

  /** Field by field upwards, no node twice. */
  ghost predicate Ascending(s: Store, order: seq<Id>) {
    && (forall i :: 0 <= i < |order| ==> order[i] in s && s[order[i]].Internal?)
    && (forall i, j :: 0 <= i < j < |order| ==> order[i] != order[j] && s[order[i]].field <= s[order[j]].field)
  }

  /** And every internal node once. */
  ghost predicate Full(s: Store, order: seq<Id>) {
    Ascending(s, order) && forall i :: i in s && s[i].Internal? ==> i in order
  }

  /** No surviving edge dangles, and every live node survives. */
  ghost predicate Safe(ws: Widths, s: Store, t: Store, pins: multiset<Id>)
    requires Wf(ws, s)
  {
    && (forall i :: i in t && t[i].Internal? ==> t[i].edges.Keys <= t.Keys)
    && Keeps(s, t, LiveSet(ws, s, pins))
  }

  function Visit(s: Store, rc: Counts, id: Id): (Store, Counts) {
    if id in s && s[id].Internal? && id in rc && rc[id] == 0 then (Without(s, id), Dropped(s, rc, id)) else (s, rc)
  }

  lemma {:induction false} SweepAppend(s: Store, rc: Counts, order: seq<Id>, id: Id)
    ensures var m := SweepOver(s, rc, order);
            SweepOver(s, rc, order + [id]) == Visit(m.0, m.1, id)
    decreases |order|
  {
    if order == [] {
      assert ([] + [id])[1..] == [];
    } else {
      assert (order + [id])[1..] == order[1..] + [id];
      var m := Visit(s, rc, order[0]);
      SweepAppend(m.0, m.1, order[1..], id);
    }
  }

  /** The nodes visited so far: all above field f, and those of field f that are not to do. */
  ghost predicate Visited(s: Store, order: seq<Id>, f: nat, todo: set<Id>) {
    && Ascending(s, order)
    && forall i :: i in order <==> i in s && s[i].Internal? && (s[i].field < f || (s[i].field == f && i !in todo))
  }

  lemma VisitedNext(s: Store, order: seq<Id>, f: nat, todo: set<Id>, id: Id)
    requires Visited(s, order, f, todo) && id in todo && id in s && s[id].Internal? && s[id].field == f
    ensures Visited(s, order + [id], f, todo - {id})
  {
    var more := order + [id];
    assert forall i :: i in more <==> i in order || i == id;
    forall i, j | 0 <= i < j < |more| ensures more[i] != more[j] && s[more[i]].field <= s[more[j]].field {
      assert more[i] == order[i] && order[i] in order;
    }
  }

  /** One ascending pass, the nodes of a field in any order, whatever the counts are. */
  method SweepPass(ws: Widths, s: Store, rc: Counts) returns (t: Store, rc': Counts, ghost order: seq<Id>)
    requires forall i :: i in s && s[i].Internal? ==> 1 <= s[i].field <= |ws|
    ensures (t, rc') == SweepOver(s, rc, order) && Full(s, order)
  {
    t, rc', order := s, rc, [];
    var f := 1;
    while f <= |ws|
      invariant 1 <= f <= |ws| + 1 && (t, rc') == SweepOver(s, rc, order)
      invariant Visited(s, order, f, s.Keys)
    {
      t, rc', order := SweepLevel(s, rc, f, t, rc', order);
      f := f + 1;
    }
  }

  method SweepLevel(ghost s: Store, ghost rc: Counts, f: nat, t0: Store, rc0: Counts, ghost order0: seq<Id>)
    returns (t: Store, rc': Counts, ghost order: seq<Id>)
    requires (t0, rc0) == SweepOver(s, rc, order0) && Visited(s, order0, f, s.Keys)
    ensures (t, rc') == SweepOver(s, rc, order) && Visited(s, order, f + 1, s.Keys)
  {
    t, rc', order := t0, rc0, order0;
    var todo := set i | i in t0.Keys && t0[i].Internal? && t0[i].field == f;
    SweepSubmap(s, rc, order0);
    forall i | i in s && s[i].Internal? && s[i].field == f ensures i in todo { UnvisitedStays(s, rc, order0, i); }
    while todo != {}
      invariant (t, rc') == SweepOver(s, rc, order) && Visited(s, order, f, todo)
      invariant forall i :: i in todo ==> i in s && s[i].Internal? && s[i].field == f
      decreases |todo|
    {
      var id :| id in todo;
      VisitedNext(s, order, f, todo, id);
      SweepAppend(s, rc, order, id);
      if id in t && t[id].Internal? && id in rc' && rc'[id] == 0 {
        t, rc' := Without(t, id), Dropped(t, rc', id);
      }
      order := order + [id];
      todo := todo - {id};
    }
  }

  // ---------------------------------------------------------------- what a sweep leaves in place

  lemma {:induction false} SweepSubmap(s: Store, rc: Counts, order: seq<Id>)
    ensures Submap(SweepOver(s, rc, order).0, s)
    decreases |order|
  {
    if order != [] {
      var id := order[0];
      if id in s && s[id].Internal? && id in rc && rc[id] == 0 {
        SweepSubmap(Without(s, id), Dropped(s, rc, id), order[1..]);
      } else {
        SweepSubmap(s, rc, order[1..]);
      }
    }
  }

  /** A node that is not visited stays. */
  lemma {:induction false} UnvisitedStays(s: Store, rc: Counts, order: seq<Id>, j: Id)
    requires j in s && j !in order
    ensures j in SweepOver(s, rc, order).0 && SweepOver(s, rc, order).0[j] == s[j]
    decreases |order|
  {
    if order != [] {
      var id := order[0];
      assert j !in order[1..];
      if id in s && s[id].Internal? && id in rc && rc[id] == 0 {
        UnvisitedStays(Without(s, id), Dropped(s, rc, id), order[1..], j);
      } else {
        UnvisitedStays(s, rc, order[1..], j);
      }
    }
  }

  lemma AscendingTail(s: Store, t: Store, order: seq<Id>)
    requires order != [] && Ascending(s, order) && Submap(t, s)
    requires forall i :: 0 < i < |order| ==> order[i] in t
    ensures Ascending(t, order[1..])
  {
    assert forall i :: 0 <= i < |order[1..]| ==> order[1..][i] == order[i + 1];
  }

  /** With covering counts a sweep in any order loses nothing that is live. */
  lemma {:induction false} CoveredSweepSafe(ws: Widths, s: Store, rc: Counts, pins: multiset<Id>, order: seq<Id>)
    requires Wf(ws, s) && RcInv(s, rc, pins)
    ensures Safe(ws, s, SweepOver(s, rc, order).0, pins)
    decreases |order|
  {
    if order == [] {
      forall i | i in s && s[i].Internal? ensures s[i].edges.Keys <= s.Keys { NodeChildren(ws, s, i); }
    } else {
      var id := order[0];
      if id in s && s[id].Internal? && id in rc && rc[id] == 0 {
        ReleaseOk(ws, s, rc, pins, id);
        CoveredSweepSafe(ws, Without(s, id), Dropped(s, rc, id), pins, order[1..]);
        SafeTrans(ws, s, Without(s, id), SweepOver(s, rc, order).0, pins);
      } else {
        CoveredSweepSafe(ws, s, rc, pins, order[1..]);
      }
    }
  }

  lemma SafeTrans(ws: Widths, s: Store, m: Store, t: Store, pins: multiset<Id>)
    requires Wf(ws, s) && Wf(ws, m) && Keeps(s, m, LiveSet(ws, s, pins)) && Safe(ws, m, t, pins)
    ensures Safe(ws, s, t, pins)
  {
    LiveSetStays(ws, s, m, pins, pins);
    KeepsTrans(s, m, t, LiveSet(ws, s, pins), LiveSet(ws, m, pins));
  }

  // ---------------------------------------------------------------- one count set to zero

  /** Counts cover everywhere but at id, whose count is zero or has wrapped around. */
  ghost predicate CoversBut(s: Store, rc: Counts, pins: multiset<Id>, id: Id) {
    && (forall i {:trigger CountOk(s, rc, pins, i)} :: i in s && s[i].Internal? && i != id ==> CountOk(s, rc, pins, i))
    && (forall i :: i in pins ==> i in s && s[i].Internal?)
    && id in s && s[id].Internal? && id in rc && (rc[id] == 0 || rc[id] == PROTECTED)
  }

  /** Covered after all: nothing refers to id, or its count has become sticky. */
  lemma CoversAgain(s: Store, rc: Counts, pins: multiset<Id>, id: Id)
    requires CoversBut(s, rc, pins, id) && (rc[id] == PROTECTED || (id !in pins && Parents(s, id) == {}))
    ensures RcInv(s, rc, pins)
  {
    forall i | i in s && s[i].Internal? ensures CountOk(s, rc, pins, i) {}
  }

  /** Reclaiming another node: if it is a parent of id, id's count wraps around. */
  lemma OtherReclaimed(ws: Widths, s: Store, rc: Counts, pins: multiset<Id>, id: Id, j: Id)
    requires Wf(ws, s) && CoversBut(s, rc, pins, id) && j != id && j in s && s[j].Internal? && j in rc && rc[j] == 0
    ensures Wf(ws, Without(s, j)) && CoversBut(Without(s, j), Dropped(s, rc, j), pins, id)
    ensures Keeps(s, Without(s, j), LiveSet(ws, s, pins))
    ensures Parents(Without(s, j), id) == Parents(s, id) - {j}
    ensures Dropped(s, rc, j)[id] == if j in Parents(s, id) then PROTECTED else rc[id]
  {
    assert CountOk(s, rc, pins, j);
    UnreferencedDead(ws, s, pins, j);
    WithoutWf(ws, s, j);
    var t, rc' := Without(s, j), Dropped(s, rc, j);
    forall i | i in t && t[i].Internal? && i != id ensures CountOk(t, rc', pins, i) {
      assert CountOk(s, rc, pins, i);
      CountDropped(s, rc, pins, j, i);
    }
    ParentsWithout(s, j, id);
  }

  /** Removing a dead node does not change which nodes are live. */
  lemma SameLive(ws: Widths, s: Store, m: Store, pins: multiset<Id>)
    requires Wf(ws, s) && Wf(ws, m) && Submap(m, s) && Keeps(s, m, LiveSet(ws, s, pins))
    ensures LiveSet(ws, m, pins) == LiveSet(ws, s, pins)
  {
    LiveSetStays(ws, s, m, pins, pins);
    forall i | i in LiveSet(ws, m, pins) ensures i in LiveSet(ws, s, pins) { LiveBefore(ws, s, m, pins, i); }
  }

  lemma SafeSame(ws: Widths, s: Store, m: Store, t: Store, pins: multiset<Id>)
    requires Wf(ws, s) && Wf(ws, m) && Submap(m, s) && Keeps(s, m, LiveSet(ws, s, pins))
    ensures Safe(ws, s, t, pins) <==> Safe(ws, m, t, pins)
  {
    SameLive(ws, s, m, pins);
    var k := LiveSet(ws, s, pins);
    forall i | i in k ensures i in s && i in m && m[i] == s[i] { assert KeptAt(s, m, i); }
    if Keeps(s, t, k) { forall i | i in k && i in m ensures KeptAt(m, t, i) { assert KeptAt(s, t, i); } }
    if Keeps(m, t, k) { forall i | i in k && i in s ensures KeptAt(s, t, i) { assert KeptAt(m, t, i); } }
  }

  ghost predicate LosesParent(s: Store, t: Store, id: Id) { exists p :: p in Parents(s, id) && p !in t }

  /** id is reached with count zero although something refers to it: it is lost. */
  lemma Lost(ws: Widths, s: Store, rc: Counts, pins: multiset<Id>, id: Id, order: seq<Id>)
    requires Wf(ws, s) && CoversBut(s, rc, pins, id) && rc[id] == 0 && order != [] && order[0] == id
    requires Ascending(s, order)
    requires id in pins || Parents(s, id) != {}
    ensures !Safe(ws, s, SweepOver(s, rc, order).0, pins) && !LosesParent(s, SweepOver(s, rc, order).0, id)
  {
    var t := SweepOver(s, rc, order).0;
    var m, rc' := Without(s, id), Dropped(s, rc, id);
    SweepSubmap(m, rc', order[1..]);
    forall p | p in Parents(s, id) ensures p in t && t[p] == s[p] {
      NodeChildren(ws, s, p);
      assert p !in order[1..];
      UnvisitedStays(m, rc', order[1..], p);
    }
    if id in pins {
      assert id in LiveSet(ws, s, pins) && !KeptAt(s, t, id);
    } else {
      var p :| p in Parents(s, id);
      assert p in t && id in t[p].edges.Keys;
    }
  }

  /** The sweep after unprotecting id is safe exactly when nothing referred to id, or the pass
      reclaims one of its parents and so makes its count sticky. */
  lemma {:induction false} SweepBut(ws: Widths, s: Store, rc: Counts, pins: multiset<Id>, id: Id, order: seq<Id>)
    requires Wf(ws, s) && CoversBut(s, rc, pins, id) && rc[id] == 0 && Ascending(s, order) && id in order
    ensures var t := SweepOver(s, rc, order).0;
            Safe(ws, s, t, pins) <==> (id !in pins && Parents(s, id) == {}) || LosesParent(s, t, id)
    decreases |order|
  {
    var t := SweepOver(s, rc, order).0;
    var j := order[0];
    if id !in pins && Parents(s, id) == {} {
      CoversAgain(s, rc, pins, id);
      CoveredSweepSafe(ws, s, rc, pins, order);
    } else if j == id {
      Lost(ws, s, rc, pins, id, order);
    } else if j in rc && rc[j] == 0 {
      ReclaimedFirst(ws, s, rc, pins, id, order);
    } else {
      AscendingTail(s, s, order);
      SweepBut(ws, s, rc, pins, id, order[1..]);
    }
  }

  lemma {:induction false} ReclaimedFirst(ws: Widths, s: Store, rc: Counts, pins: multiset<Id>, id: Id, order: seq<Id>)
    requires Wf(ws, s) && CoversBut(s, rc, pins, id) && rc[id] == 0 && Ascending(s, order) && id in order
    requires order[0] != id && order[0] in rc && rc[order[0]] == 0
    requires id in pins || Parents(s, id) != {}
    ensures var t := SweepOver(s, rc, order).0;
            Safe(ws, s, t, pins) <==> LosesParent(s, t, id)
    decreases |order|, 0
  {
    var j := order[0];
    var t, m, rc' := SweepOver(s, rc, order).0, Without(s, j), Dropped(s, rc, j);
    OtherReclaimed(ws, s, rc, pins, id, j);
    SafeSame(ws, s, m, t, pins);
    SweepSubmap(m, rc', order[1..]);
    if j in Parents(s, id) {
      CoversAgain(m, rc', pins, id);
      CoveredSweepSafe(ws, m, rc', pins, order[1..]);
      assert LosesParent(s, t, id);
    } else {
      AscendingTail(s, m, order);
      SweepBut(ws, m, rc', pins, id, order[1..]);
    }
  }

  // ---------------------------------------------------------------- which nodes a sweep takes

  /** The node goes in a full sweep: every reference its count stands for is an edge from a node
      that goes. */
  ghost predicate Goes(s: Store, rc: Counts, i: Id)
    decreases if i in s then Level(s, i) else 0
  {
    i in s && s[i].Internal? && i in rc && rc[i] != PROTECTED &&
    rc[i] == |set p | p in Parents(s, i) && p in s && Level(s, p) < Level(s, i) && Goes(s, rc, p)|
  }

  ghost function Going(s: Store, rc: Counts, i: Id): set<Id> {
    set p | p in Parents(s, i) && i in s && Level(s, p) < Level(s, i) && Goes(s, rc, p)
  }

  lemma GoesIs(s: Store, rc: Counts, i: Id)
    requires i in s && s[i].Internal? && i in rc
    ensures Goes(s, rc, i) <==> rc[i] != PROTECTED && rc[i] == |Going(s, rc, i)|
  {
    assert Going(s, rc, i) == set p | p in Parents(s, i) && p in s && Level(s, p) < Level(s, i) && Goes(s, rc, p);
  }

  /** Reclaiming a node that goes does not change which of the others, above id, go. */
  lemma {:induction false} GoesSame(ws: Widths, s: Store, rc: Counts, pins: multiset<Id>, id: Id, j: Id, p: Id)
    requires Wf(ws, s) && CoversBut(s, rc, pins, id) && j != id && Goes(s, rc, j)
    requires p in s && p != j && s[p].Internal? && s[p].field < s[id].field
    ensures Goes(Without(s, j), Dropped(s, rc, j), p) <==> Goes(s, rc, p)
    decreases Level(s, p)
  {
    forall q | q in Parents(s, p) && q != j
      ensures Goes(Without(s, j), Dropped(s, rc, j), q) <==> Goes(s, rc, q)
    {
      NodeChildren(ws, s, q);
      GoesSame(ws, s, rc, pins, id, j, q);
    }
    GoingLess(ws, s, rc, j, p);
    assert CountOk(s, rc, pins, p);
    StillGoes(s, rc, pins, j, p);
  }

  lemma GoingLess(ws: Widths, s: Store, rc: Counts, j: Id, p: Id)
    requires Wf(ws, s) && Goes(s, rc, j) && p in s && p != j && s[p].Internal?
    requires forall q :: q in Parents(s, p) && q != j ==>
               (Goes(Without(s, j), Dropped(s, rc, j), q) <==> Goes(s, rc, q))
    ensures Going(Without(s, j), Dropped(s, rc, j), p) == Going(s, rc, p) - {j}
    ensures j in Parents(s, p) <==> j in Going(s, rc, p)
  {
    ParentsWithout(s, j, p);
    if j in Parents(s, p) { NodeChildren(ws, s, j); }
  }

  lemma StillGoes(s: Store, rc: Counts, pins: multiset<Id>, j: Id, p: Id)
    requires j in s && s[j].Internal? && p in s && p != j && s[p].Internal? && CountOk(s, rc, pins, p)
    requires Going(Without(s, j), Dropped(s, rc, j), p) == Going(s, rc, p) - {j}
    requires j in Parents(s, p) <==> j in Going(s, rc, p)
    ensures Goes(Without(s, j), Dropped(s, rc, j), p) <==> Goes(s, rc, p)
  {
    GoesIs(s, rc, p);
    GoesIs(Without(s, j), Dropped(s, rc, j), p);
    var g := Going(s, rc, p);
    if j in g {
      assert |g - {j}| == |g| - 1;
      assert |Parents(s, p)| > 0;
    } else {
      assert g - {j} == g;
    }
  }

  /** Nodes above id that are not to be visited any more do not go. */
  ghost predicate Settled(s: Store, rc: Counts, id: Id, order: seq<Id>)
    requires id in s && s[id].Internal?
  {
    forall i {:trigger Goes(s, rc, i)} ::
      i in s && s[i].Internal? && s[i].field < s[id].field && i !in order ==> !Goes(s, rc, i)
  }

  /** The next node in line has no parent that goes: it goes exactly if its count is zero. */
  lemma FirstGoes(ws: Widths, s: Store, rc: Counts, id: Id, order: seq<Id>)
    requires Wf(ws, s) && id in s && s[id].Internal? && order != [] && Ascending(s, order) && order[0] in rc
    requires Settled(s, rc, id, order) && s[order[0]].field < s[id].field
    ensures Goes(s, rc, order[0]) <==> rc[order[0]] == 0
  {
    var j := order[0];
    GoesIs(s, rc, j);
    forall p | p in Parents(s, j) ensures !Goes(s, rc, p) { NodeChildren(ws, s, p); }
    assert Going(s, rc, j) == {};
  }

  /** Above id, a full ascending sweep takes exactly the nodes that go. */
  lemma {:induction false} SweepTakes(ws: Widths, s: Store, rc: Counts, pins: multiset<Id>, id: Id, order: seq<Id>,
                                      p: Id)
    requires Wf(ws, s) && CoversBut(s, rc, pins, id) && Ascending(s, order) && Settled(s, rc, id, order)
    requires p in s && s[p].Internal? && s[p].field < s[id].field
    ensures p !in SweepOver(s, rc, order).0 <==> Goes(s, rc, p)
    decreases |order|
  {
    if p !in order {
      UnvisitedStays(s, rc, order, p);
    } else {
      var j := order[0];
      assert s[j].field <= s[p].field && CountOk(s, rc, pins, j);
      FirstGoes(ws, s, rc, id, order);
      if rc[j] == 0 {
        TakesFirst(ws, s, rc, pins, id, order, p);
      } else {
        AscendingTail(s, s, order);
        assert forall i :: i in order <==> i == j || i in order[1..];
        SweepTakes(ws, s, rc, pins, id, order[1..], p);
      }
    }
  }

  lemma {:induction false} TakesFirst(ws: Widths, s: Store, rc: Counts, pins: multiset<Id>, id: Id, order: seq<Id>,
                                      p: Id)
    requires Wf(ws, s) && CoversBut(s, rc, pins, id) && Ascending(s, order) && Settled(s, rc, id, order)
    requires p in s && s[p].Internal? && s[p].field < s[id].field && order != []
    requires order[0] != id && order[0] in rc && rc[order[0]] == 0 && Goes(s, rc, order[0])
    ensures p !in SweepOver(s, rc, order).0 <==> Goes(s, rc, p)
    decreases |order|, 0
  {
    var j := order[0];
    var m, rc' := Without(s, j), Dropped(s, rc, j);
    OtherReclaimed(ws, s, rc, pins, id, j);
    SweepSubmap(m, rc', order[1..]);
    if p != j {
      AscendingTail(s, m, order);
      forall i | i in m && m[i].Internal? && m[i].field < m[id].field ensures Goes(m, rc', i) <==> Goes(s, rc, i) {
        GoesSame(ws, s, rc, pins, id, j, i);
      }
      assert forall i :: i in order <==> i == j || i in order[1..];
      SweepTakes(ws, m, rc', pins, id, order[1..], p);
    }
  }

  /** What goes above id does not depend on id's count. */
  lemma {:induction false} GoesAbove(ws: Widths, s: Store, rc: Counts, id: Id, n: nat, p: Id)
    requires Wf(ws, s) && id in s && s[id].Internal? && p in s && s[p].Internal? && s[p].field < s[id].field && p in rc
    ensures Goes(s, rc[id := n], p) <==> Goes(s, rc, p)
    decreases Level(s, p)
  {
    GoesIs(s, rc, p);
    GoesIs(s, rc[id := n], p);
    forall q | q in Parents(s, p) ensures Goes(s, rc[id := n], q) <==> Goes(s, rc, q) {
      NodeChildren(ws, s, q);
      if q in rc { GoesAbove(ws, s, rc, id, n, q); }
    }
    assert Going(s, rc[id := n], p) == Going(s, rc, p);
  }

  ghost predicate GoingParent(s: Store, rc: Counts, id: Id) { exists p :: p in Parents(s, id) && Goes(s, rc, p) }

  /** Unprotecting a node before a full sweep is safe exactly when nothing refers to the node, or
      a parent of it goes: that makes its count sticky before the pass reaches it. */
  lemma UnprotectSafeIff(ws: Widths, s: Store, rc: Counts, pins: multiset<Id>, id: Id, order: seq<Id>)
    requires Wf(ws, s) && RcInv(s, rc, pins) && id in s && s[id].Internal? && Full(s, order)
    ensures Safe(ws, s, SweepOver(s, rc[id := 0], order).0, pins) <==>
            (id !in pins && Parents(s, id) == {}) || GoingParent(s, rc, id)
  {
    var rc' := rc[id := 0];
    var t := SweepOver(s, rc', order).0;
    forall i | i in s && s[i].Internal? && i != id ensures CountOk(s, rc', pins, i) {
      assert CountOk(s, rc, pins, i);
    }
    SweepBut(ws, s, rc', pins, id, order);
    forall p | p in Parents(s, id) ensures p !in t <==> Goes(s, rc, p) {
      NodeChildren(ws, s, p);
      assert CountOk(s, rc, pins, p);
      GoesAbove(ws, s, rc, id, 0, p);
      SweepTakes(ws, s, rc', pins, id, order, p);
    }
  }

  // ---------------------------------------------------------------- with exact counts

  ghost predicate ExactBut(s: Store, rc: Counts, pins: multiset<Id>, id: Id) {
    forall i {:trigger ExactAt(s, rc, pins, i)} :: i in s && s[i].Internal? && i != id ==> ExactAt(s, rc, pins, i)
  }

  ghost predicate Dead(ws: Widths, s: Store, roots: multiset<Id>, i: Id)
    requires Wf(ws, s)
  {
    i in s && s[i].Internal? && !Live(ws, s, roots, i)
  }

  /** With exact counts the nodes that go are the dead ones. */
  lemma {:induction false} GoesIffDead(ws: Widths, s: Store, rc: Counts, pins: multiset<Id>, id: Id, p: Id)
    requires Wf(ws, s) && ExactBut(s, rc, pins, id) && id in s && s[id].Internal?
    requires p in s && s[p].Internal? && s[p].field < s[id].field
    ensures Goes(s, rc, p) <==> Dead(ws, s, Roots(s, rc, pins), p)
    decreases Level(s, p)
  {
    var roots := Roots(s, rc, pins);
    assert ExactAt(s, rc, pins, p);
    GoesIs(s, rc, p);
    forall q | q in Parents(s, p) ensures Level(s, q) < Level(s, p) && (Goes(s, rc, q) <==> Dead(ws, s, roots, q)) {
      NodeChildren(ws, s, q);
      GoesIffDead(ws, s, rc, pins, id, q);
    }
    if Goes(s, rc, p) {
      FewerGo(s, rc, p);
      assert pins[p] == 0 && Going(s, rc, p) == Parents(s, p);
      forall q | q in s && s[q].Internal? && p in s[q].edges ensures !Live(ws, s, roots, q) {
        IsParent(s, q, p);
        assert q in Going(s, rc, p);
      }
    } else if p !in roots {
      assert p !in Sticky(s, rc) && pins[p] == 0;
      FewerGo(s, rc, p);
      assert Going(s, rc, p) != Parents(s, p);
      var q :| q in Parents(s, p) && q !in Going(s, rc, p);
    }
  }

  lemma FewerGo(s: Store, rc: Counts, p: Id)
    ensures Going(s, rc, p) <= Parents(s, p) && |Going(s, rc, p)| <= |Parents(s, p)|
    ensures |Going(s, rc, p)| == |Parents(s, p)| ==> Going(s, rc, p) == Parents(s, p)
  {
    var g, q := Going(s, rc, p), Parents(s, p);
    assert q == g + (q - g);
  }

  ghost predicate DeadParent(ws: Widths, s: Store, roots: multiset<Id>, id: Id)
    requires Wf(ws, s)
  {
    exists p :: p in Parents(s, id) && Dead(ws, s, roots, p)
  }

  /** With exact counts elsewhere, that is when nothing refers to the node or one of its parents
      is dead. */
  lemma UnprotectSafeIffDeadParent(ws: Widths, s: Store, rc: Counts, pins: multiset<Id>, id: Id, order: seq<Id>)
    requires Wf(ws, s) && RcInv(s, rc, pins) && ExactBut(s, rc, pins, id) && id in s && s[id].Internal?
    requires Full(s, order)
    ensures Safe(ws, s, SweepOver(s, rc[id := 0], order).0, pins) <==>
            (id !in pins && Parents(s, id) == {}) || DeadParent(ws, s, Roots(s, rc, pins), id)
  {
    UnprotectSafeIff(ws, s, rc, pins, id, order);
    forall p | p in Parents(s, id) ensures Goes(s, rc, p) <==> Dead(ws, s, Roots(s, rc, pins), p) {
      NodeChildren(ws, s, p);
      GoesIffDead(ws, s, rc, pins, id, p);
    }
  }

  // ---------------------------------------------------------------- examples

  /** Node 3 of field 2, and two parents of it in field 1. */
  function TwoParents(): Store {
    map[FALSE := Leaf(0.0), TRUE := Leaf(1.0),
        3 := Internal(2, map[TRUE := {[true]}]),
        4 := Internal(1, map[3 := {[true]}]),
        5 := Internal(1, map[3 := {[false]}])]
  }

  lemma TwoParentsOk()
    ensures Wf([1, 1], TwoParents())
    ensures Parents(TwoParents(), 3) == {4, 5} && Parents(TwoParents(), 4) == {} && Parents(TwoParents(), 5) == {}
  {
    var s := TwoParents();
    forall i | i in s ensures WfNode([1, 1], s, s[i]) { TwoParentsNode(i); }
    assert s[4].edges[3] != s[5].edges[3] by {
      assert [true][0] != [false][0];
      assert [true] in s[4].edges[3] && [true] !in s[5].edges[3];
    }
    forall i, j | i in s && j in s && SameNode(s, i, j) ensures i == j {}
  }

  lemma TwoParentsNode(i: Id)
    requires i in TwoParents()
    ensures WfNode([1, 1], TwoParents(), TwoParents()[i])
  {
    var ws, s := [1, 1], TwoParents();
    assert [true][0] != [false][0] && [true] in Univ(1) && [false] in Univ(1);
    SingleEdge(ws, s, 2, TRUE, {[true]}, [false]);
    SingleEdge(ws, s, 1, 3, {[true]}, [false]);
    SingleEdge(ws, s, 1, 3, {[false]}, [true]);
    assert i == FALSE || i == TRUE || i == 3 || i == 4 || i == 5;
  }

  lemma Counted(pins: multiset<Id>, rc: Counts)
    requires forall i :: i in pins ==> i in {4, 5}
    requires rc == map[3 := PROTECTED, 4 := pins[4], 5 := pins[5]] && pins[4] < PROTECTED && pins[5] < PROTECTED
    ensures RcInv(TwoParents(), rc, pins) && ExactBut(TwoParents(), rc, pins, 3)
  {
    TwoParentsOk();
    var s := TwoParents();
    forall i | i in s && s[i].Internal? ensures CountOk(s, rc, pins, i) && (i != 3 ==> ExactAt(s, rc, pins, i)) {
      assert i == 3 || i == 4 || i == 5;
    }
  }

  /** Both parents referenced: unprotecting node 3 leaves two dangling edges behind. */
  lemma UnprotectLoses(order: seq<Id>)
    requires Full(TwoParents(), order)
    ensures var pins, rc := multiset{4, 5}, map[3 := PROTECTED, 4 := 1, 5 := 1];
            && RcInv(TwoParents(), rc, pins) && Wf([1, 1], TwoParents())
            && !Safe([1, 1], TwoParents(), SweepOver(TwoParents(), rc[3 := 0], order).0, pins)
  {
    var s, pins, rc := TwoParents(), multiset{4, 5}, map[3 := PROTECTED, 4 := 1, 5 := 1];
    TwoParentsOk();
    Counted(pins, rc);
    UnprotectSafeIffDeadParent([1, 1], s, rc, pins, 3, order);
    forall p | p in Parents(s, 3) ensures !Dead([1, 1], s, Roots(s, rc, pins), p) { assert p in pins; }
  }

  /** One parent dead: the pass reclaims it first, node 3's count wraps around, and it stays. */
  lemma UnprotectSpared(order: seq<Id>)
    requires Full(TwoParents(), order)
    ensures var pins, rc := multiset{4}, map[3 := PROTECTED, 4 := 1, 5 := 0];
            && RcInv(TwoParents(), rc, pins) && Wf([1, 1], TwoParents())
            && Safe([1, 1], TwoParents(), SweepOver(TwoParents(), rc[3 := 0], order).0, pins)
  {
    var s, pins, rc := TwoParents(), multiset{4}, map[3 := PROTECTED, 4 := 1, 5 := 0];
    TwoParentsOk();
    Counted(pins, rc);
    UnprotectSafeIffDeadParent([1, 1], s, rc, pins, 3, order);
    UnreferencedDead([1, 1], s, Roots(s, rc, pins), 5);
    assert 5 in Parents(s, 3) && Dead([1, 1], s, Roots(s, rc, pins), 5);
  }
}
