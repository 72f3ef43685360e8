/** Slab pool with one global free list and a free list per worker. */
module MemoryPool {

  type Object = nat

  /** Where an object is. */
  datatype Place = Global | Local(worker: nat) | Client

  datatype Cache = Cache(free: seq<Object>, count: nat, inUse: nat)

  /** The objects at a place. */
  ghost function At(place: map<Object, Place>, p: Place): set<Object> {
    set o | o in place && place[o] == p
  }

  ghost predicate Listed(s: seq<Object>, place: map<Object, Place>, p: Place, o: Object) {
    o in s <==> o in place && place[o] == p
  }

  /** The list holds exactly the objects at this place; being as long as there are objects, it
      holds each of them once. */
  ghost predicate Lists(s: seq<Object>, place: map<Object, Place>, p: Place) {
    |s| == |At(place, p)| && forall o {:trigger Listed(s, place, p, o)} :: Listed(s, place, p, o)
  }

  lemma ListsPush(s: seq<Object>, place: map<Object, Place>, p: Place, o: Object)
    requires Lists(s, place, p) && (o in place ==> place[o] != p)
    ensures Lists([o] + s, place[o := p], p)
  {
    var s', place' := [o] + s, place[o := p];
    assert At(place', p) == At(place, p) + {o};
    forall x ensures Listed(s', place', p, x) {
      assert Listed(s, place, p, x);
      assert x in s' <==> x == o || x in s;
    }
  }

  lemma ListsPop(s: seq<Object>, place: map<Object, Place>, p: Place, q: Place)
    requires Lists(s, place, p) && s != [] && p != q
    ensures Lists(s[1..], place[s[0] := q], p)
  {
    var t, rest, place' := s[1..], At(place, p) - {s[0]}, place[s[0] := q];
    assert s[0] in s && Listed(s, place, p, s[0]);
    assert At(place', p) == rest;
    assert s == [s[0]] + t;
    forall x ensures x in rest + {s[0]} <==> x == s[0] || x in t { assert Listed(s, place, p, x); }
    OnlyOnce(t, rest, s[0]);
    forall x ensures Listed(t, place', p, x) { assert Listed(s, place, p, x); }
  }

  /** A list that needs its whole length to hold the elements of k holds no other. */
  lemma OnlyOnce(t: seq<Object>, k: set<Object>, o: Object)
    requires |t| == |k| && o !in k && forall x :: x in k + {o} <==> x == o || x in t
    ensures o !in t
  {
    ElementsAtMost(t);
    assert |k + {o}| == |k| + 1;
    assert o in t ==> Elements(t) == k + {o};
  }

  ghost function Elements(t: seq<Object>): set<Object> { set x | x in t }

  lemma {:induction false} ElementsAtMost(t: seq<Object>)
    ensures |Elements(t)| <= |t|
  {
    if t == [] {
      assert Elements(t) == {};
    } else {
      ElementsAtMost(t[1..]);
      assert t == [t[0]] + t[1..];
      assert Elements(t) == Elements(t[1..]) + {t[0]};
    }
  }

  lemma ListsOther(s: seq<Object>, place: map<Object, Place>, r: Place, o: Object, q: Place)
    requires Lists(s, place, r) && (o in place ==> place[o] != r) && q != r
    ensures Lists(s, place[o := q], r)
  {
    var place' := place[o := q];
    assert At(place', r) == At(place, r);
    forall x ensures Listed(s, place', r, x) { assert Listed(s, place, r, x); }
  }

  function SumInUse(locals: seq<Cache>): nat {
    if locals == [] then 0 else SumInUse(locals[..|locals| - 1]) + locals[|locals| - 1].inUse
  }

  lemma {:induction false} SumUpdate(locals: seq<Cache>, w: nat, c: Cache)
    requires w < |locals|
    ensures SumInUse(locals[w := c]) == SumInUse(locals) - locals[w].inUse + c.inUse
  {
    var k := |locals| - 1;
    if w < k {
      SumUpdate(locals[..k], w, c);
      assert locals[w := c][..k] == locals[..k][w := c];
    } else {
      assert locals[w := c][..k] == locals[..k];
    }
  }

  /** The parts of a pool's state that move together. */
  datatype Holdings = Holdings(free: seq<Object>, locals: seq<Cache>, place: map<Object, Place>, out: set<Object>,
      next: Object, inUseGlobal: nat)

  ghost predicate CacheOk(c: Cache, place: map<Object, Place>, u: nat) {
    Lists(c.free, place, Local(u)) && c.count == |c.free|
  }

  /** An object of a slab is somewhere, and nothing else is. */
  ghost predicate Placed(p: Holdings, o: Object) {
    && (o < p.next <==> o in p.place)
    && (o in p.place && p.place[o].Local? ==> p.place[o].worker < |p.locals|)
  }

  ghost predicate AllPlaced(p: Holdings) { forall o: Object {:trigger Placed(p, o)} :: Placed(p, o) }

  lemma StillPlaced(p: Holdings, t: Holdings, o: Object)
    requires AllPlaced(p) && |t.locals| == |p.locals| && o in t.place && t.place == p.place[o := t.place[o]]
    requires t.place[o].Local? ==> t.place[o].worker < |t.locals|
    requires (t.next == p.next && o in p.place) || (o == p.next && t.next == p.next + 1)
    ensures AllPlaced(t)
  {
    forall x: Object ensures Placed(t, x) { assert Placed(p, x); }
    assert Placed(p, o);
  }

  /** Every object of every slab is in exactly one place, local lists other than that of w are within bound,
      and the counters add up to at least the objects that clients hold. */
  ghost predicate Sound(p: Holdings, bound: nat, w: nat) {
    && Lists(p.free, p.place, Global)
    && (forall u {:trigger CacheOk(p.locals[u], p.place, u)} :: 0 <= u < |p.locals| ==>
        CacheOk(p.locals[u], p.place, u))
    && (forall u :: 0 <= u < |p.locals| && u != w ==> p.locals[u].count <= bound)
    && AllPlaced(p)
    && p.out == At(p.place, Client)
    && p.inUseGlobal + SumInUse(p.locals) >= |p.out|
  }

  /** Moving an object that no local list but that of w holds leaves the others alone. */
  lemma OthersKeep(p: Holdings, bound: nat, v: nat, o: Object, q: Place, w: nat)
    requires Sound(p, bound, v) && (o in p.place ==> !p.place[o].Local? || p.place[o] == Local(w))
    requires q.Local? ==> q == Local(w)
    ensures forall u {:trigger CacheOk(p.locals[u], p.place[o := q], u)} :: 0 <= u < |p.locals| && u != w ==>
              CacheOk(p.locals[u], p.place[o := q], u)
  {
    forall u | 0 <= u < |p.locals| && u != w ensures CacheOk(p.locals[u], p.place[o := q], u) {
      assert CacheOk(p.locals[u], p.place, u);
      ListsOther(p.locals[u].free, p.place, Local(u), o, q);
    }
  }

  lemma AtMoved(place: map<Object, Place>, o: Object, q: Place)
    ensures At(place[o := q], Client) == if q == Client then At(place, Client) + {o} else At(place, Client) - {o}
  {}

  /** A new object goes to the global list. */
  lemma FreshOk(p: Holdings, bound: nat, w: nat)
    requires Sound(p, bound, w)
    ensures Sound(p.(free := [p.next] + p.free, place := p.place[p.next := Global], next := p.next + 1), bound, w)
  {
    var t := p.(free := [p.next] + p.free, place := p.place[p.next := Global], next := p.next + 1);
    assert Placed(p, p.next);
    ListsPush(p.free, p.place, Global, p.next);
    OthersKeep(p, bound, w, p.next, Global, |p.locals|);
    AtMoved(p.place, p.next, Global);
    assert Placed(p, p.next) && p.next !in p.out;
    StillPlaced(p, t, p.next);
    forall u | 0 <= u < |t.locals| ensures CacheOk(t.locals[u], t.place, u) {}
  }

  function Pushed(c: Cache, o: Object): Cache { Cache([o] + c.free, c.count + 1, c.inUse) }

  function Popped(c: Cache): Cache
    requires c.free != [] && c.count > 0
  {
    Cache(c.free[1..], c.count - 1, c.inUse)
  }

  /** An object moves from the global list to that of w. */
  lemma TakeOk(p: Holdings, bound: nat, w: nat)
    requires Sound(p, bound, w) && w < |p.locals| && p.free != []
    ensures Sound(p.(free := p.free[1..], locals := p.locals[w := Pushed(p.locals[w], p.free[0])],
              place := p.place[p.free[0] := Local(w)]), bound, w)
    ensures SumInUse(p.locals[w := Pushed(p.locals[w], p.free[0])]) == SumInUse(p.locals)
  {
    var o, c := p.free[0], p.locals[w];
    assert o in p.free && Listed(p.free, p.place, Global, o) && CacheOk(c, p.place, w);
    ListsPop(p.free, p.place, Global, Local(w));
    ListsPush(c.free, p.place, Local(w), o);
    OthersKeep(p, bound, w, o, Local(w), w);
    SumUpdate(p.locals, w, Pushed(c, o));
    AtMoved(p.place, o, Local(w));
    StillPlaced(p, p.(free := p.free[1..], locals := p.locals[w := Pushed(c, o)], place := p.place[o := Local(w)]), o);
  }

  /** And back. */
  lemma GiveOk(p: Holdings, bound: nat, w: nat)
    requires Sound(p, bound, w) && w < |p.locals| && p.locals[w].free != []
    ensures p.locals[w].count > 0
    ensures var o := p.locals[w].free[0];
            Sound(p.(free := [o] + p.free, locals := p.locals[w := Popped(p.locals[w])],
                place := p.place[o := Global]), bound, w)
    ensures SumInUse(p.locals[w := Popped(p.locals[w])]) == SumInUse(p.locals)
  {
    var c := p.locals[w];
    var o := c.free[0];
    assert o in c.free && CacheOk(c, p.place, w) && Listed(c.free, p.place, Local(w), o);
    ListsPop(c.free, p.place, Local(w), Global);
    ListsPush(p.free, p.place, Global, o);
    OthersKeep(p, bound, w, o, Global, w);
    SumUpdate(p.locals, w, Popped(c));
    AtMoved(p.place, o, Global);
    StillPlaced(p, p.(free := [o] + p.free, locals := p.locals[w := Popped(c)], place := p.place[o := Global]), o);
  }

  /** A worker hands the first object of its list to a client. */
  lemma HandOutOk(p: Holdings, bound: nat, v: nat, w: nat)
    requires Sound(p, bound, v) && w < |p.locals| && p.locals[w].free != []
    ensures var c, o := p.locals[w], p.locals[w].free[0];
            && c.count > 0 && o !in p.out
            && var c' := Popped(c).(inUse := c.inUse + 1);
               && SumInUse(p.locals[w := c']) == SumInUse(p.locals) + 1
               && Sound(p.(locals := p.locals[w := c'], place := p.place[o := Client], out := p.out + {o}), bound, v)
  {
    var c := p.locals[w];
    var o := c.free[0];
    assert o in c.free && CacheOk(c, p.place, w) && Listed(c.free, p.place, Local(w), o);
    ListsPop(c.free, p.place, Local(w), Client);
    ListsOther(p.free, p.place, Global, o, Client);
    OthersKeep(p, bound, v, o, Client, w);
    SumUpdate(p.locals, w, Popped(c).(inUse := c.inUse + 1));
    AtMoved(p.place, o, Client);
    StillPlaced(p, p.(locals := p.locals[w := Popped(c).(inUse := c.inUse + 1)], place := p.place[o := Client],
                      out := p.out + {o}), o);
  }

  function Less(n: nat): nat { if n > 0 then n - 1 else 0 }

  /** A local list with a released object in front. */
  function HandedIn(c: Cache, o: Object): Cache { Pushed(c, o).(inUse := Less(c.inUse)) }

  /** A client gives an object back to worker w, whoever had handed it out. */
  lemma HandInOk(p: Holdings, bound: nat, w: nat, o: Object)
    requires Sound(p, bound, w) && w < |p.locals| && o in p.out
    ensures var c' := HandedIn(p.locals[w], o);
            && SumInUse(p.locals[w := c']) == SumInUse(p.locals) - p.locals[w].inUse + c'.inUse
            && Sound(p.(locals := p.locals[w := c'], place := p.place[o := Local(w)], out := p.out - {o}), bound, w)
  {
    var c := p.locals[w];
    assert CacheOk(c, p.place, w);
    ListsPush(c.free, p.place, Local(w), o);
    ListsOther(p.free, p.place, Global, o, Local(w));
    OthersKeep(p, bound, w, o, Local(w), w);
    SumUpdate(p.locals, w, HandedIn(c, o));
    AtMoved(p.place, o, Local(w));
    StillPlaced(p, p.(locals := p.locals[w := HandedIn(c, o)], place := p.place[o := Local(w)],
                        out := p.out - {o}), o);
  }

  /** The same without a worker. */
  lemma GlobalOutOk(p: Holdings, bound: nat, w: nat)
    requires Sound(p, bound, w) && p.free != []
    ensures var o := p.free[0];
            && o !in p.out
            && Sound(p.(free := p.free[1..], place := p.place[o := Client], out := p.out + {o},
                inUseGlobal := p.inUseGlobal + 1), bound, w)
  {
    var o := p.free[0];
    assert o in p.free && Listed(p.free, p.place, Global, o);
    ListsPop(p.free, p.place, Global, Client);
    OthersKeep(p, bound, w, o, Client, |p.locals|);
    AtMoved(p.place, o, Client);
    StillPlaced(p, p.(free := p.free[1..], place := p.place[o := Client], out := p.out + {o},
                        inUseGlobal := p.inUseGlobal + 1), o);
    forall u | 0 <= u < |p.locals| ensures CacheOk(p.locals[u], p.place[o := Client], u) {}
  }

  lemma GlobalInOk(p: Holdings, bound: nat, w: nat, o: Object)
    requires Sound(p, bound, w) && o in p.out
    ensures Sound(p.(free := [o] + p.free, place := p.place[o := Global], out := p.out - {o},
              inUseGlobal := Less(p.inUseGlobal)), bound, w)
  {
    ListsPush(p.free, p.place, Global, o);
    OthersKeep(p, bound, w, o, Global, |p.locals|);
    AtMoved(p.place, o, Global);
    StillPlaced(p, p.(free := [o] + p.free, place := p.place[o := Global], out := p.out - {o},
                        inUseGlobal := Less(p.inUseGlobal)), o);
    forall u | 0 <= u < |p.locals| ensures CacheOk(p.locals[u], p.place[o := Global], u) {}
  }

  // ---------------------------------------------------------------- nothing is lost

  function SumCounts(locals: seq<Cache>): nat {
    if locals == [] then 0 else SumCounts(locals[..|locals| - 1]) + locals[|locals| - 1].count
  }

  /** Objects on the lists of the first n workers. */
  ghost function OnLists(place: map<Object, Place>, n: nat): set<Object> {
    set o | o in place && place[o].Local? && place[o].worker < n
  }

  lemma {:induction false} ListsCount(p: Holdings, bound: nat, w: nat, n: nat)
    requires Sound(p, bound, w) && n <= |p.locals|
    ensures |OnLists(p.place, n)| == SumCounts(p.locals[..n])
  {
    if n == 0 {
      assert OnLists(p.place, 0) == {};
    } else {
      ListsCount(p, bound, w, n - 1);
      assert CacheOk(p.locals[n - 1], p.place, n - 1);
      assert p.locals[..n][..n - 1] == p.locals[..n - 1];
      OneMoreList(p.place, n);
    }
  }

  lemma OneMoreList(place: map<Object, Place>, n: nat)
    requires n > 0
    ensures |OnLists(place, n)| == |OnLists(place, n - 1)| + |At(place, Local(n - 1))|
  {
    assert OnLists(place, n) == OnLists(place, n - 1) + At(place, Local(n - 1));
    assert OnLists(place, n - 1) !! At(place, Local(n - 1));
  }

  lemma {:induction false} Below(s: set<Object>, n: nat)
    requires forall o: Object :: o < n <==> o in s
    ensures |s| == n
  {
    if n == 0 {
      assert s == {};
    } else {
      Below(s - {n - 1}, n - 1);
    }
  }

  /** The global list, the local lists and the clients together hold every object once. */
  lemma Conserved(p: Holdings, bound: nat, w: nat)
    requires Sound(p, bound, w)
    ensures |p.free| + SumCounts(p.locals) + |p.out| == p.next
  {
    var n := |p.locals|;
    ListsCount(p, bound, w, n);
    assert p.locals[..n] == p.locals;
    forall o: Object ensures (o < p.next <==> o in p.place) && (o in p.place ==> o in p.place.Keys) {
      assert Placed(p, o);
    }
    Below(p.place.Keys, p.next);
    forall o | o in p.place ensures p.place[o].Local? ==> p.place[o].worker < n { assert Placed(p, o); }
    assert p.place.Keys == At(p.place, Global) + OnLists(p.place, n) + At(p.place, Client);
    assert At(p.place, Global) !! OnLists(p.place, n);
    assert At(p.place, Global) + OnLists(p.place, n) !! At(p.place, Client);
  }

  // ---------------------------------------------------------------- lists after a call

  function Reversed(s: seq<Object>): (r: seq<Object>)
    ensures |r| == |s|
  {
    if s == [] then [] else Reversed(s[1..]) + [s[0]]
  }

  lemma {:induction false} ReversedNext(s: seq<Object>, k: nat)
    requires k < |s|
    ensures Reversed(s[..k + 1]) == [s[k]] + Reversed(s[..k])
    decreases k
  {
    if k == 0 {
      assert s[..1][1..] == [];
    } else {
      ReversedNext(s[1..], k - 1);
      assert s[..k + 1][1..] == s[1..][..k] && s[..k][1..] == s[1..][..k - 1];
    }
  }

  /** The k-th object moves over to another list. */
  lemma MoveNext(s: seq<Object>, k: nat, g: seq<Object>)
    requires k < |s|
    ensures s[k..] != [] && s[k..][0] == s[k] && s[k..][1..] == s[k + 1..]
    ensures [s[k]] + (Reversed(s[..k]) + g) == Reversed(s[..k + 1]) + g
  {
    ReversedNext(s, k);
  }

  lemma Overwrite(l: seq<Cache>, w: nat, a: Cache, b: Cache)
    requires w < |l|
    ensures l[w := a][w := b] == l[w := b] && l[w := a][w] == a
  {}

  function Min(x: nat, y: nat): nat { if x < y then x else y }

  /** The objects of a new slab, the last one in front. */
  function Slab(from: Object, n: nat): (s: seq<Object>)
    ensures |s| == n
  {
    if n == 0 then [] else [from + n - 1] + Slab(from, n - 1)
  }

  /** The global list, with a new slab if it is empty. */
  function Stocked(free: seq<Object>, next: Object, perSlab: nat): seq<Object> {
    if free == [] then Slab(next, perSlab) else free
  }

  /** A refilled local list, and what is left of the global one. */
  function RefillList(g: seq<Object>, batch: nat): seq<Object> { Reversed(g[..Min(|g|, batch)]) }

  function RefillRest(g: seq<Object>, batch: nat): seq<Object> { g[Min(|g|, batch)..] }

  lemma SlabAlone(from: Object, n: nat, free: seq<Object>)
    requires free == []
    ensures Slab(from, n) + free == Slab(from, n)
  {}

  lemma OneMoreSlab(slabs: nat, perSlab: nat)
    ensures (slabs + 1) * perSlab == slabs * perSlab + perSlab
  {}

  /** How many objects a spill moves. */
  function SpillCount(count: nat, localMax: nat, batch: nat): nat {
    if count > localMax / 2 then Min(count - localMax / 2, batch) else 0
  }

  class Pool {
    const perSlab: nat
    const refillBatch: nat
    const localMax: nat
    var free: seq<Object>
    var locals: seq<Cache>
    var slabs: nat
    var inUseGlobal: nat
    /** First object of the next slab. */
    var next: Object
    ghost var place: map<Object, Place>
    ghost var out: set<Object>

    /** A local list stays within localMax as long as a refill batch does. */
    function Bound(): nat { if refillBatch > localMax then refillBatch else localMax }

    ghost function All(): Holdings
      reads this
    {
      Holdings(free, locals, place, out, next, inUseGlobal)
    }

    /** Sound, except that the list of w may be too long. */
    ghost predicate Almost(w: nat)
      reads this
    {
      perSlab > 0 && refillBatch > 0 && localMax > 0 && Sound(All(), Bound(), w)
    }

    ghost predicate Valid()
      reads this
    {
      Almost(|locals|) && next == slabs * perSlab
    }

    /** What clients see of it: no object is ever lost or handed out twice. */
    lemma NothingLost()
      requires Valid()
      ensures |free| + SumCounts(locals) + |out| == slabs * perSlab
    {
      Conserved(All(), Bound(), |locals|);
    }

    constructor (perSlab: nat, refillBatch: nat, localMax: nat, workers: nat)
      requires perSlab > 0 && refillBatch > 0 && localMax > 0
      ensures Valid() && slabs == 0 && out == {} && |locals| == workers
    {
      this.perSlab, this.refillBatch, this.localMax := perSlab, refillBatch, localMax;
      free, locals, slabs, inUseGlobal, next := [], seq(workers, _ => Cache([], 0, 0)), 0, 0, 0;
      place, out := map[], {};
      new;
      assert forall p :: At(map[], p) == {};
      forall u | 0 <= u < |locals| ensures CacheOk(locals[u], place, u) {}
    }

    /** Put the objects of a new slab on the global list. */
    method Grow(ghost w: nat)
      requires Almost(w) && next == slabs * perSlab
      modifies this`free, this`slabs, this`next, this`place
      ensures Almost(w) && next == slabs * perSlab
      ensures free == Slab(old(next), perSlab) + old(free) && slabs == old(slabs) + 1
    {
      OneMoreSlab(slabs, perSlab);
      slabs := slabs + 1;
      AddSlab(w);
    }

    method AddSlab(ghost w: nat)
      requires Sound(All(), Bound(), w)
      modifies this`free, this`next, this`place
      ensures Sound(All(), Bound(), w) && free == Slab(old(next), perSlab) + old(free) && next == old(next) + perSlab
    {
      var i := 0;
      while i < perSlab
        invariant i <= perSlab && Sound(All(), Bound(), w)
        invariant free == Slab(old(next), i) + old(free) && next == old(next) + i
      {
        AddFresh(w);
        i := i + 1;
      }
    }

    method AddFresh(ghost w: nat)
      requires Sound(All(), Bound(), w)
      modifies this`free, this`next, this`place
      ensures Sound(All(), Bound(), w) && free == [old(next)] + old(free) && next == old(next) + 1
    {
      FreshOk(All(), Bound(), w);
      free, next, place := [next] + free, next + 1, place[next := Global];
    }

    /** Move the first object of the global list to that of w. */
    method TakeOne(w: nat)
      requires Almost(w) && w < |locals| && free != []
      modifies this`free, this`locals, this`place
      ensures Almost(w) && free == old(free)[1..] && SumInUse(locals) == old(SumInUse(locals))
      ensures locals == old(locals)[w := Pushed(old(locals)[w], old(free)[0])]
    {
      TakeOk(All(), Bound(), w);
      locals, place := locals[w := Pushed(locals[w], free[0])], place[free[0] := Local(w)];
      free := free[1..];
    }

    /** And back. */
    method GiveOne(w: nat)
      requires Almost(w) && w < |locals| && locals[w].free != [] && locals[w].count > 0
      modifies this`free, this`locals, this`place
      ensures Almost(w) && free == [old(locals)[w].free[0]] + old(free) && SumInUse(locals) == old(SumInUse(locals))
      ensures locals == old(locals)[w := Popped(old(locals)[w])]
    {
      GiveOk(All(), Bound(), w);
      var o := locals[w].free[0];
      free, locals, place := [o] + free, locals[w := Popped(locals[w])], place[o := Global];
    }

    /** Refill an empty local list with up to a batch from the global list. */
    method Refill(w: nat)
      requires Valid() && w < |locals| && locals[w].free == []
      modifies this`free, this`locals, this`slabs, this`next, this`place
      ensures Valid() && SumInUse(locals) == old(SumInUse(locals))
      ensures slabs == old(slabs) + if old(free) == [] then 1 else 0
      ensures var g := Stocked(old(free), old(next), perSlab);
              && g != [] && free == RefillRest(g, refillBatch)
              && locals == old(locals)[w := Cache(RefillList(g, refillBatch), Min(|g|, refillBatch),
                                                  old(locals)[w].inUse)]
    {
      if free == [] {
        SlabAlone(next, perSlab, free);
        Grow(w);
      }
      RefillFrom(w);
    }

    method RefillFrom(w: nat)
      requires Almost(|locals|) && w < |locals| && locals[w].free == [] && free != []
      modifies this`free, this`locals, this`place
      ensures Almost(|locals|) && SumInUse(locals) == old(SumInUse(locals))
      ensures free == RefillRest(old(free), refillBatch)
      ensures locals == old(locals)[w := Cache(RefillList(old(free), refillBatch), Min(|old(free)|, refillBatch),
                                               old(locals)[w].inUse)]
    {
      ghost var g, l := free, locals;
      var moved := 0;
      assert CacheOk(locals[w], place, w);
      while free != [] && moved < refillBatch
        invariant Almost(w) && moved <= refillBatch && moved <= |g| && free == g[moved..]
        invariant locals == l[w := Cache(Reversed(g[..moved]), moved, l[w].inUse)]
        invariant SumInUse(locals) == old(SumInUse(locals))
        decreases refillBatch - moved
      {
        ReversedNext(g, moved);
        TakeOne(w);
        moved := moved + 1;
      }
      assert moved == Min(|g|, refillBatch);
    }

    /** Give back a batch, down to half of what a local list may hold. */
    method Spill(w: nat)
      requires Almost(w) && w < |locals| && localMax < locals[w].count <= Bound() + 1
      modifies this`free, this`locals, this`place
      ensures Almost(|locals|) && SumInUse(locals) == old(SumInUse(locals))
      ensures var c, m := old(locals)[w], SpillCount(old(locals)[w].count, localMax, refillBatch);
              && m <= |c.free| && free == Reversed(c.free[..m]) + old(free)
              && locals == old(locals)[w := Cache(c.free[m..], c.count - m, c.inUse)]
    {
      ghost var c, l, g := locals[w], locals, free;
      ghost var m := SpillCount(c.count, localMax, refillBatch);
      assert CacheOk(locals[w], place, w);
      var moved := 0;
      while locals[w].free != [] && locals[w].count > localMax / 2 && moved < refillBatch
        invariant Almost(w) && moved <= m <= |c.free| == c.count && free == Reversed(c.free[..moved]) + g
        invariant |locals| == |l| && locals == l[w := locals[w]]
        invariant locals[w] == Cache(c.free[moved..], c.count - moved, c.inUse)
        invariant SumInUse(locals) == old(SumInUse(locals))
        decreases refillBatch - moved
      {
        MoveNext(c.free, moved, g);
        Overwrite(l, w, locals[w], Popped(locals[w]));
        GiveOne(w);
        moved := moved + 1;
      }
      assert moved == m;
    }

    /** A worker takes an object from its own list, refilled if need be. */
    method Acquire(w: nat) returns (o: Object)
      requires Valid() && w < |locals|
      modifies this
      ensures Valid() && o !in old(out) && out == old(out) + {o}
      ensures inUseGlobal == old(inUseGlobal) && SumInUse(locals) == old(SumInUse(locals)) + 1
      ensures old(locals)[w].free != [] ==>
                TakenFrom(old(locals), w, old(locals)[w].free, o) && free == old(free) && slabs == old(slabs)
      ensures old(locals)[w].free == [] ==>
                var g := Stocked(old(free), old(next), perSlab);
                && TakenFrom(old(locals), w, RefillList(g, refillBatch), o) && free == RefillRest(g, refillBatch)
                && slabs == old(slabs) + if old(free) == [] then 1 else 0
    {
      if locals[w].free == [] { Refill(w); }
      o := HandOut(w);
    }

    /** Worker w has handed out the head of list, and keeps the rest. */
    ghost predicate TakenFrom(before: seq<Cache>, w: nat, list: seq<Object>, o: Object)
      requires w < |before|
      reads this
    {
      && list != [] && o == list[0]
      && locals == before[w := Cache(list[1..], |list| - 1, before[w].inUse + 1)]
    }

    method HandOut(w: nat) returns (o: Object)
      requires Almost(|locals|) && w < |locals| && locals[w].free != []
      modifies this`locals, this`place, this`out
      ensures Almost(|locals|) && o !in old(out) && out == old(out) + {o}
      ensures SumInUse(locals) == old(SumInUse(locals)) + 1
      ensures TakenFrom(old(locals), w, old(locals)[w].free, o)
    {
      assert CacheOk(locals[w], place, w);
      HandOutOk(All(), Bound(), |locals|, w);
      var c := locals[w];
      o := c.free[0];
      locals, place := locals[w := Popped(c).(inUse := c.inUse + 1)], place[o := Client];
      out := out + {o};
    }

    /** A worker puts an object on its own list, whoever acquired it, and spills if the list
        has grown too long. */
    method Release(w: nat, o: Object)
      requires Valid() && w < |locals| && o in out
      modifies this
      ensures Valid() && out == old(out) - {o} && inUseGlobal == old(inUseGlobal) && slabs == old(slabs)
      ensures var c := HandedIn(old(locals)[w], o);
              var m := if c.count > localMax then SpillCount(c.count, localMax, refillBatch) else 0;
              && m <= |c.free| && free == Reversed(c.free[..m]) + old(free)
              && locals == old(locals)[w := Cache(c.free[m..], c.count - m, c.inUse)]
      ensures SumInUse(locals) == old(SumInUse(locals)) - old(locals[w].inUse) + Less(old(locals[w].inUse))
    {
      ghost var l, c := locals, HandedIn(locals[w], o);
      HandIn(w, o);
      if locals[w].count > localMax {
        Spill(w);
        Overwrite(l, w, c, locals[w]);
      }
    }

    method HandIn(w: nat, o: Object)
      requires Almost(|locals|) && w < |locals| && o in out
      modifies this`locals, this`place, this`out
      ensures Almost(w) && out == old(out) - {o} && locals == old(locals)[w := HandedIn(old(locals)[w], o)]
      ensures locals[w].count <= Bound() + 1 && locals[w].count == |locals[w].free|
      ensures SumInUse(locals) == old(SumInUse(locals)) - old(locals[w].inUse) + Less(old(locals[w].inUse))
    {
      assert Almost(w) && CacheOk(locals[w], place, w);
      HandInOk(All(), Bound(), w, o);
      locals, place := locals[w := HandedIn(locals[w], o)], place[o := Local(w)];
      out := out - {o};
    }

    /** A thread that is not a worker uses the global list directly. */
    method AcquireGlobal() returns (o: Object)
      requires Valid()
      modifies this
      ensures Valid() && locals == old(locals) && o !in old(out) && out == old(out) + {o} &&
              inUseGlobal == old(inUseGlobal) + 1
      ensures var g := Stocked(old(free), old(next), perSlab);
              && g != [] && o == g[0] && free == g[1..]
              && slabs == old(slabs) + if old(free) == [] then 1 else 0
    {
      if free == [] { Grow(|locals|); }
      GlobalOutOk(All(), Bound(), |locals|);
      o := free[0];
      free, place, inUseGlobal := free[1..], place[o := Client], inUseGlobal + 1;
      out := out + {o};
    }

    method ReleaseGlobal(o: Object)
      requires Valid() && o in out
      modifies this
      ensures Valid() && locals == old(locals) && out == old(out) - {o} && inUseGlobal == Less(old(inUseGlobal))
      ensures free == [o] + old(free) && slabs == old(slabs)
    {
      GlobalInOk(All(), Bound(), |locals|, o);
      free, place, inUseGlobal := [o] + free, place[o := Global], Less(inUseGlobal);
      out := out - {o};
    }

    /** The reported number of objects in use is never too low. */
    method InUse() returns (total: nat)
      requires Valid()
      ensures total == inUseGlobal + SumInUse(locals) && total >= |out|
    {
      total := inUseGlobal;
      var i := 0;
      while i < |locals|
        invariant i <= |locals| && total == inUseGlobal + SumInUse(locals[..i])
      {
        assert locals[..i + 1][..i] == locals[..i];
        total := total + locals[i].inUse;
        i := i + 1;
      }
      assert locals[..i] == locals;
    }
  }
}
