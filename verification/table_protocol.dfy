/** Threads working on one field's unique table: locked look-up, locked re-check and insert,
    rehash and sweep under all locks, interleaved in any order. */
module TableProtocol {
  import opened Labels
  import opened Fractions
  import opened Diagram
  import opened Buckets

  type Tid = nat
  type Entries = seq<(Edges, Id)>

  /** Where a thread is in mk, or in taking and giving back all locks. */
  datatype Pc =
    | Idle
    | Finding(key: Edges, pos: nat)
    | Missed(key: Edges)
    | Checking(key: Edges, pos: nat)
    | Linking(key: Edges)
    | Returned(key: Edges, id: Id)
    | Taking(n: nat, resume: Pc)
    | Giving(n: nat, resume: Pc)

  /** The table's buckets and shard locks, the threads, and two auxiliaries: the map the buckets
      stand for, and the nodes ever linked. An id is one life of a node; memory that is handed
      out again starts another. */
  datatype State = State(
    buckets: seq<Entries>,
    locks: seq<Option<Tid>>,
    table: map<Edges, Id>,
    used: set<Id>,
    pcs: seq<Pc>)

  datatype Action =
    | BeginFind(key: Edges)
    | Advance
    | Hit
    | End
    | Recheck
    | Link(id: Id)
    | Forget
    | TakeAll
    | TakeOne
    | Rehash(k: nat)
    | Reclaim(i: nat, j: nat)
    | GiveAll
    | GiveOne
    | Resume

  predicate Scanning(pc: Pc) { pc.Finding? || pc.Checking? }

  function BucketOf(h: Hash<Edges>, s: State, key: Edges): nat
    requires |s.buckets| > 0
  {
    Mask(h(key), |s.buckets| - 1)
  }

  function LockOf(h: Hash<Edges>, s: State, key: Edges): nat
    requires |s.locks| > 0
  {
    Mask(h(key), |s.locks| - 1)
  }

  // ---------------------------------------------------------------- invariant

  /** Both counts are powers of two, and there are at least as many buckets as locks. */
  ghost predicate Sizes(s: State) {
    exists j: nat, k: nat :: j <= k && |s.locks| == Pow2(j) && |s.buckets| == Pow2(k)
  }

  ghost predicate OwnsKey(h: Hash<Edges>, s: State, t: Tid, key: Edges) {
    |s.locks| > 0 && LockOf(h, s, key) < |s.locks| && s.locks[LockOf(h, s, key)] == Some(t)
  }

  /** The thread holds locks lo up to hi. */
  ghost predicate OwnsRange(s: State, t: Tid, lo: nat, hi: nat) {
    hi <= |s.locks| && forall i :: lo <= i < hi ==> s.locks[i] == Some(t)
  }

  /** The chain of the key, up to pos, does not hold it. */
  ghost predicate Scanned(h: Hash<Edges>, s: State, key: Edges, pos: nat) {
    && |s.buckets| > 0 && BucketOf(h, s, key) < |s.buckets|
    && var chain := s.buckets[BucketOf(h, s, key)];
       pos <= |chain| && forall j :: 0 <= j < pos ==> chain[j].0 != key
  }

  ghost predicate PcOk(h: Hash<Edges>, s: State, t: Tid, pc: Pc) {
    match pc
    case Idle => true
    case Finding(key, pos) => OwnsKey(h, s, t, key) && Scanned(h, s, key, pos)
    case Missed(key) => true
    case Checking(key, pos) => OwnsKey(h, s, t, key) && Scanned(h, s, key, pos)
    case Linking(key) => OwnsKey(h, s, t, key) && key !in s.table
    case Returned(key, id) => true
    case Taking(n, resume) => OwnsRange(s, t, 0, n) && Resumable(resume) && PcOk(h, s, t, resume)
    case Giving(n, resume) =>
      n <= |s.locks| && OwnsRange(s, t, n, |s.locks|) && Resumable(resume) && PcOk(h, s, t, resume)
  }

  /** Points of mk at which all locks may be taken: before it, after its first look-up, and
      after it. No shard lock is held there. */
  predicate Resumable(pc: Pc) { pc.Idle? || pc.Missed? || pc.Returned? }

  ghost predicate Inv(h: Hash<Edges>, s: State) {
    && Sizes(s) && Holds(h, s.buckets, s.table) && s.table.Values <= s.used
    && forall t {:trigger PcOk(h, s, t, s.pcs[t])} :: 0 <= t < |s.pcs| ==> PcOk(h, s, t, s.pcs[t])
  }

  lemma LockFacts(h: Hash<Edges>, s: State, key: Edges)
    requires Sizes(s)
    ensures |s.locks| > 0 && LockOf(h, s, key) < |s.locks| && |s.buckets| > 0 && BucketOf(h, s, key) < |s.buckets|
  {
    var j: nat, k: nat :| j <= k && |s.locks| == Pow2(j) && |s.buckets| == Pow2(k);
    MaskIsMod(h(key), j);
    MaskIsMod(h(key), k);
  }

  lemma {:induction false} Pow2Divides(j: nat, k: nat) returns (q: nat)
    requires j <= k
    ensures Pow2(k) == q * Pow2(j)
    decreases k
  {
    if j == k {
      q := 1;
    } else {
      var p := Pow2Divides(j, k - 1);
      q := 2 * p;
      assert 2 * (p * Pow2(j)) == q * Pow2(j);
    }
  }

  lemma Regroup(q: int, d: int, x: int, y: int)
    ensures (q * d) * x + d * y == d * (q * x + y)
  {
    assert (q * d) * x == d * (q * x);
    assert d * (q * x + y) == d * (q * x) + d * y;
  }

  lemma ModModAt(h: nat, q: int, d: nat, x: int, y: int, z: nat)
    requires z < d && h == (q * d) * x + d * y + z
    ensures h % d == z
  {
    Regroup(q, d, x, y);
    RemainderIs(d, q * x + y, z);
  }

  lemma ModMod(h: nat, q: nat, d: nat, n: nat)
    requires d > 0 && n > 0 && n == q * d
    ensures (h % n) % d == h % d
  {
    var x, r := h / n, h % n;
    assert h == n * x + r && r == d * (r / d) + r % d;
    ModModAt(h, q, d, x, r / d, r % d);
  }

  /** Two keys that share a bucket share a lock. */
  lemma SameBucketSameLock(h: Hash<Edges>, s: State, x: Edges, y: Edges)
    requires Sizes(s) && |s.buckets| > 0 && |s.locks| > 0 && BucketOf(h, s, x) == BucketOf(h, s, y)
    ensures LockOf(h, s, x) == LockOf(h, s, y)
  {
    var j: nat, k: nat :| j <= k && |s.locks| == Pow2(j) && |s.buckets| == Pow2(k);
    MaskIsMod(h(x), j);
    MaskIsMod(h(y), j);
    MaskIsMod(h(x), k);
    MaskIsMod(h(y), k);
    var q := Pow2Divides(j, k);
    ModMod(h(x), q, Pow2(j), Pow2(k));
    ModMod(h(y), q, Pow2(j), Pow2(k));
  }

  // ---------------------------------------------------------------- steps

  function ChainOf(h: Hash<Edges>, s: State, key: Edges): Entries {
    if |s.buckets| > 0 && BucketOf(h, s, key) < |s.buckets| then s.buckets[BucketOf(h, s, key)] else []
  }

  /** The thread takes the key's shard lock, which must be free. */
  predicate Locks(h: Hash<Edges>, s: State, t: Tid, key: Edges, pc: Pc, s': State)
    requires t < |s.pcs|
  {
    && |s.locks| > 0 && LockOf(h, s, key) < |s.locks| && s.locks[LockOf(h, s, key)] == None
    && s' == s.(locks := s.locks[LockOf(h, s, key) := Some(t)], pcs := s.pcs[t := pc])
  }

  predicate Unlocks(h: Hash<Edges>, s: State, t: Tid, key: Edges, pc: Pc, s': State)
    requires t < |s.pcs|
  {
    && |s.locks| > 0 && LockOf(h, s, key) < |s.locks|
    && s' == s.(locks := s.locks[LockOf(h, s, key) := None], pcs := s.pcs[t := pc])
  }

  predicate Links(h: Hash<Edges>, s: State, t: Tid, key: Edges, id: Id, s': State)
    requires t < |s.pcs|
  {
    && |s.buckets| > 0 && BucketOf(h, s, key) < |s.buckets| && id !in s.used
    && Unlocks(h, Linked(h, s, key, id), t, key, Returned(key, id), s')
  }

  /** The entry at the front of its chain. */
  function Linked(h: Hash<Edges>, s: State, key: Edges, id: Id): State
    requires |s.buckets| > 0 && BucketOf(h, s, key) < |s.buckets|
  {
    var i := BucketOf(h, s, key);
    s.(buckets := s.buckets[i := [(key, id)] + s.buckets[i]], table := s.table[key := id], used := s.used + {id})
  }

  predicate Moves(s: State, t: Tid, pc: Pc, s': State)
    requires t < |s.pcs|
  {
    s' == s.(pcs := s.pcs[t := pc])
  }

  /** The sweep drops an entry. It looks at the node's count only, not at who was handed it. */
  function Unlinked(s: State, i: nat, j: nat): State
    requires i < |s.buckets| && j < |s.buckets[i]|
  {
    var chain := s.buckets[i];
    s.(buckets := s.buckets[i := chain[..j] + chain[j + 1..]], table := s.table - {chain[j].0})
  }

  /** Thread t does action a. The size a rehash aims at may have been read before the locks were
      taken, so it can be smaller than the table has become; it never falls below the locks. */
  ghost predicate Next(h: Hash<Edges>, s: State, t: Tid, a: Action, s': State) {
    && t < |s.pcs|
    && var pc := s.pcs[t];
       match a
       case BeginFind(key) => pc.Idle? && Locks(h, s, t, key, Finding(key, 0), s')
       case Advance =>
         && Scanning(pc)
         && var chain := ChainOf(h, s, pc.key);
            && pc.pos < |chain| && chain[pc.pos].0 != pc.key
            && Moves(s, t, pc.(pos := pc.pos + 1), s')
       case Hit =>
         && Scanning(pc)
         && var chain := ChainOf(h, s, pc.key);
            && pc.pos < |chain| && chain[pc.pos].0 == pc.key
            && Unlocks(h, s, t, pc.key, Returned(pc.key, chain[pc.pos].1), s')
       case End =>
         && Scanning(pc) && pc.pos == |ChainOf(h, s, pc.key)|
         && if pc.Finding? then Unlocks(h, s, t, pc.key, Missed(pc.key), s') else Moves(s, t, Linking(pc.key), s')
       case Recheck => pc.Missed? && Locks(h, s, t, pc.key, Checking(pc.key, 0), s')
       case Link(id) => pc.Linking? && Links(h, s, t, pc.key, id, s')
       case Forget => pc.Returned? && Moves(s, t, Idle, s')
       case TakeAll => Resumable(pc) && Moves(s, t, Taking(0, pc), s')
       case TakeOne =>
         && pc.Taking? && pc.n < |s.locks| && s.locks[pc.n] == None
         && s' == s.(locks := s.locks[pc.n := Some(t)], pcs := s.pcs[t := Taking(pc.n + 1, pc.resume)])
       case Rehash(k) =>
         && pc.Taking? && pc.n == |s.locks| && |s.locks| <= Pow2(k)
         && s' == s.(buckets := Relinked(h, s.buckets, Pow2(k)))
       case Reclaim(i, j) =>
         && pc.Taking? && pc.n == |s.locks| && i < |s.buckets| && j < |s.buckets[i]|
         && s' == Unlinked(s, i, j)
       case GiveAll => pc.Taking? && pc.n == |s.locks| && Moves(s, t, Giving(0, pc.resume), s')
       case GiveOne =>
         && pc.Giving? && pc.n < |s.locks|
         && s' == s.(locks := s.locks[pc.n := None], pcs := s.pcs[t := Giving(pc.n + 1, pc.resume)])
       case Resume => pc.Giving? && pc.n == |s.locks| && Moves(s, t, pc.resume, s')
  }

  // ---------------------------------------------------------------- rehash as a function

  /** Put the entries of a chain, first to last, at the front of the buckets they hash to. */
  function RelinkChain(h: Hash<Edges>, chain: Entries, b: seq<Entries>): (r: seq<Entries>)
    ensures |r| == |b|
    decreases |chain|
  {
    if chain == [] || |b| == 0 then b
    else
      var i := Mask(h(chain[0].0), |b| - 1);
      if i < |b| then RelinkChain(h, chain[1..], b[i := [chain[0]] + b[i]]) else b
  }

  function RelinkFrom(h: Hash<Edges>, from: seq<Entries>, i: nat, b: seq<Entries>): (r: seq<Entries>)
    ensures |r| == |b|
    decreases |from| - i
  {
    if i >= |from| then b else RelinkFrom(h, from, i + 1, RelinkChain(h, from[i], b))
  }

  function Relinked(h: Hash<Edges>, from: seq<Entries>, n: nat): seq<Entries> {
    RelinkFrom(h, from, 0, seq(n, _ => []))
  }

  lemma {:induction false} RelinkChainHolds(h: Hash<Edges>, chain: Entries, b: seq<Entries>, m: map<Edges, Id>)
    requires Distinct(chain) && m.Keys !! ToMap(chain).Keys && Holds(h, b, m)
    ensures Holds(h, RelinkChain(h, chain, b), m + ToMap(chain))
    decreases |chain|
  {
    if chain == [] {
      assert m + ToMap(chain) == m;
    } else {
      var e := chain[0];
      MoveOne(m, chain);
      BucketExists(h, b, m, e.0);
      var i := Mask(h(e.0), |b| - 1);
      HoldsPut(h, b, m, e.0, e.1, i);
      RelinkChainHolds(h, chain[1..], b[i := [e] + b[i]], m[e.0 := e.1]);
    }
  }

  lemma {:induction false} RelinkFromHolds(h: Hash<Edges>, from: seq<Entries>, i: nat, b: seq<Entries>,
                                           m: map<Edges, Id>)
    requires Holds(h, from, m) && |from| > 0 && i <= |from| && Holds(h, b, Below(h, |from|, m, i))
    ensures Holds(h, RelinkFrom(h, from, i, b), m)
    decreases |from| - i
  {
    if i == |from| {
      BelowEnds(h, from, m);
    } else {
      assert ChainOk(h, |from|, m, i, from[i]);
      BelowNext(h, from, m, i);
      RelinkChainHolds(h, from[i], b, Below(h, |from|, m, i));
      RelinkFromHolds(h, from, i + 1, RelinkChain(h, from[i], b), m);
    }
  }

  /** Rehashing represents the same map. */
  lemma RelinkedHolds(h: Hash<Edges>, from: seq<Entries>, k: nat, m: map<Edges, Id>)
    requires Holds(h, from, m)
    ensures Holds(h, Relinked(h, from, Pow2(k)), m) && |Relinked(h, from, Pow2(k))| == Pow2(k)
  {
    var b: seq<Entries> := seq(Pow2(k), _ => []);
    HoldsNothing(h, k, b);
    BelowEnds(h, from, m);
    RelinkFromHolds(h, from, 0, b, m);
  }

  // ---------------------------------------------------------------- every step keeps the invariant

  /** What other threads rely on survives a change of locks that does not touch theirs. */
  lemma {:induction false} PcOkLocks(h: Hash<Edges>, s: State, s': State, u: Tid, pc: Pc)
    requires PcOk(h, s, u, pc) && s'.buckets == s.buckets && s'.table == s.table && |s'.locks| == |s.locks|
    requires forall i :: 0 <= i < |s.locks| && s.locks[i] == Some(u) ==> s'.locks[i] == Some(u)
    ensures PcOk(h, s', u, pc)
  {
    match pc
    case Taking(n, r) => PcOkLocks(h, s, s', u, r);
    case Giving(n, r) => PcOkLocks(h, s, s', u, r);
    case _ =>
  }

  /** A step of t that leaves buckets and map alone and touches no lock of another thread. */
  lemma QuietStep(h: Hash<Edges>, s: State, t: Tid, s': State)
    requires Inv(h, s) && t < |s.pcs| && |s'.pcs| == |s.pcs| && s'.buckets == s.buckets && s'.table == s.table
    requires |s'.locks| == |s.locks| && s'.used == s.used
    requires forall i, u :: 0 <= i < |s.locks| && u != t && s.locks[i] == Some(u) ==> s'.locks[i] == Some(u)
    requires forall u :: 0 <= u < |s.pcs| && u != t ==> s'.pcs[u] == s.pcs[u]
    requires PcOk(h, s', t, s'.pcs[t])
    ensures Inv(h, s')
  {
    assert Sizes(s');
    forall u | 0 <= u < |s'.pcs| ensures PcOk(h, s', u, s'.pcs[u]) {
      if u != t {
        assert PcOk(h, s, u, s.pcs[u]);
        PcOkLocks(h, s, s', u, s.pcs[u]);
      }
    }
  }

  /** Only the locks of one shard can protect the chain that t links into. */
  lemma {:induction false} PcOkLink(h: Hash<Edges>, s: State, s': State, t: Tid, key: Edges, id: Id, u: Tid, pc: Pc)
    requires Sizes(s) && PcOk(h, s, u, pc) && u != t && OwnsKey(h, s, t, key) && key !in s.table
    requires t < |s.pcs| && Links(h, s, t, key, id, s')
    ensures PcOk(h, s', u, pc)
  {
    match pc
    case Taking(n, r) => PcOkLink(h, s, s', t, key, id, u, r);
    case Giving(n, r) => PcOkLink(h, s, s', t, key, id, u, r);
    case Finding(k, pos) => OtherChain(h, s, key, k);
    case Checking(k, pos) => OtherChain(h, s, key, k);
    case _ =>
  }

  lemma OtherChain(h: Hash<Edges>, s: State, key: Edges, k: Edges)
    requires Sizes(s) && |s.buckets| > 0 && |s.locks| > 0 && LockOf(h, s, key) != LockOf(h, s, k)
    ensures BucketOf(h, s, key) != BucketOf(h, s, k)
  {
    if BucketOf(h, s, key) == BucketOf(h, s, k) { SameBucketSameLock(h, s, key, k); }
  }

  lemma LinkStep(h: Hash<Edges>, s: State, t: Tid, key: Edges, id: Id, s': State)
    requires Inv(h, s) && t < |s.pcs| && s.pcs[t] == Linking(key) && Links(h, s, t, key, id, s')
    ensures Inv(h, s')
  {
    assert PcOk(h, s, t, s.pcs[t]);
    HoldsPut(h, s.buckets, s.table, key, id, BucketOf(h, s, key));
    assert Sizes(s');
    forall u | 0 <= u < |s'.pcs| ensures PcOk(h, s', u, s'.pcs[u]) {
      if u != t {
        assert PcOk(h, s, u, s.pcs[u]);
        PcOkLink(h, s, s', t, key, id, u, s.pcs[u]);
      }
    }
  }

  /** While t holds every lock, no other thread is looking at a chain. */
  lemma {:induction false} PcOkExclusive(h: Hash<Edges>, s: State, s': State, t: Tid, u: Tid, pc: Pc)
    requires Sizes(s) && PcOk(h, s, u, pc) && OwnsRange(s, t, 0, |s.locks|)
    requires u == t ==> !Scanning(pc) && !pc.Linking?
    requires s'.locks == s.locks
    ensures PcOk(h, s', u, pc)
  {
    match pc
    case Taking(n, r) => PcOkExclusive(h, s, s', t, u, r);
    case Giving(n, r) => PcOkExclusive(h, s, s', t, u, r);
    case _ =>
  }

  lemma ExclusiveStep(h: Hash<Edges>, s: State, t: Tid, s': State)
    requires Inv(h, s) && t < |s.pcs| && s.pcs[t].Taking? && s.pcs[t].n == |s.locks| && s'.locks == s.locks
    requires s'.pcs == s.pcs
    requires Sizes(s') && Holds(h, s'.buckets, s'.table) && s'.table.Values <= s'.used
    ensures Inv(h, s')
  {
    assert PcOk(h, s, t, s.pcs[t]);
    forall u | 0 <= u < |s'.pcs| ensures PcOk(h, s', u, s'.pcs[u]) {
      assert PcOk(h, s, u, s.pcs[u]);
      PcOkExclusive(h, s, s', t, u, s.pcs[u]);
    }
  }

  lemma ReclaimStep(h: Hash<Edges>, s: State, t: Tid, i: nat, j: nat, s': State)
    requires Inv(h, s) && Next(h, s, t, Reclaim(i, j), s')
    ensures Inv(h, s')
  {
    EntryIs(h, s.buckets, s.table, i, j);
    HoldsRemove(h, s.buckets, s.table, s.buckets[i][j].0, i, j);
    assert Sizes(s');
    ExclusiveStep(h, s, t, s');
  }

  lemma RehashStep(h: Hash<Edges>, s: State, t: Tid, k: nat, s': State)
    requires Inv(h, s) && Next(h, s, t, Rehash(k), s')
    ensures Inv(h, s')
  {
    RelinkedHolds(h, s.buckets, k, s.table);
    ResizedSizes(s, k, s');
    ExclusiveStep(h, s, t, s');
  }

  lemma ResizedSizes(s: State, k: nat, s': State)
    requires Sizes(s) && |s.locks| <= Pow2(k) == |s'.buckets| && |s'.locks| == |s.locks|
    ensures Sizes(s')
  {
    var j: nat, k0: nat :| j <= k0 && |s.locks| == Pow2(j) && |s.buckets| == Pow2(k0);
    if k < j { Pow2Strict(k, j); }
  }

  lemma {:induction false} Pow2Strict(m: nat, n: nat)
    requires m < n
    ensures Pow2(m) < Pow2(n)
    decreases n
  {
    if m < n - 1 { Pow2Strict(m, n - 1); }
  }

  /** The scan of a whole chain found nothing: the key is not in the table. */
  lemma ScanEnd(h: Hash<Edges>, s: State, key: Edges, pos: nat)
    requires Holds(h, s.buckets, s.table) && Scanned(h, s, key, pos) && pos == |ChainOf(h, s, key)|
    ensures key !in s.table
  {
    var chain := ChainOf(h, s, key);
    if key in ToMap(chain) { ChainHas(chain, key); }
    NotInChain(h, s.buckets, s.table, key);
  }

  lemma ScanStep(h: Hash<Edges>, s: State, t: Tid, a: Action, s': State)
    requires Inv(h, s) && Next(h, s, t, a, s') && (a.Advance? || a.Hit? || a.End?)
    ensures Inv(h, s')
  {
    var pc := s.pcs[t];
    assert PcOk(h, s, t, pc);
    if a.Hit? {
      EntryIs(h, s.buckets, s.table, BucketOf(h, s, pc.key), pc.pos);
    } else if a.End? {
      ScanEnd(h, s, pc.key, pc.pos);
    }
    QuietStep(h, s, t, s');
  }

  lemma ResumeOk(h: Hash<Edges>, s: State, s': State, t: Tid, r: Pc)
    requires Resumable(r) && PcOk(h, s, t, r)
    ensures PcOk(h, s', t, r)
  {}

  /** Taking and giving back all locks, and returning to mk or out of it. */
  lemma LockStep(h: Hash<Edges>, s: State, t: Tid, a: Action, s': State)
    requires Inv(h, s) && Next(h, s, t, a, s')
    requires a.Forget? || a.TakeAll? || a.TakeOne? || a.GiveAll? || a.GiveOne? || a.Resume?
    ensures Inv(h, s')
  {
    var pc := s.pcs[t];
    assert PcOk(h, s, t, pc);
    ResumeOk(h, s, s', t, if pc.Taking? || pc.Giving? then pc.resume else pc);
    QuietStep(h, s, t, s');
  }

  lemma StepKeepsInv(h: Hash<Edges>, s: State, t: Tid, a: Action, s': State)
    requires Inv(h, s) && Next(h, s, t, a, s')
    ensures Inv(h, s')
  {
    assert PcOk(h, s, t, s.pcs[t]);
    match a
    case Advance => ScanStep(h, s, t, a, s');
    case Hit => ScanStep(h, s, t, a, s');
    case End => ScanStep(h, s, t, a, s');
    case Link(id) => LinkStep(h, s, t, s.pcs[t].key, id, s');
    case Rehash(k) => RehashStep(h, s, t, k, s');
    case Reclaim(i, j) => ReclaimStep(h, s, t, i, j, s');
    case BeginFind(key) =>
      LockFacts(h, s, key);
      QuietStep(h, s, t, s');
    case Recheck =>
      LockFacts(h, s, s.pcs[t].key);
      QuietStep(h, s, t, s');
    case _ => LockStep(h, s, t, a, s');
  }

  // ---------------------------------------------------------------- whole runs

  ghost predicate Initial(s: State) {
    && Sizes(s) && s.table == map[] && s.used == {}
    && (forall i :: 0 <= i < |s.buckets| ==> s.buckets[i] == [])
    && (forall i :: 0 <= i < |s.locks| ==> s.locks[i] == None)
    && (forall t :: 0 <= t < |s.pcs| ==> s.pcs[t] == Idle)
  }

  ghost predicate Steps(h: Hash<Edges>, s: State, s': State) {
    exists t, a :: Next(h, s, t, a, s')
  }

  ghost predicate StepAt(h: Hash<Edges>, run: seq<State>, i: nat)
    requires 0 < i < |run|
  {
    Steps(h, run[i - 1], run[i])
  }

  /** A run: some thread makes some step from each state to the next. */
  ghost predicate Run(h: Hash<Edges>, run: seq<State>) {
    && |run| > 0 && Initial(run[0])
    && forall i {:trigger StepAt(h, run, i)} :: 0 < i < |run| ==> StepAt(h, run, i)
  }

  lemma InitialInv(h: Hash<Edges>, s: State)
    requires Initial(s)
    ensures Inv(h, s)
  {
    var j: nat, k: nat :| j <= k && |s.locks| == Pow2(j) && |s.buckets| == Pow2(k);
    HoldsNothing(h, k, s.buckets);
    forall t | 0 <= t < |s.pcs| ensures PcOk(h, s, t, s.pcs[t]) {}
  }

  lemma {:induction false} RunInv(h: Hash<Edges>, run: seq<State>, n: nat)
    requires Run(h, run) && n < |run|
    ensures Inv(h, run[n])
  {
    if n == 0 {
      InitialInv(h, run[0]);
    } else {
      RunInv(h, run, n - 1);
      var s, s' := run[n - 1], run[n];
      assert StepAt(h, run, n);
      var t, a :| Next(h, s, t, a, s');
      StepKeepsInv(h, s, t, a, s');
    }
  }

  lemma NoTwoEntries(h: Hash<Edges>, b: seq<Entries>, m: map<Edges, Id>, i: nat, j: nat, k: nat, l: nat)
    requires Holds(h, b, m) && i < |b| && j < |b[i]| && k < |b| && l < |b[k]| && b[i][j].0 == b[k][l].0
    ensures i == k && j == l
  {
    EntryIs(h, b, m, i, j);
    EntryIs(h, b, m, k, l);
    assert ChainOk(h, |b|, m, i, b[i]);
    if j < l { DistinctAt(b[i], j, l); }
    if l < j { DistinctAt(b[i], l, j); }
  }

  /** In no state of any run does the table hold two entries with equal content. */
  lemma NoDuplicates(h: Hash<Edges>, run: seq<State>, n: nat, i: nat, j: nat, k: nat, l: nat)
    requires Run(h, run) && n < |run|
    requires var b := run[n].buckets;
             i < |b| && j < |b[i]| && k < |b| && l < |b[k]| && b[i][j].0 == b[k][l].0
    ensures i == k && j == l
  {
    RunInv(h, run, n);
    NoTwoEntries(h, run[n].buckets, run[n].table, i, j, k, l);
  }

  lemma {:induction false} DistinctAt(chain: Entries, j: nat, l: nat)
    requires Distinct(chain) && j < l < |chain|
    ensures chain[j].0 != chain[l].0
  {
    assert chain[1..][l - 1] == chain[l];
    if j == 0 {
      ChainEntry(chain[1..], l - 1);
    } else {
      DistinctAt(chain[1..], j - 1, l - 1);
    }
  }

  // ---------------------------------------------------------------- what mk hands out

  /** Step i hands node id of this content to thread t. */
  predicate ReturnsAt(run: seq<State>, i: nat, t: Tid, key: Edges, id: Id) {
    && 0 < i < |run| && t < |run[i - 1].pcs| && t < |run[i].pcs|
    && (Scanning(run[i - 1].pcs[t]) || run[i - 1].pcs[t].Linking?)
    && run[i].pcs[t] == Returned(key, id)
  }

  /** Step i reclaims the entry of this content. */
  predicate ReclaimsAt(run: seq<State>, i: nat, key: Edges)
    requires 0 < i < |run|
  {
    key in run[i - 1].table && key !in run[i].table
  }

  ghost predicate ReclaimedBetween(run: seq<State>, m: nat, n: nat, key: Edges) {
    exists i :: m < i <= n && i < |run| && ReclaimsAt(run, i, key)
  }

  lemma ReturnedFromTable(h: Hash<Edges>, s: State, u: Tid, a: Action, s': State, t: Tid, key: Edges, id: Id)
    requires Inv(h, s) && Next(h, s, u, a, s') && t < |s.pcs| && t < |s'.pcs| && s'.pcs[t] == Returned(key, id)
    requires Scanning(s.pcs[t]) || s.pcs[t].Linking?
    ensures key in s'.table && s'.table[key] == id
  {
    assert u == t;
    assert PcOk(h, s, t, s.pcs[t]);
    if a.Hit? { EntryIs(h, s.buckets, s.table, BucketOf(h, s, key), s.pcs[t].pos); }
  }

  /** What mk returns is in the table at that moment. */
  lemma ReturnInTable(h: Hash<Edges>, run: seq<State>, i: nat, t: Tid, key: Edges, id: Id)
    requires Run(h, run) && ReturnsAt(run, i, t, key, id)
    ensures key in run[i].table && run[i].table[key] == id
  {
    RunInv(h, run, i - 1);
    var s, s' := run[i - 1], run[i];
    assert StepAt(h, run, i);
    var u, a :| Next(h, s, u, a, s');
    ReturnedFromTable(h, s, u, a, s', t, key, id);
  }

  /** One step on one key: its node stays until it is reclaimed, and a new node is a new one. */
  lemma KeyStep(h: Hash<Edges>, s: State, t: Tid, a: Action, s': State, key: Edges)
    requires Inv(h, s) && Next(h, s, t, a, s')
    ensures s.used <= s'.used
    ensures key in s.table && key in s'.table ==> s'.table[key] == s.table[key]
    ensures key !in s.table && key in s'.table ==> s'.table[key] !in s.used
  {
    assert PcOk(h, s, t, s.pcs[t]);
  }

  lemma KeyStepAt(h: Hash<Edges>, run: seq<State>, i: nat, key: Edges)
    requires Run(h, run) && 0 < i < |run|
    ensures var s, s' := run[i - 1], run[i];
            && s.used <= s'.used
            && (key in s.table && key in s'.table ==> s'.table[key] == s.table[key])
            && (key !in s.table && key in s'.table ==> s'.table[key] !in s.used)
  {
    RunInv(h, run, i - 1);
    var s, s' := run[i - 1], run[i];
    assert StepAt(h, run, i);
    var t, a :| Next(h, s, t, a, s');
    KeyStep(h, s, t, a, s', key);
  }

  lemma {:induction false} StaysUnlessReclaimed(h: Hash<Edges>, run: seq<State>, m: nat, n: nat, key: Edges)
    requires Run(h, run) && m <= n < |run| && key in run[m].table && !ReclaimedBetween(run, m, n, key)
    ensures key in run[n].table && run[n].table[key] == run[m].table[key]
    decreases n
  {
    if m < n {
      forall i | m < i <= n - 1 ensures !ReclaimsAt(run, i, key) {}
      StaysUnlessReclaimed(h, run, m, n - 1, key);
      KeyStepAt(h, run, n, key);
      assert !ReclaimsAt(run, n, key);
    }
  }

  lemma {:induction false} UsedGrows(h: Hash<Edges>, run: seq<State>, m: nat, n: nat)
    requires Run(h, run) && m <= n < |run|
    ensures run[m].used <= run[n].used
    decreases n
  {
    if m < n {
      UsedGrows(h, run, m, n - 1);
      KeyStepAt(h, run, n, map[]);
    }
  }

  lemma {:induction false} NewAfterReclaim(h: Hash<Edges>, run: seq<State>, m: nat, n: nat, key: Edges)
    requires Run(h, run) && m <= n < |run| && key !in run[m].table && key in run[n].table
    ensures run[n].table[key] !in run[m].used
    decreases n
  {
    assert m < n;
    KeyStepAt(h, run, n, key);
    if key in run[n - 1].table {
      NewAfterReclaim(h, run, m, n - 1, key);
    } else {
      UsedGrows(h, run, m, n - 1);
    }
  }

  /** Two calls that make the same content return the same node exactly when that content was
      not reclaimed in between. */
  lemma SameNodeIffNotReclaimed(h: Hash<Edges>, run: seq<State>, m: nat, n: nat, t: Tid, u: Tid, key: Edges, a: Id,
                                b: Id)
    requires Run(h, run) && m <= n && ReturnsAt(run, m, t, key, a) && ReturnsAt(run, n, u, key, b)
    ensures a == b <==> !ReclaimedBetween(run, m, n, key)
  {
    ReturnInTable(h, run, m, t, key, a);
    ReturnInTable(h, run, n, u, key, b);
    if ReclaimedBetween(run, m, n, key) {
      var i :| m < i <= n && i < |run| && ReclaimsAt(run, i, key);
      NewAfterReclaim(h, run, i, n, key);
      UsedGrows(h, run, m, i);
      RunInv(h, run, m);
    } else {
      StaysUnlessReclaimed(h, run, m, n, key);
    }
  }

  // ---------------------------------------------------------------- progress

  /** In mk, with the key's lock held or free to take. */
  predicate InMk(h: Hash<Edges>, s: State, t: Tid) {
    && t < |s.pcs| && |s.locks| > 0
    && var pc := s.pcs[t];
       || Scanning(pc) || pc.Linking?
       || (pc.Missed? && LockOf(h, s, pc.key) < |s.locks| && s.locks[LockOf(h, s, pc.key)] == None)
  }

  /** What is left of the key's chain from pos on. */
  function LeftOf(h: Hash<Edges>, s: State, key: Edges, pos: nat): nat {
    if pos < |ChainOf(h, s, key)| then |ChainOf(h, s, key)| - pos else 0
  }

  /** Steps to the return from mk at most, for a thread that is not interrupted. */
  function Ahead(h: Hash<Edges>, s: State, pc: Pc): nat {
    match pc
    case Finding(key, pos) => LeftOf(h, s, key, pos) + |ChainOf(h, s, key)| + 4
    case Missed(key) => |ChainOf(h, s, key)| + 3
    case Checking(key, pos) => LeftOf(h, s, key, pos) + 2
    case Linking(key) => 1
    case _ => 0
  }

  /** A thread in mk always has a step: to go on scanning, to return what it found, to look again,
      or to link. */
  lemma CanStep(h: Hash<Edges>, s: State, t: Tid) returns (a: Action, s': State)
    requires Inv(h, s) && InMk(h, s, t)
    ensures Next(h, s, t, a, s') && !a.TakeAll? && !a.BeginFind? && !a.Rehash? && !a.Reclaim?
  {
    var pc := s.pcs[t];
    assert PcOk(h, s, t, pc);
    LockFacts(h, s, pc.key);
    var k := LockOf(h, s, pc.key);
    if pc.Missed? {
      a, s' := Recheck, s.(locks := s.locks[k := Some(t)], pcs := s.pcs[t := Checking(pc.key, 0)]);
    } else if pc.Linking? {
      var id := Unused(s.used);
      var l := Linked(h, s, pc.key, id);
      a, s' := Link(id), l.(locks := l.locks[k := None], pcs := l.pcs[t := Returned(pc.key, id)]);
    } else {
      var chain := ChainOf(h, s, pc.key);
      if pc.pos == |chain| {
        a := End;
        s' := if pc.Finding? then s.(locks := s.locks[k := None], pcs := s.pcs[t := Missed(pc.key)])
              else s.(pcs := s.pcs[t := Linking(pc.key)]);
      } else if chain[pc.pos].0 == pc.key {
        a, s' := Hit, s.(locks := s.locks[k := None], pcs := s.pcs[t := Returned(pc.key, chain[pc.pos].1)]);
      } else {
        a, s' := Advance, s.(pcs := s.pcs[t := pc.(pos := pc.pos + 1)]);
      }
    }
  }

  lemma Unused(used: set<Id>) returns (id: Id)
    ensures id !in used
  {
    id := 0;
    var left := used;
    while id in used
      invariant left <= used && (forall i :: i in used && i >= id ==> i in left) && forall i :: i in left ==> i >= id
      decreases |left|
    {
      left := left - {id};
      id := id + 1;
    }
  }

  /** mk returns the table's node if the content is there, and a new one that it links if not. */
  predicate ReturnsRight(s: State, key: Edges, s': State, t: Tid) {
    && t < |s'.pcs| && s'.pcs[t].Returned? && s'.pcs[t].key == key
    && key in s'.table && s'.table[key] == s'.pcs[t].id
    && if key in s.table then s'.table == s.table
       else s'.table == s.table[key := s'.pcs[t].id] && s'.pcs[t].id !in s.used
  }

  /** Any step of a thread in mk, unless it goes off to take all locks, brings it nearer to its
      return or is the return. */
  lemma StepAhead(h: Hash<Edges>, s: State, t: Tid, a: Action, s': State)
    requires Inv(h, s) && InMk(h, s, t) && Next(h, s, t, a, s') && !a.TakeAll?
    ensures var key := s.pcs[t].key;
            || (InMk(h, s', t) && s'.pcs[t].key == key && s'.table == s.table && s'.used == s.used
                && Ahead(h, s', s'.pcs[t]) < Ahead(h, s, s.pcs[t]))
            || ReturnsRight(s, key, s', t)
  {
    var pc := s.pcs[t];
    assert PcOk(h, s, t, pc);
    LockFacts(h, s, pc.key);
    if a.Hit? { EntryIs(h, s.buckets, s.table, BucketOf(h, s, pc.key), pc.pos); }
  }

  /** A step of thread t, other than to take all locks. */
  ghost predicate SoloStep(h: Hash<Edges>, s: State, t: Tid, s': State) {
    exists a: Action :: !a.TakeAll? && Next(h, s, t, a, s')
  }

  /** A run of thread t alone that stays in mk. */
  ghost predicate Alone(h: Hash<Edges>, run: seq<State>, t: Tid) {
    && |run| > 0 && Inv(h, run[0])
    && (forall i :: 0 <= i < |run| ==> InMk(h, run[i], t))
    && (forall i :: 0 < i < |run| ==> SoloStep(h, run[i - 1], t, run[i]))
  }

  /** After n steps nothing has changed for other threads, and n fewer are ahead. */
  lemma {:induction false} AloneAt(h: Hash<Edges>, run: seq<State>, t: Tid, n: nat)
    requires Alone(h, run, t) && n < |run|
    ensures Inv(h, run[n]) && run[n].table == run[0].table && run[n].used == run[0].used
    ensures run[n].pcs[t].key == run[0].pcs[t].key
    ensures n + Ahead(h, run[n], run[n].pcs[t]) <= Ahead(h, run[0], run[0].pcs[t])
  {
    if n > 0 {
      AloneAt(h, run, t, n - 1);
      var s, s' := run[n - 1], run[n];
      assert SoloStep(h, s, t, s') && InMk(h, s, t) && InMk(h, s', t);
      var a: Action :| !a.TakeAll? && Next(h, s, t, a, s');
      StepAhead(h, s, t, a, s');
      StepKeepsInv(h, s, t, a, s');
    }
  }

  /** Such a run has at most as many steps as two scans of the chain take and four more; it can
      always go on, and when it leaves mk it does so with the right node. */
  lemma AloneReturns(h: Hash<Edges>, run: seq<State>, t: Tid) returns (a: Action, s': State)
    requires Alone(h, run, t)
    ensures |run| <= Ahead(h, run[0], run[0].pcs[t])
    ensures Next(h, run[|run| - 1], t, a, s') && !a.TakeAll?
    ensures Alone(h, run + [s'], t) || ReturnsRight(run[0], run[0].pcs[t].key, s', t)
  {
    var n := |run| - 1;
    AloneAt(h, run, t, n);
    assert InMk(h, run[n], t) && InMk(h, run[0], t);
    a, s' := CanStep(h, run[n], t);
    StepAhead(h, run[n], t, a, s');
    assert SoloStep(h, run[n], t, s');
    if InMk(h, s', t) { AloneMore(h, run, t, s'); }
  }

  lemma AloneMore(h: Hash<Edges>, run: seq<State>, t: Tid, s': State)
    requires Alone(h, run, t) && SoloStep(h, run[|run| - 1], t, s') && InMk(h, s', t)
    ensures Alone(h, run + [s'], t)
  {
    var more := run + [s'];
    forall i | 0 < i < |more| ensures SoloStep(h, more[i - 1], t, more[i]) {
      if i < |run| { assert more[i - 1] == run[i - 1] && more[i] == run[i]; }
    }
  }

  // ---------------------------------------------------------------- no deadlock

  /** Thread u is at a point at which it holds lock i. */
  predicate Holding(h: Hash<Edges>, s: State, u: Tid, i: nat) {
    && u < |s.pcs| && |s.locks| > 0
    && match s.pcs[u]
       case Finding(key, _) => LockOf(h, s, key) == i
       case Checking(key, _) => LockOf(h, s, key) == i
       case Linking(key) => LockOf(h, s, key) == i
       case Taking(n, _) => i < n
       case Giving(n, _) => n <= i
       case _ => false
  }

  ghost predicate HolderOk(h: Hash<Edges>, s: State, i: nat)
    requires i < |s.locks|
  {
    s.locks[i].Some? ==> Holding(h, s, s.locks[i].value, i)
  }

  /** A lock that is taken is held by a thread at such a point. */
  ghost predicate Holders(h: Hash<Edges>, s: State) {
    forall i {:trigger HolderOk(h, s, i)} :: 0 <= i < |s.locks| ==> HolderOk(h, s, i)
  }

  lemma HoldersStep(h: Hash<Edges>, s: State, t: Tid, a: Action, s': State)
    requires Inv(h, s) && Holders(h, s) && Next(h, s, t, a, s')
    ensures Holders(h, s')
  {
    assert PcOk(h, s, t, s.pcs[t]);
    forall i | 0 <= i < |s'.locks| ensures HolderOk(h, s', i) {
      assert HolderOk(h, s, i);
      if s'.locks[i].Some? && s'.locks[i].value != t { assert s'.pcs[s'.locks[i].value] == s.pcs[s'.locks[i].value]; }
    }
  }

  lemma {:induction false} RunHolders(h: Hash<Edges>, run: seq<State>, n: nat)
    requires Run(h, run) && n < |run|
    ensures Holders(h, run[n])
  {
    if n == 0 {
      forall i | 0 <= i < |run[0].locks| ensures HolderOk(h, run[0], i) {}
    } else {
      RunHolders(h, run, n - 1);
      RunInv(h, run, n - 1);
      var s, s' := run[n - 1], run[n];
      assert StepAt(h, run, n);
      var t, a :| Next(h, s, t, a, s');
      HoldersStep(h, s, t, a, s');
    }
  }

  /** The thread has begun something and not finished it. */
  predicate Busy(pc: Pc) { !pc.Idle? && !pc.Returned? }

  /** What the thread needs next is its own or free. */
  predicate Ready(h: Hash<Edges>, s: State, t: Tid) {
    InMk(h, s, t) || (t < |s.pcs| && (s.pcs[t].Giving? ||
      (s.pcs[t].Taking? && (s.pcs[t].n == |s.locks| || (s.pcs[t].n < |s.locks| && s.locks[s.pcs[t].n] == None)))))
  }

  lemma ReadySteps(h: Hash<Edges>, s: State, t: Tid) returns (a: Action, s': State)
    requires Inv(h, s) && Ready(h, s, t)
    ensures Next(h, s, t, a, s') && !a.TakeAll? && !a.BeginFind? && !a.Rehash? && !a.Reclaim?
  {
    var pc := s.pcs[t];
    assert PcOk(h, s, t, pc);
    if pc.Giving? {
      if pc.n < |s.locks| {
        a, s' := GiveOne, s.(locks := s.locks[pc.n := None], pcs := s.pcs[t := Giving(pc.n + 1, pc.resume)]);
      } else {
        a, s' := Resume, s.(pcs := s.pcs[t := pc.resume]);
      }
    } else if pc.Taking? {
      if pc.n < |s.locks| {
        a, s' := TakeOne, s.(locks := s.locks[pc.n := Some(t)], pcs := s.pcs[t := Taking(pc.n + 1, pc.resume)]);
      } else {
        a, s' := GiveAll, s.(pcs := s.pcs[t := Giving(0, pc.resume)]);
      }
    } else {
      a, s' := CanStep(h, s, t);
    }
  }

  /** The thread that a busy thread waits for is ready, or has more locks than it. */
  lemma {:induction false} SomeReady(h: Hash<Edges>, s: State, t: Tid) returns (u: Tid)
    requires Inv(h, s) && Holders(h, s) && t < |s.pcs| && Busy(s.pcs[t])
    ensures Ready(h, s, u)
    decreases |s.locks| - if s.pcs[t].Taking? then s.pcs[t].n else -1
  {
    var pc := s.pcs[t];
    assert PcOk(h, s, t, pc);
    if Ready(h, s, t) {
      u := t;
    } else {
      var i: nat;
      if pc.Missed? {
        LockFacts(h, s, pc.key);
        i := LockOf(h, s, pc.key);
      } else {
        i := pc.n;
      }
      assert HolderOk(h, s, i);
      u := s.locks[i].value;
      if !Ready(h, s, u) { u := SomeReady(h, s, u); }
    }
  }

  /** In every state of every run in which some thread has begun and not finished something, some
      such thread has a step: shard locks and taking all locks cannot deadlock. */
  lemma NoDeadlock(h: Hash<Edges>, run: seq<State>, n: nat, t: Tid) returns (u: Tid, a: Action, s': State)
    requires Run(h, run) && n < |run| && t < |run[n].pcs| && Busy(run[n].pcs[t])
    ensures Next(h, run[n], u, a, s') && u < |run[n].pcs| && Busy(run[n].pcs[u])
    ensures !a.TakeAll? && !a.BeginFind? && !a.Rehash? && !a.Reclaim?
  {
    RunInv(h, run, n);
    RunHolders(h, run, n);
    u := SomeReady(h, run[n], t);
    a, s' := ReadySteps(h, run[n], u);
  }

  /** A thread that holds all locks can rehash to any number of buckets the locks allow, which
      leaves the table as it is. */
  lemma CanRehash(h: Hash<Edges>, s: State, t: Tid, k: nat) returns (s': State)
    requires Inv(h, s) && t < |s.pcs| && s.pcs[t].Taking? && s.pcs[t].n == |s.locks| <= Pow2(k)
    ensures Next(h, s, t, Rehash(k), s') && |s'.buckets| == Pow2(k) && s'.table == s.table && s'.pcs == s.pcs
    ensures Holds(h, s'.buckets, s.table)
  {
    s' := s.(buckets := Relinked(h, s.buckets, Pow2(k)));
    RelinkedHolds(h, s.buckets, k, s.table);
  }

  /** And it can reclaim any content, which leaves all other content as it is. */
  lemma CanReclaim(h: Hash<Edges>, s: State, t: Tid, key: Edges) returns (a: Action, s': State)
    requires Inv(h, s) && t < |s.pcs| && s.pcs[t].Taking? && s.pcs[t].n == |s.locks| && key in s.table
    ensures a.Reclaim? && Next(h, s, t, a, s') && s'.table == s.table - {key} && s'.pcs == s.pcs
  {
    LockFacts(h, s, key);
    var i := BucketOf(h, s, key);
    if key !in ToMap(s.buckets[i]) { NotInChain(h, s.buckets, s.table, key); }
    ChainHas(s.buckets[i], key);
    var j :| 0 <= j < |s.buckets[i]| && s.buckets[i][j].0 == key;
    a, s' := Reclaim(i, j), Unlinked(s, i, j);
  }

  /** What a thread may begin, and when. */
  lemma CanBegin(h: Hash<Edges>, s: State, t: Tid, key: Edges)
    requires Inv(h, s) && t < |s.pcs|
    ensures Resumable(s.pcs[t]) ==> Next(h, s, t, TakeAll, s.(pcs := s.pcs[t := Taking(0, s.pcs[t])]))
    ensures s.pcs[t].Returned? ==> Next(h, s, t, Forget, s.(pcs := s.pcs[t := Idle]))
    ensures |s.locks| > 0 && LockOf(h, s, key) < |s.locks|
    ensures s.pcs[t].Idle? ==>
              ((exists s' :: Next(h, s, t, BeginFind(key), s')) <==> s.locks[LockOf(h, s, key)] == None)
  {
    LockFacts(h, s, key);
    if s.pcs[t].Idle? && s.locks[LockOf(h, s, key)] == None {
      assert Next(h, s, t, BeginFind(key),
                  s.(locks := s.locks[LockOf(h, s, key) := Some(t)], pcs := s.pcs[t := Finding(key, 0)]));
    }
  }

  // ---------------------------------------------------------------- a node swept while held

  lemma Extend(h: Hash<Edges>, run: seq<State>, t: Tid, a: Action, s': State) returns (more: seq<State>)
    requires Run(h, run) && Next(h, run[|run| - 1], t, a, s')
    ensures Run(h, more) && more == run + [s']
  {
    more := run + [s'];
    assert Steps(h, run[|run| - 1], s');
    forall i | 0 < i < |more| ensures StepAt(h, more, i) {
      if i < |run| { assert StepAt(h, run, i); }
    }
  }

  function Two(t: Tid, mine: Pc, other: Pc): (pcs: seq<Pc>)
    requires t < 2
  {
    if t == 0 then [mine, other] else [other, mine]
  }

  /** Thread t looks up content that is not in the table. */
  lemma LookRun(h: Hash<Edges>, run: seq<State>, t: Tid, other: Pc, key: Edges, used: set<Id>)
    returns (more: seq<State>)
    requires Run(h, run) && t < 2
    requires run[|run| - 1] == State([[]], [None], map[], used, Two(t, Idle, other))
    ensures Run(h, more) && |more| > |run| && more[..|run|] == run
    ensures more[|more| - 1] == State([[]], [None], map[], used, Two(t, Missed(key), other))
  {
    var s := run[|run| - 1];
    assert BucketOf(h, s, key) == 0 && LockOf(h, s, key) == 0;
    more := Extend(h, run, t, BeginFind(key), s.(locks := [Some(t)], pcs := Two(t, Finding(key, 0), other)));
    more := Extend(h, more, t, End, s.(pcs := Two(t, Missed(key), other)));
  }

  /** And once more, under the lock it keeps. */
  lemma CheckRun(h: Hash<Edges>, run: seq<State>, t: Tid, other: Pc, key: Edges, used: set<Id>)
    returns (more: seq<State>)
    requires Run(h, run) && t < 2
    requires run[|run| - 1] == State([[]], [None], map[], used, Two(t, Missed(key), other))
    ensures Run(h, more) && |more| == |run| + 2 && more[..|run|] == run
    ensures more[|more| - 1] == State([[]], [Some(t)], map[], used, Two(t, Linking(key), other))
  {
    var s := run[|run| - 1];
    assert BucketOf(h, s, key) == 0 && LockOf(h, s, key) == 0;
    more := Extend(h, run, t, Recheck, s.(locks := [Some(t)], pcs := Two(t, Checking(key, 0), other)));
    more := Extend(h, more, t, End, s.(locks := [Some(t)], pcs := Two(t, Linking(key), other)));
  }

  /** Thread t makes a node for content that is not in the table. */
  lemma MakeRun(h: Hash<Edges>, run: seq<State>, t: Tid, other: Pc, key: Edges, used: set<Id>, id: Id)
    returns (more: seq<State>)
    requires Run(h, run) && t < 2 && id !in used
    requires run[|run| - 1] == State([[]], [None], map[], used, Two(t, Idle, other))
    ensures Run(h, more) && |more| > |run| && more[..|run|] == run
    ensures more[|more| - 1] == State([[(key, id)]], [None], map[key := id], used + {id},
              Two(t, Returned(key, id), other))
    ensures ReturnsAt(more, |more| - 1, t, key, id)
  {
    var look := LookRun(h, run, t, other, key, used);
    more := LinkRun(h, look, t, other, key, used, id);
  }

  /** Thread t has missed; it looks again and links. */
  lemma LinkRun(h: Hash<Edges>, run: seq<State>, t: Tid, other: Pc, key: Edges, used: set<Id>, id: Id)
    returns (more: seq<State>)
    requires Run(h, run) && t < 2 && id !in used
    requires run[|run| - 1] == State([[]], [None], map[], used, Two(t, Missed(key), other))
    ensures Run(h, more) && |more| == |run| + 3 && more[..|run|] == run
    ensures more[|more| - 1] == State([[(key, id)]], [None], map[key := id], used + {id},
              Two(t, Returned(key, id), other))
    ensures ReturnsAt(more, |more| - 1, t, key, id)
  {
    var miss := CheckRun(h, run, t, other, key, used);
    var l := miss[|miss| - 1];
    var s' := State([[(key, id)]], [None], map[key := id], used + {id}, Two(t, Returned(key, id), other));
    assert Links(h, l, t, key, id, s') by {
      assert BucketOf(h, l, key) == 0 && LockOf(h, l, key) == 0 && [(key, id)] + [] == [(key, id)];
      assert Linked(h, l, key, id).table == map[key := id];
    }
    more := Extend(h, miss, t, Link(id), s');
  }

  /** Thread 1 has missed, but finds the content when it looks again. */
  lemma FoundRun(h: Hash<Edges>, run: seq<State>, other: Pc, key: Edges, id: Id) returns (more: seq<State>)
    requires Run(h, run)
    requires run[|run| - 1] == State([[(key, id)]], [None], map[key := id], {id}, [other, Missed(key)])
    ensures Run(h, more) && |more| == |run| + 2 && more[..|run|] == run
    ensures ReturnsAt(more, |more| - 1, 1, key, id)
  {
    var s := run[|run| - 1];
    assert BucketOf(h, s, key) == 0 && LockOf(h, s, key) == 0;
    more := Extend(h, run, 1, Recheck, s.(locks := [Some(1)], pcs := [other, Checking(key, 0)]));
    more := Extend(h, more, 1, Hit, s.(pcs := [other, Returned(key, id)]));
  }

  /** Thread 1 sweeps the only entry. */
  lemma SweepRun(h: Hash<Edges>, run: seq<State>, other: Pc, key: Edges, id: Id) returns (more: seq<State>)
    requires Run(h, run) && run[|run| - 1] == State([[(key, id)]], [None], map[key := id], {id}, [other, Idle])
    ensures Run(h, more) && |more| > |run| + 1 && more[..|run|] == run
    ensures more[|more| - 1] == State([[]], [None], map[], {id}, [other, Idle])
  {
    var s := run[|run| - 1];
    more := Extend(h, run, 1, TakeAll, s.(pcs := [other, Taking(0, Idle)]));
    var held := s.(locks := [Some(1)], pcs := [other, Taking(1, Idle)]);
    more := Extend(h, more, 1, TakeOne, held);
    var swept := SweptOnly(held, other, key, id);
    more := Extend(h, more, 1, Reclaim(0, 0), swept);
    more := GiveRun(h, more, other, id);
  }

  lemma SweptOnly(held: State, other: Pc, key: Edges, id: Id) returns (swept: State)
    requires held == State([[(key, id)]], [Some(1)], map[key := id], {id}, [other, Taking(1, Idle)])
    ensures swept == Unlinked(held, 0, 0) == State([[]], [Some(1)], map[], {id}, [other, Taking(1, Idle)])
  {
    swept := State([[]], [Some(1)], map[], {id}, [other, Taking(1, Idle)]);
    assert held.table - {key} == map[];
    assert held.buckets[0][..0] + held.buckets[0][1..] == [];
  }

  lemma GiveRun(h: Hash<Edges>, run: seq<State>, other: Pc, id: Id) returns (more: seq<State>)
    requires Run(h, run) && run[|run| - 1] == State([[]], [Some(1)], map[], {id}, [other, Taking(1, Idle)])
    ensures Run(h, more) && |more| == |run| + 3 && more[..|run|] == run
    ensures more[|more| - 1] == State([[]], [None], map[], {id}, [other, Idle])
  {
    var s := run[|run| - 1];
    more := Extend(h, run, 1, GiveAll, s.(pcs := [other, Giving(0, Idle)]));
    more := Extend(h, more, 1, GiveOne, s.(locks := [None], pcs := [other, Giving(1, Idle)]));
    more := Extend(h, more, 1, Resume, State([[]], [None], map[], {id}, [other, Idle]));
  }

  /** Nothing stops the sweep from taking a node that a thread has just been handed and not yet
      referenced: thread 0 still holds it when thread 1 is given another node of the same
      content. */
  lemma HeldNodeReplaced(h: Hash<Edges>, key: Edges) returns (run: seq<State>, m: nat, n: nat)
    ensures Run(h, run) && m <= n && ReturnsAt(run, m, 0, key, 2) && ReturnsAt(run, n, 1, key, 3)
    ensures n + 1 == |run| && run[n].pcs == [Returned(key, 2), Returned(key, 3)] && ReclaimedBetween(run, m, n, key)
  {
    var s0 := State([[]], [None], map[], {}, [Idle, Idle]);
    assert Sizes(s0) by { assert Pow2(0) == 1; }
    var r1 := MakeRun(h, [s0], 0, Idle, key, {}, 2);
    var r2 := SweepRun(h, r1, Returned(key, 2), key, 2);
    run := MakeRun(h, r2, 1, Returned(key, 2), key, {2}, 3);
    m, n := |r1| - 1, |run| - 1;
    assert run[m] == r1[m] && run[m - 1] == r1[m - 1];
    SameNodeIffNotReclaimed(h, run, m, n, 0, 1, key, 2, 3);
  }

  /** Two threads that have both missed the same content get the same node: the second finds, when
      it looks again under the lock, what the first has linked. */
  lemma BothMissedSameNode(h: Hash<Edges>, key: Edges) returns (run: seq<State>, m: nat, n: nat)
    ensures Run(h, run) && m < n && n + 1 == |run|
    ensures ReturnsAt(run, m, 0, key, 2) && ReturnsAt(run, n, 1, key, 2)
    ensures m >= 3 && run[m - 3].pcs == [Missed(key), Missed(key)]
  {
    var s0 := State([[]], [None], map[], {}, [Idle, Idle]);
    assert Sizes(s0) by { assert Pow2(0) == 1; }
    var r1 := LookRun(h, [s0], 0, Idle, key, {});
    var r2 := LookRun(h, r1, 1, Missed(key), key, {});
    var r3 := LinkRun(h, r2, 0, Missed(key), key, {}, 2);
    run := FoundRun(h, r3, Returned(key, 2), key, 2);
    m, n := |r3| - 1, |run| - 1;
    assert run[m] == r3[m] && run[m - 1] == r3[m - 1] && run[m - 3] == r3[m - 3] == r2[m - 3];
  }
}
