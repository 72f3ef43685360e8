/** One slot of an operation cache under concurrent look-ups, stores and clears: a writer locks
    the slot through its result word, a reader reads the result before and after the operands.
    A slot of the unary cache has one operand; its second word is always empty. */
module CacheProtocol {
  import opened Diagram

  type Tid = nat

  /** A shared word: empty, the writer's lock mark, or a node. */
  datatype Word = Null | LockMark | Node(id: Id)

  /** What one store or clear publishes. */
  datatype Publication = Publication(x: Word, y: Word, r: Word)

  datatype Pc =
    | Idle
    | Waiting(p: Publication)
    | WriteFirst(p: Publication)
    | WriteSecond(p: Publication)
    | Publish(p: Publication)
    | ReadResult(x: Word, y: Word)
    | ReadFirst(x: Word, y: Word, before: Word, ver: nat)
    | ReadSecond(x: Word, y: Word, before: Word, ver: nat, first: Word)
    | ReadAgain(x: Word, y: Word, before: Word, ver: nat, first: Word, second: Word)
    | Hit(x: Word, y: Word, r: Word, ver: nat)

  /** The slot, everything ever published in it, and the threads. */
  datatype State = State(x: Word, y: Word, r: Word, history: seq<Publication>, pcs: seq<Pc>)

  datatype Action = Store(p: Publication) | Clear | Lookup(x: Word, y: Word) | Proceed | Miss | Leave

  const Nothing: Publication := Publication(Null, Null, Null)

  /** Which cache the slot belongs to, and which operands come to it: those that hash to it, in
      the order in which callers pass them. */
  datatype Slot = Slot(unary: bool, here: (Word, Word) -> bool)

  /** Operands the slot is asked for. */
  predicate Operands(slot: Slot, x: Word, y: Word) {
    x.Node? && (if slot.unary then y == Null else y.Node?) && slot.here(x, y)
  }

  /** A result stored for operands. */
  predicate Proper(slot: Slot, p: Publication) { Operands(slot, p.x, p.y) && p.r.Node? }

  predicate Writing(pc: Pc) { pc.WriteFirst? || pc.WriteSecond? || pc.Publish? }

  function To(s: State, t: Tid, pc: Pc): State
    requires t < |s.pcs|
  {
    s.(pcs := s.pcs[t := pc])
  }

  /** The reader accepts: the result did not change and the operands are the ones asked for. */
  predicate Accepts(s: State, pc: Pc) {
    pc.ReadAgain? && s.r == pc.before && s.r.Node? && pc.first == pc.x && pc.second == pc.y
  }

  predicate Proceeds(slot: Slot, s: State, t: Tid, s': State)
    requires t < |s.pcs|
  {
    var pc := s.pcs[t];
    match pc
    case Waiting(p) => s.r != LockMark && s' == To(s, t, WriteFirst(p)).(r := LockMark)
    case WriteFirst(p) => s' == To(s, t, WriteSecond(p)).(x := p.x)
    case WriteSecond(p) => s' == To(s, t, Publish(p)).(y := p.y)
    case Publish(p) => s' == To(s, t, Idle).(r := p.r, history := s.history + [p])
    case ReadResult(x, y) => s.r.Node? && |s.history| > 0 && s' == To(s, t, ReadFirst(x, y, s.r, |s.history| - 1))
    case ReadFirst(x, y, before, ver) =>
      s' == To(s, t, if slot.unary then ReadAgain(x, y, before, ver, s.x, Null) else ReadSecond(x, y, before, ver, s.x))
    case ReadSecond(x, y, before, ver, first) => s' == To(s, t, ReadAgain(x, y, before, ver, first, s.y))
    case ReadAgain(x, y, before, ver, _, _) => Accepts(s, pc) && s' == To(s, t, Hit(x, y, s.r, ver))
    case _ => false
  }

  predicate Next(slot: Slot, s: State, t: Tid, a: Action, s': State) {
    && t < |s.pcs|
    && var pc := s.pcs[t];
       match a
       case Store(p) => Proper(slot, p) && pc.Idle? && s' == To(s, t, Waiting(p))
       case Clear => pc.Idle? && s' == To(s, t, Waiting(Nothing))
       case Lookup(x, y) => Operands(slot, x, y) && pc.Idle? && s' == To(s, t, ReadResult(x, y))
       case Leave => pc.Hit? && s' == To(s, t, Idle)
       case Miss => ((pc.ReadResult? && !s.r.Node?) || (pc.ReadAgain? && !Accepts(s, pc))) && s' == To(s, t, Idle)
       case Proceed => Proceeds(slot, s, t, s')
  }

  // ---------------------------------------------------------------- invariant

  function Last(s: State): Publication
    requires |s.history| > 0
  {
    s.history[|s.history| - 1]
  }

  /** No store has come in since version ver, and none is under way. */
  predicate Untouched(s: State, ver: nat) {
    s.r != LockMark && ver + 1 == |s.history|
  }

  predicate ReadOk(s: State, before: Word, ver: nat) {
    before.Node? && ver < |s.history| && s.history[ver].r == before
  }

  /** What may be published: a stored result, or nothing. */
  predicate Publishable(slot: Slot, p: Publication) { Proper(slot, p) || p == Nothing }

  /** What a thread may rely on. A reader that has not been overtaken has read the slot. */
  predicate PcOk(slot: Slot, s: State, pc: Pc) {
    match pc
    case Idle => true
    case Waiting(p) => Publishable(slot, p)
    case WriteFirst(p) => s.r == LockMark && Publishable(slot, p)
    case WriteSecond(p) => s.r == LockMark && Publishable(slot, p) && s.x == p.x
    case Publish(p) => s.r == LockMark && Publishable(slot, p) && s.x == p.x && s.y == p.y
    case ReadResult(_, _) => true
    case ReadFirst(_, _, before, ver) => ReadOk(s, before, ver)
    case ReadSecond(_, _, before, ver, first) => ReadOk(s, before, ver) && (Untouched(s, ver) ==> first == s.x)
    case ReadAgain(_, _, before, ver, first, second) =>
      ReadOk(s, before, ver) && (Untouched(s, ver) ==> first == s.x && second == s.y)
    case Hit(_, _, r, ver) => ReadOk(s, r, ver)
  }

  ghost predicate Inv(slot: Slot, s: State) {
    && |s.history| > 0 && (slot.unary ==> s.y == Null)
    && (s.r != LockMark ==> Publication(s.x, s.y, s.r) == Last(s))
    && (forall t {:trigger PcOk(slot, s, s.pcs[t])} :: 0 <= t < |s.pcs| ==> PcOk(slot, s, s.pcs[t]))
    && (forall t, u {:trigger Writing(s.pcs[t]), Writing(s.pcs[u])} ::
          0 <= t < |s.pcs| && 0 <= u < |s.pcs| && Writing(s.pcs[t]) && Writing(s.pcs[u]) ==> t == u)
    && (s.r == LockMark ==> exists t :: 0 <= t < |s.pcs| && Writing(s.pcs[t]))
  }

  /** Other threads' facts when t writes: they are not writing, and a reader has been overtaken. */
  lemma PcOkWrite(slot: Slot, s: State, s': State, pc: Pc)
    requires PcOk(slot, s, pc) && !Writing(pc) && |s.history| > 0 && s.history <= s'.history
    requires s'.r == LockMark || |s'.history| > |s.history|
    ensures PcOk(slot, s', pc)
  {
    assert forall k :: 0 <= k < |s.history| ==> s'.history[k] == s.history[k];
  }

  /** A step of t that does not touch the slot. */
  lemma QuietStep(slot: Slot, s: State, t: Tid, pc: Pc)
    requires Inv(slot, s) && t < |s.pcs| && PcOk(slot, s, pc) && !Writing(pc) && !Writing(s.pcs[t])
    ensures Inv(slot, To(s, t, pc))
  {
    var s' := To(s, t, pc);
    forall u | 0 <= u < |s'.pcs| ensures PcOk(slot, s', s'.pcs[u]) {
      if u != t { assert PcOk(slot, s, s.pcs[u]); }
    }
    if s'.r == LockMark {
      var u :| 0 <= u < |s.pcs| && Writing(s.pcs[u]);
      assert Writing(s'.pcs[u]);
    }
    forall u, w | 0 <= u < |s'.pcs| && 0 <= w < |s'.pcs| && Writing(s'.pcs[u]) && Writing(s'.pcs[w]) ensures u == w {
      assert Writing(s.pcs[u]) && Writing(s.pcs[w]);
    }
  }

  /** A writer's step: it is alone, and stays alone until it has published. */
  lemma WriterStep(slot: Slot, s: State, t: Tid, s': State)
    requires Inv(slot, s) && Next(slot, s, t, Proceed, s') && (s.pcs[t].Waiting? || Writing(s.pcs[t]))
    ensures Inv(slot, s')
  {
    assert PcOk(slot, s, s.pcs[t]);
    assert forall u :: 0 <= u < |s.pcs| && u != t ==> s'.pcs[u] == s.pcs[u];
    assert Writing(s.pcs[t]) || s.r != LockMark;
    forall u | 0 <= u < |s.pcs| && u != t ensures !Writing(s.pcs[u]) {
      assert PcOk(slot, s, s.pcs[u]);
    }
    forall u | 0 <= u < |s'.pcs| ensures PcOk(slot, s', s'.pcs[u]) {
      if u != t {
        assert PcOk(slot, s, s.pcs[u]);
        PcOkWrite(slot, s, s', s.pcs[u]);
      }
    }
    if s'.r == LockMark { assert Writing(s'.pcs[t]); }
  }

  lemma StepKeepsInv(slot: Slot, s: State, t: Tid, a: Action, s': State)
    requires Inv(slot, s) && Next(slot, s, t, a, s')
    ensures Inv(slot, s')
  {
    var pc := s.pcs[t];
    assert PcOk(slot, s, pc);
    if a.Proceed? && (pc.Waiting? || Writing(pc)) {
      WriterStep(slot, s, t, s');
    } else {
      QuietStep(slot, s, t, s'.pcs[t]);
    }
  }

  // ---------------------------------------------------------------- whole runs

  predicate Initial(s: State) {
    && s.x == s.y == s.r == Null && s.history == [Nothing]
    && forall t :: 0 <= t < |s.pcs| ==> s.pcs[t] == Idle
  }

  /** A step that stores nothing but what p holds. */
  ghost predicate Steps(slot: Slot, p: iset<Publication>, s: State, s': State) {
    exists t, a :: Next(slot, s, t, a, s') && (a.Store? ==> a.p in p)
  }

  ghost predicate StepAt(slot: Slot, p: iset<Publication>, run: seq<State>, i: nat)
    requires 0 < i < |run|
  {
    Steps(slot, p, run[i - 1], run[i])
  }

  /** A run whose stores come from p. */
  ghost predicate Run(slot: Slot, p: iset<Publication>, run: seq<State>) {
    && |run| > 0 && Initial(run[0])
    && forall i {:trigger StepAt(slot, p, run, i)} :: 0 < i < |run| ==> StepAt(slot, p, run, i)
  }

  lemma {:induction false} RunInv(slot: Slot, p: iset<Publication>, run: seq<State>, n: nat)
    requires Run(slot, p, run) && n < |run|
    ensures Inv(slot, run[n])
  {
    if n == 0 {
      forall t | 0 <= t < |run[0].pcs| ensures PcOk(slot, run[0], run[0].pcs[t]) {}
    } else {
      RunInv(slot, p, run, n - 1);
      var s, s' := run[n - 1], run[n];
      assert StepAt(slot, p, run, n);
      var t, a :| Next(slot, s, t, a, s') && (a.Store? ==> a.p in p);
      StepKeepsInv(slot, s, t, a, s');
    }
  }

  /** Two writers are never at work on the slot together. */
  lemma WritersExclusive(slot: Slot, p: iset<Publication>, run: seq<State>, n: nat, t: Tid, u: Tid)
    requires Run(slot, p, run) && n < |run| && t < |run[n].pcs| && u < |run[n].pcs|
    requires Writing(run[n].pcs[t]) && Writing(run[n].pcs[u])
    ensures t == u
  {
    RunInv(slot, p, run, n);
  }

  /** Since version ver, no store has published the result the reader saw first. */
  predicate NotRepublished(s: State, ver: nat, r: Word) {
    forall k :: ver < k < |s.history| ==> s.history[k].r != r
  }

  /** A reader that accepts got operands and result from one store, provided its result was
      not published again between its two reads of the result. */
  lemma HitIsOneStore(slot: Slot, p: iset<Publication>, run: seq<State>, n: nat, t: Tid)
    requires Run(slot, p, run) && n < |run| && t < |run[n].pcs| && Accepts(run[n], run[n].pcs[t])
    requires NotRepublished(run[n], run[n].pcs[t].ver, run[n].pcs[t].before)
    ensures |run[n].history| > 0 && Answer(run[n].pcs[t]) == Last(run[n])
  {
    RunInv(slot, p, run, n);
    HitFromInv(slot, run[n], run[n].pcs[t], t);
  }

  /** What a reader about to accept would return, with the operands it was asked for. */
  function Answer(pc: Pc): Publication
    requires pc.ReadAgain?
  {
    Publication(pc.x, pc.y, pc.before)
  }

  lemma HitFromInv(slot: Slot, s: State, pc: Pc, t: Tid)
    requires Inv(slot, s) && t < |s.pcs| && s.pcs[t] == pc && Accepts(s, pc) && NotRepublished(s, pc.ver, pc.before)
    ensures Answer(pc) == Last(s)
  {
    assert PcOk(slot, s, pc);
    assert Last(s).r == pc.before;
  }

  // ---------------------------------------------------------------- progress

  /** A thread at work is held up only by another that has locked the slot, and only before it
      writes. */
  lemma CanStep(slot: Slot, s: State, t: Tid) returns (a: Action, s': State)
    requires t < |s.pcs| && Inv(slot, s) && !s.pcs[t].Idle? && (s.pcs[t].Waiting? ==> s.r != LockMark)
    ensures Next(slot, s, t, a, s') && !a.Store? && !a.Clear? && !a.Lookup? && Ahead(s'.pcs[t]) < Ahead(s.pcs[t])
  {
    var pc := s.pcs[t];
    a := Proceed;
    match pc
    case Waiting(p) => s' := To(s, t, WriteFirst(p)).(r := LockMark);
    case WriteFirst(p) => s' := To(s, t, WriteSecond(p)).(x := p.x);
    case WriteSecond(p) => s' := To(s, t, Publish(p)).(y := p.y);
    case Publish(p) => s' := To(s, t, Idle).(r := p.r, history := s.history + [p]);
    case ReadResult(x, y) =>
      if s.r.Node? {
        s' := To(s, t, ReadFirst(x, y, s.r, |s.history| - 1));
      } else {
        a, s' := Miss, To(s, t, Idle);
      }
    case ReadFirst(x, y, before, ver) =>
      s' := To(s, t, if slot.unary then ReadAgain(x, y, before, ver, s.x, Null)
                     else ReadSecond(x, y, before, ver, s.x));
    case ReadSecond(x, y, before, ver, first) => s' := To(s, t, ReadAgain(x, y, before, ver, first, s.y));
    case ReadAgain(x, y, before, ver, _, _) =>
      if Accepts(s, pc) {
        s' := To(s, t, Hit(x, y, s.r, ver));
      } else {
        a, s' := Miss, To(s, t, Idle);
      }
    case Hit(_, _, _, _) => a, s' := Leave, To(s, t, Idle);
  }

  /** And the slot decides what that step is: a look-up that finds the result unchanged and the
      operands it asked for hits, and only such a look-up does. */
  lemma StepsAgree(slot: Slot, s: State, t: Tid, a: Action, s': State, b: Action, s'': State)
    requires Next(slot, s, t, a, s') && Next(slot, s, t, b, s'') && !s.pcs[t].Idle?
    ensures s' == s'' && (s.pcs[t].ReadAgain? ==> (s'.pcs[t].Hit? <==> Accepts(s, s.pcs[t])))
  {}

  /** Steps a thread still has to make at most. */
  function Ahead(pc: Pc): nat {
    match pc
    case Idle => 0
    case Waiting(_) => 4
    case WriteFirst(_) => 3
    case WriteSecond(_) => 2
    case Publish(_) => 1
    case ReadResult(_, _) => 5
    case ReadFirst(_, _, _, _) => 4
    case ReadSecond(_, _, _, _, _) => 3
    case ReadAgain(_, _, _, _, _, _) => 2
    case Hit(_, _, _, _) => 1
  }

  // ---------------------------------------------------------------- clears

  /** Step i is thread t's, and it does action a. */
  ghost predicate Does(slot: Slot, run: seq<State>, i: nat, t: Tid, a: Action) {
    0 < i < |run| && Next(slot, run[i - 1], t, a, run[i])
  }

  /** One step keeps what has been published, and adds at most one publication. */
  lemma HistoryStep(slot: Slot, s: State, t: Tid, a: Action, s': State)
    requires Next(slot, s, t, a, s')
    ensures |s'.pcs| == |s.pcs| && s.history <= s'.history && |s'.history| <= |s.history| + 1
    ensures forall u :: 0 <= u < |s.pcs| && u != t ==> s'.pcs[u] == s.pcs[u]
  {}

  lemma {:induction false} HistoryGrows(slot: Slot, p: iset<Publication>, run: seq<State>, m: nat, n: nat)
    requires Run(slot, p, run) && m <= n < |run|
    ensures |run[n].pcs| == |run[m].pcs| && run[m].history <= run[n].history
    decreases n
  {
    if m < n {
      HistoryGrows(slot, p, run, m, n - 1);
      assert StepAt(slot, p, run, n);
      var t, a :| Next(slot, run[n - 1], t, a, run[n]) && (a.Store? ==> a.p in p);
      HistoryStep(slot, run[n - 1], t, a, run[n]);
    }
  }

  /** Where a thread that has begun to clear is, with h the history when it began: it is still at
      it, or an empty publication has been made since. */
  ghost predicate Clearing(h: nat, s: State, t: Tid) {
    && t < |s.pcs| && h <= |s.history|
    && (s.pcs[t] in {Waiting(Nothing), WriteFirst(Nothing), WriteSecond(Nothing), Publish(Nothing)} || Emptied(h, s))
  }

  ghost predicate Emptied(h: nat, s: State) { exists k :: h <= k < |s.history| && s.history[k] == Nothing }

  lemma ClearingStep(slot: Slot, h: nat, s: State, t: Tid, u: Tid, a: Action, s': State)
    requires Clearing(h, s, t) && Next(slot, s, u, a, s')
    ensures Clearing(h, s', t)
  {
    HistoryStep(slot, s, u, a, s');
    if Emptied(h, s) {
      var k :| h <= k < |s.history| && s.history[k] == Nothing;
      assert s'.history[k] == Nothing;
    } else if u == t && s.pcs[t] == Publish(Nothing) {
      assert s'.history[|s.history|] == Nothing;
    }
  }

  lemma {:induction false} StaysClearing(slot: Slot, p: iset<Publication>, run: seq<State>, i: nat, t: Tid, j: nat)
    requires Run(slot, p, run) && Does(slot, run, i, t, Clear) && i <= j < |run|
    ensures Clearing(|run[i].history|, run[j], t)
    decreases j
  {
    if i < j {
      StaysClearing(slot, p, run, i, t, j - 1);
      assert StepAt(slot, p, run, j);
      var u, a :| Next(slot, run[j - 1], u, a, run[j]) && (a.Store? ==> a.p in p);
      ClearingStep(slot, |run[i].history|, run[j - 1], t, u, a, run[j]);
    }
  }

  /** A clear that is over has emptied the slot at some moment since it began. */
  lemma ClearEmpties(slot: Slot, p: iset<Publication>, run: seq<State>, i: nat, t: Tid, j: nat)
    requires Run(slot, p, run) && Does(slot, run, i, t, Clear) && i <= j < |run|
    requires t < |run[j].pcs| && run[j].pcs[t].Idle?
    ensures Emptied(|run[i].history|, run[j])
  {
    StaysClearing(slot, p, run, i, t, j);
  }

  predicate Reading(pc: Pc) { pc.ReadFirst? || pc.ReadSecond? || pc.ReadAgain? }

  /** Thread u's look-up makes its first read of the result at step m and is still at work in
      state n. */
  ghost predicate LooksUp(run: seq<State>, u: Tid, m: nat, n: nat) {
    && 0 < m <= n < |run|
    && (forall i :: 0 <= i < |run| ==> u < |run[i].pcs|)
    && run[m - 1].pcs[u].ReadResult? && (forall i :: m <= i <= n ==> Reading(run[i].pcs[u]))
  }

  /** The version a reader notes is the last publication at its first read. */
  lemma {:induction false} NotedVersion(slot: Slot, p: iset<Publication>, run: seq<State>, u: Tid, m: nat, n: nat)
    requires Run(slot, p, run) && LooksUp(run, u, m, n)
    ensures run[n].pcs[u].ver + 1 == |run[m].history|
    decreases n
  {
    assert StepAt(slot, p, run, n);
    var t, a :| Next(slot, run[n - 1], t, a, run[n]) && (a.Store? ==> a.p in p);
    HistoryStep(slot, run[n - 1], t, a, run[n]);
    if m < n { NotedVersion(slot, p, run, u, m, n - 1); }
  }

  /** A look-up that begins after a clear is over and hits returns a result that a store has
      published since the clear began. */
  lemma HitAfterClear(slot: Slot, p: iset<Publication>, run: seq<State>, i: nat, t: Tid, j: nat, u: Tid, m: nat, n: nat)
    requires Run(slot, p, run) && Does(slot, run, i, t, Clear) && i <= j < |run|
    requires t < |run[j].pcs| && run[j].pcs[t].Idle?
    requires j < m && LooksUp(run, u, m, n) && Accepted(run, n, u)
    ensures exists c, k :: |run[i].history| <= c < k < |run[n].history| && run[n].history[c] == Nothing
                           && run[n].history[k] != Nothing && run[n].history[k].r == Answer(run[n].pcs[u]).r
  {
    ClearEmpties(slot, p, run, i, t, j);
    var c :| |run[i].history| <= c < |run[j].history| && run[j].history[c] == Nothing;
    HistoryGrows(slot, p, run, j, m);
    HistoryGrows(slot, p, run, m, n);
    NotedVersion(slot, p, run, u, m, n);
    RunInv(slot, p, run, n);
    var pc := run[n].pcs[u];
    assert PcOk(slot, run[n], pc);
    assert run[n].history[c] == Nothing && c <= pc.ver;
    assert run[n].history[pc.ver].r == pc.before;
  }

  /** So with no store published since, it misses. */
  lemma MissAfterClear(slot: Slot, p: iset<Publication>, run: seq<State>, i: nat, t: Tid, j: nat, u: Tid, m: nat,
                       n: nat)
    requires Run(slot, p, run) && Does(slot, run, i, t, Clear) && i <= j < |run|
    requires t < |run[j].pcs| && run[j].pcs[t].Idle?
    requires j < m && LooksUp(run, u, m, n)
    requires forall k :: |run[i].history| <= k < |run[n].history| ==> run[n].history[k] == Nothing
    ensures !Accepted(run, n, u)
  {
    if Accepted(run, n, u) { HitAfterClear(slot, p, run, i, t, j, u, m, n); }
  }

  // ---------------------------------------------------------------- when every hit is right

  /** Mixing the first operand of one store, the second of another and the result of a third
      gives nothing but right answers, as far as the mixed operands come to this slot. */
  ghost predicate Mixed(slot: Slot, p: iset<Publication>, right: iset<Publication>) {
    forall a, b, c {:trigger Mix(a, b, c)} ::
      a in p && b in p && c in p && slot.here(a.x, b.y) ==> Mix(a, b, c) in right
  }

  function Mix(a: Publication, b: Publication, c: Publication): Publication { Publication(a.x, b.y, c.r) }

  /** Every answer of every run that stores from p is right. */
  ghost predicate Sound(slot: Slot, p: iset<Publication>, right: iset<Publication>) {
    forall run: seq<State>, n: nat, t: Tid {:trigger Run(slot, p, run), Accepted(run, n, t)} ::
      Run(slot, p, run) && Accepted(run, n, t) ==> Answer(run[n].pcs[t]) in right
  }

  predicate Accepted(run: seq<State>, n: nat, t: Tid) {
    n < |run| && t < |run[n].pcs| && Accepts(run[n], run[n].pcs[t])
  }

  ghost predicate FirstFrom(p: iset<Publication>, x: Word) { x == Null || exists a :: a in p && a.x == x }

  ghost predicate SecondFrom(p: iset<Publication>, y: Word) { y == Null || exists a :: a in p && a.y == y }

  ghost predicate ResultFrom(p: iset<Publication>, r: Word) { r.Node? ==> exists a :: a in p && a.r == r }

  /** Every word a thread has at hand was stored from p, and it looks for proper operands. */
  ghost predicate PcFrom(slot: Slot, p: iset<Publication>, pc: Pc) {
    match pc
    case Waiting(q) => q in p || q == Nothing
    case WriteFirst(q) => q in p || q == Nothing
    case WriteSecond(q) => q in p || q == Nothing
    case Publish(q) => q in p || q == Nothing
    case ReadResult(x, y) => Operands(slot, x, y)
    case ReadFirst(x, y, before, _) => Operands(slot, x, y) && ResultFrom(p, before)
    case ReadSecond(x, y, before, _, first) => Operands(slot, x, y) && ResultFrom(p, before) && FirstFrom(p, first)
    case ReadAgain(x, y, before, _, first, second) =>
      Operands(slot, x, y) && ResultFrom(p, before) && FirstFrom(p, first) && SecondFrom(p, second)
    case _ => true
  }

  ghost predicate From(slot: Slot, p: iset<Publication>, s: State) {
    && FirstFrom(p, s.x) && SecondFrom(p, s.y) && ResultFrom(p, s.r)
    && forall t {:trigger PcFrom(slot, p, s.pcs[t])} :: 0 <= t < |s.pcs| ==> PcFrom(slot, p, s.pcs[t])
  }

  lemma StepKeepsFrom(slot: Slot, p: iset<Publication>, s: State, t: Tid, a: Action, s': State)
    requires From(slot, p, s) && Next(slot, s, t, a, s') && (a.Store? ==> a.p in p)
    ensures From(slot, p, s')
  {
    assert PcFrom(slot, p, s.pcs[t]);
    forall u | 0 <= u < |s'.pcs| ensures PcFrom(slot, p, s'.pcs[u]) {
      if u != t { assert PcFrom(slot, p, s.pcs[u]); }
    }
  }

  lemma {:induction false} RunFrom(slot: Slot, p: iset<Publication>, run: seq<State>, n: nat)
    requires Run(slot, p, run) && n < |run|
    ensures From(slot, p, run[n])
  {
    if n == 0 {
      forall t | 0 <= t < |run[0].pcs| ensures PcFrom(slot, p, run[0].pcs[t]) {}
    } else {
      RunFrom(slot, p, run, n - 1);
      var s, s' := run[n - 1], run[n];
      assert StepAt(slot, p, run, n);
      var t, a :| Next(slot, s, t, a, s') && (a.Store? ==> a.p in p);
      StepKeepsFrom(slot, p, s, t, a, s');
    }
  }

  ghost predicate AllProper(slot: Slot, p: iset<Publication>) {
    forall q :: q in p ==> Proper(slot, q)
  }

  lemma MixedIsSound(slot: Slot, p: iset<Publication>, right: iset<Publication>, run: seq<State>, n: nat, t: Tid)
    requires AllProper(slot, p) && Mixed(slot, p, right) && Run(slot, p, run) && Accepted(run, n, t)
    ensures Answer(run[n].pcs[t]) in right
  {
    RunFrom(slot, p, run, n);
    var pc := run[n].pcs[t];
    assert PcFrom(slot, p, pc);
    var a :| a in p && a.x == pc.x;
    var c :| c in p && c.r == pc.before;
    var b :| b in p && (if slot.unary then b == a else b.y == pc.y);
    assert Mix(a, b, c) == Answer(pc);
  }

  // ---------------------------------------------------------------- and when not

  lemma Extend(slot: Slot, p: iset<Publication>, run: seq<State>, t: Tid, a: Action, s': State)
    returns (more: seq<State>)
    requires Run(slot, p, run) && Next(slot, run[|run| - 1], t, a, s') && (a.Store? ==> a.p in p)
    ensures Run(slot, p, more) && more == run + [s']
  {
    more := run + [s'];
    assert Steps(slot, p, run[|run| - 1], s');
    forall i | 0 < i < |more| ensures StepAt(slot, p, more, i) {
      if i < |run| { assert StepAt(slot, p, run, i); }
    }
  }

  /** The slot with q published and thread 1 idle. */
  predicate Rests(s: State, q: Publication, reader: Pc) {
    s.x == q.x && s.y == q.y && s.r == q.r && s.pcs == [reader, Idle]
  }

  /** Thread 1 stores q from p. */
  lemma StoreRun(slot: Slot, p: iset<Publication>, run: seq<State>, q: Publication) returns (more: seq<State>)
    requires Run(slot, p, run) && q in p && Proper(slot, q)
    requires |run[|run| - 1].pcs| == 2 && run[|run| - 1].pcs[1] == Idle && run[|run| - 1].r != LockMark
    ensures Run(slot, p, more) && Rests(more[|more| - 1], q, run[|run| - 1].pcs[0])
    ensures more[|more| - 1].history == run[|run| - 1].history + [q]
  {
    var s := run[|run| - 1];
    more := Extend(slot, p, run, 1, Store(q), To(s, 1, Waiting(q)));
    var s1 := To(s, 1, WriteFirst(q)).(r := LockMark);
    more := Extend(slot, p, more, 1, Proceed, s1);
    var s2 := To(s1, 1, WriteSecond(q)).(x := q.x);
    more := Extend(slot, p, more, 1, Proceed, s2);
    var s3 := To(s2, 1, Publish(q)).(y := q.y);
    more := Extend(slot, p, more, 1, Proceed, s3);
    more := Extend(slot, p, more, 1, Proceed, To(s3, 1, Idle).(r := q.r, history := s.history + [q]));
  }

  /** Publish c, let the reader see its result, publish a, let it read the first operand. */
  lemma MixStart(slot: Slot, p: iset<Publication>, a: Publication, c: Publication, y: Word)
    returns (run: seq<State>, ver: nat)
    requires a in p && c in p && Proper(slot, a) && Proper(slot, c) && Operands(slot, a.x, y)
    ensures Run(slot, p, run)
    ensures Rests(run[|run| - 1], a,
                  if slot.unary then ReadAgain(a.x, y, c.r, ver, a.x, Null) else ReadSecond(a.x, y, c.r, ver, a.x))
  {
    var s0 := State(Null, Null, Null, [Nothing], [Idle, Idle]);
    run := StoreRun(slot, p, [s0], c);
    var s1 := run[|run| - 1];
    ver := |s1.history| - 1;
    run := Extend(slot, p, run, 0, Lookup(a.x, y), To(s1, 0, ReadResult(a.x, y)));
    run := Extend(slot, p, run, 0, Proceed, To(s1, 0, ReadFirst(a.x, y, c.r, ver)));
    run := StoreRun(slot, p, run, a);
    var s2 := run[|run| - 1];
    var pc := if slot.unary then ReadAgain(a.x, y, c.r, ver, a.x, Null) else ReadSecond(a.x, y, c.r, ver, a.x);
    run := Extend(slot, p, run, 0, Proceed, To(s2, 0, pc));
  }

  /** For any three stores there is a run in which a look-up of the first operand of one and the
      second of another hits with the result of the third, if that look-up comes to this slot. */
  lemma MixedHit(slot: Slot, p: iset<Publication>, a: Publication, b: Publication, c: Publication)
    returns (run: seq<State>, n: nat)
    requires a in p && b in p && c in p && AllProper(slot, p) && slot.here(a.x, b.y)
    ensures Run(slot, p, run) && Accepted(run, n, 0) && Answer(run[n].pcs[0]) == Mix(a, b, c)
  {
    var ver;
    run, ver := MixStart(slot, p, a, c, b.y);
    if !slot.unary {
      run := StoreRun(slot, p, run, b);
      var s := run[|run| - 1];
      run := Extend(slot, p, run, 0, Proceed, To(s, 0, ReadAgain(a.x, b.y, c.r, ver, a.x, b.y)));
    }
    run := StoreRun(slot, p, run, c);
    n := |run| - 1;
  }

  /** Every hit of every run that stores from p is right exactly when every mixture of stores of p
      that can be asked for here is. */
  lemma SoundIffMixed(slot: Slot, p: iset<Publication>, right: iset<Publication>)
    requires AllProper(slot, p)
    ensures Sound(slot, p, right) <==> Mixed(slot, p, right)
  {
    if Mixed(slot, p, right) {
      forall run: seq<State>, n: nat, t: Tid | Run(slot, p, run) && Accepted(run, n, t)
        ensures Answer(run[n].pcs[t]) in right
      {
        MixedIsSound(slot, p, right, run, n, t);
      }
    }
    if Sound(slot, p, right) {
      forall a, b, c | a in p && b in p && c in p && slot.here(a.x, b.y) ensures Mix(a, b, c) in right {
        var run, n := MixedHit(slot, p, a, b, c);
      }
    }
  }

  // ---------------------------------------------------------------- caches of an operation

  /** The right answers of an operation on nodes. */
  ghost function RightFor(op: (Word, Word) -> Word): iset<Publication> {
    iset q: Publication | q.r == op(q.x, q.y)
  }

  ghost predicate OneResult(p: iset<Publication>) {
    forall a, b :: a in p && b in p ==> a.r == b.r
  }

  /** A slot of the unary cache that stores right answers gives right answers only exactly when
      all its stores have the same result. */
  lemma UnarySoundIff(slot: Slot, p: iset<Publication>, op: (Word, Word) -> Word)
    requires slot.unary && AllProper(slot, p) && p <= RightFor(op)
    ensures Sound(slot, p, RightFor(op)) <==> OneResult(p)
  {
    SoundIffMixed(slot, p, RightFor(op));
    if Mixed(slot, p, RightFor(op)) { MixedOneResult(slot, p, op); }
    if OneResult(p) {
      forall a, b, c | a in p && b in p && c in p ensures Mix(a, b, c) in RightFor(op) { assert Mix(a, b, c) == a; }
    }
  }

  lemma MixedOneResult(slot: Slot, p: iset<Publication>, op: (Word, Word) -> Word)
    requires AllProper(slot, p) && p <= RightFor(op) && Mixed(slot, p, RightFor(op))
    ensures OneResult(p)
  {
    forall a, b | a in p && b in p ensures a.r == b.r { assert Mix(a, a, b) in RightFor(op); }
  }

  /** Operands of two stores, mixed, do not come to this slot or have the stores' result too. */
  ghost predicate PairsAgree(slot: Slot, p: iset<Publication>, op: (Word, Word) -> Word) {
    forall a, b :: a in p && b in p && slot.here(a.x, b.y) ==> op(a.x, b.y) == a.r
  }

  /** A slot of a binary cache that stores right answers gives right answers only exactly when,
      besides, mixed operand pairs come to other slots or have that result as well. */
  lemma BinarySoundIff(slot: Slot, p: iset<Publication>, op: (Word, Word) -> Word)
    requires !slot.unary && AllProper(slot, p) && p <= RightFor(op)
    ensures Sound(slot, p, RightFor(op)) <==> OneResult(p) && PairsAgree(slot, p, op)
  {
    SoundIffMixed(slot, p, RightFor(op));
    if Mixed(slot, p, RightFor(op)) {
      MixedOneResult(slot, p, op);
      forall a, b | a in p && b in p && slot.here(a.x, b.y) ensures op(a.x, b.y) == a.r {
        assert Mix(a, b, a) in RightFor(op);
      }
    }
    if OneResult(p) && PairsAgree(slot, p, op) {
      forall a, b, c | a in p && b in p && c in p && slot.here(a.x, b.y) ensures Mix(a, b, c) in RightFor(op) {
        assert c.r == a.r;
      }
    }
  }

  /** Thread 1 clears the slot. */
  lemma ClearRun(slot: Slot, p: iset<Publication>, run: seq<State>) returns (more: seq<State>)
    requires Run(slot, p, run) && |run[|run| - 1].pcs| == 2 && run[|run| - 1].pcs[1] == Idle
    requires run[|run| - 1].r != LockMark
    ensures Run(slot, p, more) && |more| == |run| + 5 && more[..|run|] == run && Does(slot, more, |run|, 1, Clear)
    ensures Rests(more[|more| - 1], Nothing, run[|run| - 1].pcs[0])
  {
    var s := run[|run| - 1];
    more := Extend(slot, p, run, 1, Clear, To(s, 1, Waiting(Nothing)));
    var s1 := To(s, 1, WriteFirst(Nothing)).(r := LockMark);
    more := Extend(slot, p, more, 1, Proceed, s1);
    var s2 := To(s1, 1, WriteSecond(Nothing)).(x := Null);
    more := Extend(slot, p, more, 1, Proceed, s2);
    var s3 := To(s2, 1, Publish(Nothing)).(y := Null);
    more := Extend(slot, p, more, 1, Proceed, s3);
    more := Extend(slot, p, more, 1, Proceed, To(s3, 1, Idle).(r := Null, history := s.history + [Nothing]));
  }

  /** A run in which a result is stored, the slot is cleared, and the look-up that follows finds
      nothing. */
  lemma ClearedMiss(slot: Slot, p: iset<Publication>, q: Publication) returns (run: seq<State>, i: nat)
    requires q in p && Proper(slot, q)
    ensures Run(slot, p, run) && Does(slot, run, i, 1, Clear) && i + 6 < |run|
    ensures Rests(run[i - 1], q, Idle) && Does(slot, run, |run| - 1, 0, Miss)
    ensures run[|run| - 2].pcs[0] == ReadResult(q.x, q.y)
  {
    var s0 := State(Null, Null, Null, [Nothing], [Idle, Idle]);
    var stored := StoreRun(slot, p, [s0], q);
    i := |stored|;
    var cleared := ClearRun(slot, p, stored);
    var s := cleared[|cleared| - 1];
    var asked := Extend(slot, p, cleared, 0, Lookup(q.x, q.y), To(s, 0, ReadResult(q.x, q.y)));
    run := Extend(slot, p, asked, 0, Miss, To(s, 0, Idle));
    assert run[i] == cleared[i] && run[i - 1] == cleared[i - 1] == stored[i - 1];
  }
}
