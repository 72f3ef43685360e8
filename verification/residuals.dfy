/** Residual labels shrunk by concurrent tasks. A task masks its intersection out of shared
    labels with load and compare-and-swap; whatever the interleaving, each label ends up
    without the regions of all tasks that touch it. */
module Residuals {
  import opened Labels
  import opened Diagram

  /** The work at hand: which shared labels each task visits, and what it masks out of them. */
  datatype Work<T(!new, ==), C(!new, ==)> = Work(init: map<C, Label>, path: map<T, seq<C>>, mask: map<T, Label>)

  /** A task at step n of its path, possibly with a label it has loaded and not yet replaced. */
  datatype Pc = Ready(n: nat) | Loaded(n: nat, expected: Label)

  datatype State<T(!new, ==), C(!new, ==)> = State(cells: map<C, Label>, pcs: map<T, Pc>)

  ghost predicate WorkOk<T(!new), C(!new)>(w: Work<T, C>) {
    && w.path.Keys == w.mask.Keys
    && forall t, j {:trigger w.path[t][j]} :: t in w.path && 0 <= j < |w.path[t]| ==> w.path[t][j] in w.init
  }

  /** A task with nothing to mask returns at once. */
  ghost predicate Initial<T(!new), C(!new)>(w: Work<T, C>, s: State<T, C>)
    requires WorkOk(w)
  {
    && s.cells == w.init && s.pcs.Keys == w.path.Keys
    && forall t :: t in s.pcs ==> s.pcs[t] == Ready(if w.mask[t] == {} then |w.path[t]| else 0)
  }

  /** One step of task t: load, give up on an empty label, swap, or fail to swap and reload. */
  ghost predicate Next<T(!new), C(!new)>(w: Work<T, C>, s: State<T, C>, t: T, s': State<T, C>)
    requires WorkOk(w)
  {
    && t in s.pcs && t in w.path && s.pcs[t].n < |w.path[t]|
    && var n := s.pcs[t].n;
       var k := w.path[t][n];
       && k in s.cells
       && match s.pcs[t] {
            case Ready(_) => s' == s.(pcs := s.pcs[t := Loaded(n, s.cells[k])])
            case Loaded(_, expected) =>
              || (expected == {} && s' == s.(pcs := s.pcs[t := Ready(n + 1)]))
              || (s.cells[k] == expected &&
                  s' == State(s.cells[k := expected - w.mask[t]], s.pcs[t := Ready(n + 1)]))
              || s' == s.(pcs := s.pcs[t := Loaded(n, s.cells[k])])
          }
  }

  /** The task has dealt with label k. */
  predicate Past<C(==)>(path: seq<C>, pc: Pc, k: C) {
    exists j :: 0 <= j < pc.n && j < |path| && path[j] == k
  }

  /** Value x is still in label k: it was there and no task has masked it out. */
  ghost predicate StillIn<T(!new), C(!new)>(w: Work<T, C>, pcs: map<T, Pc>, k: C, x: Bits)
    requires WorkOk(w) && k in w.init
  {
    x in w.init[k] && forall t :: t in pcs && t in w.path && Past(w.path[t], pcs[t], k) ==> x !in w.mask[t]
  }

  ghost predicate CellOk<T(!new), C(!new)>(w: Work<T, C>, s: State<T, C>, k: C)
    requires WorkOk(w) && k in w.init && k in s.cells
  {
    forall x :: x in s.cells[k] <==> StillIn(w, s.pcs, k, x)
  }

  /** What a task has loaded can only have shrunk since. */
  ghost predicate TaskOk<T(!new), C(!new)>(w: Work<T, C>, s: State<T, C>, t: T)
    requires WorkOk(w) && t in w.path && t in s.pcs && s.cells.Keys == w.init.Keys
  {
    && s.pcs[t].n <= |w.path[t]|
    && (s.pcs[t].Loaded? ==> s.pcs[t].n < |w.path[t]| && s.cells[w.path[t][s.pcs[t].n]] <= s.pcs[t].expected)
  }

  ghost predicate Inv<T(!new), C(!new)>(w: Work<T, C>, s: State<T, C>) {
    && WorkOk(w) && s.cells.Keys == w.init.Keys && s.pcs.Keys == w.path.Keys
    && (forall k {:trigger CellOk(w, s, k)} :: k in w.init ==> CellOk(w, s, k))
    && (forall t {:trigger TaskOk(w, s, t)} :: t in w.path ==> TaskOk(w, s, t))
  }

  lemma InitialInv<T(!new), C(!new)>(w: Work<T, C>, s: State<T, C>)
    requires WorkOk(w) && Initial(w, s)
    ensures Inv(w, s)
  {
    forall k | k in w.init ensures CellOk(w, s, k) {}
    forall t | t in w.path ensures TaskOk(w, s, t) {}
  }

  /** Moving on by one step of the path means being done with one more label. */
  lemma PastNext<C>(path: seq<C>, pc: Pc, pc': Pc, k: C)
    requires pc.n < |path| && pc'.n == pc.n + 1
    ensures Past(path, pc', k) <==> Past(path, pc, k) || path[pc.n] == k
  {
    if path[pc.n] == k { assert path[pc.n] == k && 0 <= pc.n < pc'.n; }
    if Past(path, pc, k) {
      var j :| 0 <= j < pc.n && j < |path| && path[j] == k;
      assert 0 <= j < pc'.n && path[j] == k;
    }
  }

  /** A task leaves step n having taken its mask out of the label there. */
  lemma StillInNext<T(!new), C(!new)>(w: Work<T, C>, pcs: map<T, Pc>, t: T, k: C, x: Bits)
    requires WorkOk(w) && t in pcs && t in w.path && pcs[t].n < |w.path[t]| && k in w.init
    ensures var pcs' := pcs[t := Ready(pcs[t].n + 1)];
            StillIn(w, pcs', k, x) <==> StillIn(w, pcs, k, x) && !(w.path[t][pcs[t].n] == k && x in w.mask[t])
  {
    PastNext(w.path[t], pcs[t], Ready(pcs[t].n + 1), k);
  }

  /** Loading, or failing to swap, changes no label and no progress. */
  lemma LoadStep<T(!new), C(!new)>(w: Work<T, C>, s: State<T, C>, t: T)
    requires Inv(w, s) && t in w.path && s.pcs[t].n < |w.path[t]|
    ensures var n := s.pcs[t].n;
            Inv(w, s.(pcs := s.pcs[t := Loaded(n, s.cells[w.path[t][n]])]))
  {
    var n := s.pcs[t].n;
    var s' := s.(pcs := s.pcs[t := Loaded(n, s.cells[w.path[t][n]])]);
    forall k | k in w.init ensures CellOk(w, s', k) {
      assert CellOk(w, s, k);
      forall x ensures StillIn(w, s'.pcs, k, x) <==> StillIn(w, s.pcs, k, x) {
        assert Past(w.path[t], s'.pcs[t], k) <==> Past(w.path[t], s.pcs[t], k);
      }
    }
    forall u | u in w.path ensures TaskOk(w, s', u) { assert TaskOk(w, s, u); }
  }

  /** Leaving a step with the label now holding l. */
  lemma LeaveStep<T(!new), C(!new)>(w: Work<T, C>, s: State<T, C>, t: T, l: Label)
    requires Inv(w, s) && t in w.path && s.pcs[t].n < |w.path[t]|
    requires l == s.cells[w.path[t][s.pcs[t].n]] - w.mask[t]
    ensures var n := s.pcs[t].n;
            Inv(w, State(s.cells[w.path[t][n] := l], s.pcs[t := Ready(n + 1)]))
  {
    var n := s.pcs[t].n;
    var k0 := w.path[t][n];
    var s' := State(s.cells[k0 := l], s.pcs[t := Ready(n + 1)]);
    forall k | k in w.init ensures CellOk(w, s', k) {
      assert CellOk(w, s, k);
      forall x ensures x in s'.cells[k] <==> StillIn(w, s'.pcs, k, x) { StillInNext(w, s.pcs, t, k, x); }
    }
    forall u | u in w.path ensures TaskOk(w, s', u) { assert TaskOk(w, s, u); }
  }

  lemma StepKeepsInv<T(!new), C(!new)>(w: Work<T, C>, s: State<T, C>, t: T, s': State<T, C>)
    requires Inv(w, s) && Next(w, s, t, s')
    ensures Inv(w, s')
  {
    var n := s.pcs[t].n;
    var k := w.path[t][n];
    assert TaskOk(w, s, t);
    if s' == s.(pcs := s.pcs[t := Loaded(n, s.cells[k])]) {
      LoadStep(w, s, t);
    } else {
      var l := s.cells[k] - w.mask[t];
      LeaveStep(w, s, t, l);
      if s'.cells == s.cells { assert l == s.cells[k]; }
      assert s'.cells == s.cells[k := l];
    }
  }

  // ---------------------------------------------------------------- whole runs

  ghost predicate Steps<T(!new), C(!new)>(w: Work<T, C>, s: State<T, C>, s': State<T, C>)
    requires WorkOk(w)
  {
    exists t :: Next(w, s, t, s')
  }

  ghost predicate StepAt<T(!new), C(!new)>(w: Work<T, C>, run: seq<State<T, C>>, i: nat)
    requires WorkOk(w) && 0 < i < |run|
  {
    Steps(w, run[i - 1], run[i])
  }

  ghost predicate Run<T(!new), C(!new)>(w: Work<T, C>, run: seq<State<T, C>>) {
    && WorkOk(w) && |run| > 0 && Initial(w, run[0])
    && forall i {:trigger StepAt(w, run, i)} :: 0 < i < |run| ==> StepAt(w, run, i)
  }

  lemma {:induction false} RunInv<T(!new), C(!new)>(w: Work<T, C>, run: seq<State<T, C>>, n: nat)
    requires Run(w, run) && n < |run|
    ensures Inv(w, run[n])
  {
    if n == 0 {
      InitialInv(w, run[0]);
    } else {
      RunInv(w, run, n - 1);
      var s, s' := run[n - 1], run[n];
      assert StepAt(w, run, n);
      var t :| Next(w, s, t, s');
      StepKeepsInv(w, s, t, s');
    }
  }

  /** All tasks have come back. */
  ghost predicate Finished<T(!new), C(!new)>(w: Work<T, C>, s: State<T, C>) {
    forall t :: t in w.path ==> t in s.pcs && s.pcs[t] == Ready(|w.path[t]|)
  }

  // ---------------------------------------------------------------- every run can finish

  lemma Extend<T(!new), C(!new)>(w: Work<T, C>, run: seq<State<T, C>>, t: T, s': State<T, C>)
    returns (more: seq<State<T, C>>)
    requires Run(w, run) && Next(w, run[|run| - 1], t, s')
    ensures Run(w, more) && more == run + [s']
  {
    more := run + [s'];
    assert Steps(w, run[|run| - 1], s');
    forall i | 0 < i < |more| ensures StepAt(w, more, i) {
      if i < |run| { assert StepAt(w, run, i); }
    }
  }

  /** A task that is not disturbed gets past the label at hand in two steps: it loads, and swaps
      what it loaded for that without its mask. */
  lemma OneCell<T(!new), C(!new)>(w: Work<T, C>, run: seq<State<T, C>>, t: T) returns (more: seq<State<T, C>>)
    requires Run(w, run) && t in w.path && t in run[|run| - 1].pcs && run[|run| - 1].pcs[t].n < |w.path[t]|
    ensures Run(w, more) && run <= more && |more| == |run| + 2
    ensures var s, s' := run[|run| - 1], more[|more| - 1];
            var k := w.path[t][s.pcs[t].n];
            && k in s.cells && s' == State(s.cells[k := s.cells[k] - w.mask[t]], s.pcs[t := Ready(s.pcs[t].n + 1)])
  {
    var s := run[|run| - 1];
    RunInv(w, run, |run| - 1);
    var n := s.pcs[t].n;
    var k := w.path[t][n];
    var loaded := s.(pcs := s.pcs[t := Loaded(n, s.cells[k])]);
    more := Extend(w, run, t, loaded);
    var s' := State(s.cells[k := s.cells[k] - w.mask[t]], s.pcs[t := Ready(n + 1)]);
    assert loaded.pcs[t := Ready(n + 1)] == s'.pcs;
    more := Extend(w, more, t, s');
  }

  lemma {:induction false} FinishTask<T(!new), C(!new)>(w: Work<T, C>, run: seq<State<T, C>>, t: T)
    returns (more: seq<State<T, C>>)
    requires Run(w, run) && t in w.path
    ensures Run(w, more) && run <= more && t in run[|run| - 1].pcs
    ensures more[|more| - 1].pcs == run[|run| - 1].pcs[t := Ready(|w.path[t]|)]
    decreases |w.path[t]| - if t in run[|run| - 1].pcs then run[|run| - 1].pcs[t].n else 0
  {
    var s := run[|run| - 1];
    RunInv(w, run, |run| - 1);
    assert TaskOk(w, s, t);
    if s.pcs[t].n < |w.path[t]| {
      var next := OneCell(w, run, t);
      more := FinishTask(w, next, t);
    } else {
      more := run;
    }
  }

  lemma {:induction false} FinishTasks<T(!new), C(!new)>(w: Work<T, C>, run: seq<State<T, C>>, todo: set<T>)
    returns (more: seq<State<T, C>>)
    requires Run(w, run) && todo <= w.path.Keys
    requires forall t :: t in w.path && t !in todo ==>
               t in run[|run| - 1].pcs && run[|run| - 1].pcs[t] == Ready(|w.path[t]|)
    ensures Run(w, more) && run <= more && Finished(w, more[|more| - 1])
    decreases |todo|
  {
    if todo == {} {
      more := run;
    } else {
      var t :| t in todo;
      var next := FinishTask(w, run, t);
      more := FinishTasks(w, next, todo - {t});
    }
  }

  /** Every run extends to a finished one. */
  lemma CanFinish<T(!new), C(!new)>(w: Work<T, C>, run: seq<State<T, C>>) returns (more: seq<State<T, C>>)
    requires Run(w, run)
    ensures Run(w, more) && run <= more && Finished(w, more[|more| - 1])
  {
    more := FinishTasks(w, run, w.path.Keys);
  }

  /** And there is one for all work. */
  lemma SomeRun<T(!new), C(!new)>(w: Work<T, C>) returns (run: seq<State<T, C>>)
    requires WorkOk(w)
    ensures Run(w, run) && Finished(w, run[|run| - 1])
  {
    var s := State(w.init, map t | t in w.path :: Ready(if w.mask[t] == {} then |w.path[t]| else 0));
    run := CanFinish(w, [s]);
  }

  lemma OrWorkOk(e: Edges, g: Edges)
    ensures WorkOk(OrWork(e, g))
  {
    var w := OrWork(e, g);
    forall t, j | t in w.path && 0 <= j < |w.path[t]| ensures w.path[t][j] in w.init {
      assert w.path[t] == [A(t.0), B(t.1)];
    }
  }

  lemma OrCanFinish(e: Edges, g: Edges) returns (run: seq<State<(Id, Id), Cell>>)
    ensures Run(OrWork(e, g), run) && Finished(OrWork(e, g), run[|run| - 1])
  {
    OrWorkOk(e, g);
    run := SomeRun(OrWork(e, g));
  }

  lemma RestCanFinish(e: Edges, u: Label) returns (run: seq<State<Id, ()>>)
    ensures Run(RestWork(e, u), run) && Finished(RestWork(e, u), run[|run| - 1])
  {
    run := SomeRun(RestWork(e, u));
  }

  ghost predicate Touches<T(!new), C(!new)>(w: Work<T, C>, t: T, k: C) {
    t in w.path && k in w.path[t]
  }

  /** However the tasks interleaved, a label has lost exactly the regions of the tasks that
      touch it. */
  lemma FinishedCells<T(!new), C(!new)>(w: Work<T, C>, run: seq<State<T, C>>, k: C, x: Bits)
    requires Run(w, run) && Finished(w, run[|run| - 1]) && k in w.init
    ensures k in run[|run| - 1].cells
    ensures x in run[|run| - 1].cells[k] <==> x in w.init[k] && forall t :: Touches(w, t, k) && t in w.mask ==>
            x !in w.mask[t]
  {
    RunInv(w, run, |run| - 1);
    var s := run[|run| - 1];
    assert CellOk(w, s, k);
    forall t | t in w.path ensures Past(w.path[t], s.pcs[t], k) <==> k in w.path[t] {
      if k in w.path[t] {
        var j :| 0 <= j < |w.path[t]| && w.path[t][j] == k;
      }
    }
  }

  // ---------------------------------------------------------------- the residuals of OR and NOT

  /** Labels of the two cloned edge maps of a same-field OR. */
  datatype Cell = A(c: Id) | B(d: Id)

  function Pairs(e: Edges, g: Edges): set<(Id, Id)> {
    set c, d | c in e.Keys && d in g.Keys :: (c, d)
  }

  function OrInit(e: Edges, g: Edges): map<Cell, Label> {
    (map c | c in e :: A(c) := e[c]) + (map d | d in g :: B(d) := g[d])
  }

  /** A same-field OR: each pair masks its intersection out of both sides. */
  function OrWork(e: Edges, g: Edges): Work<(Id, Id), Cell> {
    Work(OrInit(e, g),
         map p | p in Pairs(e, g) :: [A(p.0), B(p.1)],
         map p | p in Pairs(e, g) && p.0 in e && p.1 in g :: e[p.0] * g[p.1])
  }

  /** The label left in cell k at the end of a run. */
  function LeftIn<T(!new), C(!new)>(run: seq<State<T, C>>, k: C): Label {
    if |run| > 0 && k in run[|run| - 1].cells then run[|run| - 1].cells[k] else {}
  }

  /** In every interleaving the residuals of an OR are each label minus the other side's whole
      support: here those of the first operand. */
  lemma OrResidualLeft(e: Edges, g: Edges, run: seq<State<(Id, Id), Cell>>, c: Id)
    requires Run(OrWork(e, g), run) && Finished(OrWork(e, g), run[|run| - 1]) && c in e
    ensures LeftIn(run, A(c)) == e[c] - Support(g)
  {
    var l, m := LeftIn(run, A(c)), e[c] - Support(g);
    forall x ensures x in l <==> x in m {
      FinishedCells(OrWork(e, g), run, A(c), x);
      if x in e[c] { MaskedLeft(e, g, c, x); }
    }
  }

  /** And those of the second. */
  lemma OrResidualRight(e: Edges, g: Edges, run: seq<State<(Id, Id), Cell>>, d: Id)
    requires Run(OrWork(e, g), run) && Finished(OrWork(e, g), run[|run| - 1]) && d in g
    ensures LeftIn(run, B(d)) == g[d] - Support(e)
  {
    var l, m := LeftIn(run, B(d)), g[d] - Support(e);
    forall x ensures x in l <==> x in m {
      FinishedCells(OrWork(e, g), run, B(d), x);
      if x in g[d] { MaskedRight(e, g, d, x); }
    }
  }

  lemma MaskedLeft(e: Edges, g: Edges, c: Id, x: Bits)
    requires c in e && x in e[c]
    ensures x in Support(g) <==> exists t :: Touches(OrWork(e, g), t, A(c))
                                            && t in OrWork(e, g).mask && x in OrWork(e, g).mask[t]
  {
    var w := OrWork(e, g);
    if x in Support(g) {
      var d :| d in g && x in g[d];
      assert w.path[(c, d)][0] == A(c);
      assert Touches(w, (c, d), A(c)) && x in w.mask[(c, d)];
    }
  }

  lemma MaskedRight(e: Edges, g: Edges, d: Id, x: Bits)
    requires d in g && x in g[d]
    ensures x in Support(e) <==> exists t :: Touches(OrWork(e, g), t, B(d))
                                            && t in OrWork(e, g).mask && x in OrWork(e, g).mask[t]
  {
    var w := OrWork(e, g);
    if x in Support(e) {
      var c :| c in e && x in e[c];
      assert w.path[(c, d)][1] == B(d);
      assert Touches(w, (c, d), B(d)) && x in w.mask[(c, d)];
    }
  }

  /** A different-field OR, or a NOT: every edge masks its label out of one residual, which
      starts as the whole field. */
  function RestWork(e: Edges, u: Label): Work<Id, ()> {
    Work(map[() := u], map c | c in e :: [()], e)
  }

  lemma RestResidual(e: Edges, u: Label, run: seq<State<Id, ()>>)
    requires Run(RestWork(e, u), run) && Finished(RestWork(e, u), run[|run| - 1])
    ensures LeftIn(run, ()) == u - Support(e)
  {
    var w, r := RestWork(e, u), run[|run| - 1].cells;
    forall x ensures () in r && (x in r[()] <==> x in u - Support(e)) {
      FinishedCells(w, run, (), x);
      assert forall c :: c in e ==> w.path[c][0] == () && Touches(w, c, ());
    }
  }
}
