/** The hand-over of tasks from callers to pooled threads, one step for each region under a lock. */
module ThreadPools {
  import opened Basics

  // ---------------------------------------------------------------- the protocol

  /** Where a thread is in its loop.  It holds its own mutex from `Running` to `PutBack`. */
  datatype Mode = Free | Running | Ran | Cleared | PutBack

  /** `task` is `m_task`: the call of `exec` that handed it over. */
  datatype Worker = Worker(task: Option<nat>, mode: Mode)

  /** How far a call of `exec` has come, and then its task; `timed` when it gave a timeout, `Void` when the
      task handed over is a null pointer. */
  datatype Call<W> = Asking(timed: bool) | Waiting(timed: bool) | Holding(w: W) | Queued(w: W) | Started(w: W)
    | Finished | TimedOut | Void(w: W)

  /** `owner` tells for whom a busy thread works, `runs` which tasks have been run, in order. */
  datatype Pool<!W> = Pool(max: nat, idle: set<W>, busy: set<W>, workers: map<W, Worker>,
                           calls: seq<Call<W>>, owner: map<W, nat>, runs: seq<nat>)

  datatype Step<W> =
    | Exec(timed: bool) | Grab(c: nat, w: W) | Create(c: nat, w: W) | Block(c: nat) | Wake(c: nat, w: W)
      | Expire(c: nat)
    | SetTask(c: nat) | SetNull(c: nat) | Begin(w: W) | End(w: W) | Reset(w: W) | Return(w: W) | Release(w: W)

  predicate At<W(==)>(s: Pool<W>, c: nat, k: Call<W>) { c < |s.calls| && s.calls[c] == k }

  predicate In<W(==)>(s: Pool<W>, w: W, m: Mode) { w in s.workers && s.workers[w].mode == m }

  predicate Enabled<W(==)>(s: Pool<W>, e: Step<W>) {
    match e
    case Exec(_) => true
    case Grab(c, w) => c < |s.calls| && s.calls[c].Asking? && w in s.idle
    case Create(c, w) => c < |s.calls| && s.calls[c].Asking? && s.idle == {} && |s.idle| + |s.busy| < s.max
      && w !in s.workers
    case Block(c) => c < |s.calls| && s.calls[c].Asking? && s.idle == {} && |s.idle| + |s.busy| >= s.max
    case Wake(c, w) => c < |s.calls| && s.calls[c].Waiting? && w in s.idle
    case Expire(c) => At(s, c, Waiting(true)) && s.idle == {}
    case SetTask(c) => c < |s.calls| && s.calls[c].Holding? && In(s, s.calls[c].w, Free)
    case SetNull(c) => c < |s.calls| && s.calls[c].Holding? && In(s, s.calls[c].w, Free)
    case Begin(w) => In(s, w, Free) && s.workers[w].task.Some? && s.workers[w].task.value < |s.calls|
    case End(w) => In(s, w, Running) && s.workers[w].task.Some? && s.workers[w].task.value < |s.calls|
    case Reset(w) => In(s, w, Ran)
    case Return(w) => In(s, w, Cleared)
    case Release(w) => In(s, w, PutBack)
  }

  ghost function Apply<W>(s: Pool<W>, e: Step<W>): Pool<W>
    requires Enabled(s, e)
  {
    match e
    case Exec(timed) => s.(calls := s.calls + [Asking(timed)])
    case Grab(c, w) => Assigned(s, c, w)
    case Create(c, w) => Assigned(s.(workers := s.workers[w := Worker(None, Free)]), c, w)
    case Block(c) => s.(calls := s.calls[c := Waiting(s.calls[c].timed)])
    case Wake(c, w) => Assigned(s, c, w)
    case Expire(c) => s.(calls := s.calls[c := TimedOut])
    case SetTask(c) =>
      var w := s.calls[c].w;
      s.(workers := s.workers[w := Worker(Some(c), Free)], calls := s.calls[c := Queued(w)])
    case SetNull(c) =>
      var w := s.calls[c].w;
      s.(workers := s.workers[w := Worker(None, Free)], calls := s.calls[c := Void(w)])
    case Begin(w) =>
      var c := s.workers[w].task.value;
      s.(workers := s.workers[w := Worker(Some(c), Running)], calls := s.calls[c := Started(w)], runs := s.runs + [c])
    case End(w) =>
      var c := s.workers[w].task.value;
      s.(workers := s.workers[w := Worker(Some(c), Ran)], calls := s.calls[c := Finished])
    case Reset(w) => s.(workers := s.workers[w := Worker(None, Cleared)])
    case Return(w) =>
      s.(idle := s.idle + {w}, busy := s.busy - {w}, owner := s.owner - {w},
         workers := s.workers[w := Worker(s.workers[w].task, PutBack)])
    case Release(w) => s.(workers := s.workers[w := Worker(s.workers[w].task, Free)])
  }

  /** Thread `w` leaves the idle set, or is new, and goes to call `c`. */
  ghost function Assigned<W>(s: Pool<W>, c: nat, w: W): Pool<W>
    requires c < |s.calls|
  {
    s.(idle := s.idle - {w}, busy := s.busy + {w}, calls := s.calls[c := Holding(w)], owner := s.owner[w := c])
  }

  // ---------------------------------------------------------------- what every step keeps

  ghost predicate Threads<W>(s: Pool<W>) {
    && s.idle !! s.busy && s.workers.Keys == s.idle + s.busy && s.owner.Keys == s.busy
    && |s.idle| + |s.busy| <= s.max
  }

  /** An idle thread has no task. */
  ghost predicate IdleOk(k: Worker) {
    k.task == None && (k.mode.Free? || k.mode.PutBack?)
  }

  /** A busy thread is where the call it works for says. */
  ghost predicate BusyOk<W>(k: Worker, w: W, c: nat, call: Call<W>) {
    match call
    case Holding(v) => v == w && k.task == None && (k.mode.Free? || k.mode.PutBack?)
    case Queued(v) => v == w && k == Worker(Some(c), Free)
    case Void(v) => v == w && k == Worker(None, Free)
    case Started(v) => v == w && k == Worker(Some(c), Running)
    case Finished => k == Worker(Some(c), Ran) || k == Worker(None, Cleared)
    case _ => false
  }

  /** Calls that have a thread, and calls whose task has been begun. */
  predicate Has<W>(k: Call<W>) { k.Holding? || k.Queued? || k.Started? || k.Void? }
  predicate Begun<W>(k: Call<W>) { k.Started? || k.Finished? }

  ghost predicate WorkerOk<W>(s: Pool<W>, w: W)
    requires Threads(s)
  {
    && (w in s.idle ==> IdleOk(s.workers[w]))
    && (w in s.busy ==> s.owner[w] < |s.calls| && BusyOk(s.workers[w], w, s.owner[w], s.calls[s.owner[w]]))
  }

  ghost predicate CallOk<W>(s: Pool<W>, c: nat)
    requires Threads(s) && c < |s.calls|
  {
    Has(s.calls[c]) ==> s.calls[c].w in s.busy && s.owner[s.calls[c].w] == c
  }

  ghost predicate LinksOk<W>(s: Pool<W>) {
    && Threads(s)
    && (forall w | w in s.workers :: WorkerOk(s, w))
    && (forall c: nat | c < |s.calls| :: CallOk(s, c))
  }

  /** No task is run twice, and those begun are those the calls say. */
  ghost predicate RunsOk<W>(s: Pool<W>) {
    && (forall i, j | 0 <= i < j < |s.runs| :: s.runs[i] != s.runs[j])
    && (forall c: nat :: c in s.runs <==> c < |s.calls| && Begun(s.calls[c]))
  }

  ghost predicate Inv<W>(s: Pool<W>) {
    LinksOk(s) && RunsOk(s)
  }

  /** `t` differs from `s` at thread `w` and call `c` only. */
  ghost predicate Local<W>(s: Pool<W>, t: Pool<W>, c: nat, w: W) {
    && c < |t.calls| == |s.calls| && t.max == s.max
    && (forall d | 0 <= d < |s.calls| && d != c :: t.calls[d] == s.calls[d])
    && (forall v | v in s.workers.Keys + t.workers.Keys && v != w ::
      (v in t.idle <==> v in s.idle) && (v in t.busy <==> v in s.busy))
    && (forall v | v in s.workers && v in t.workers && v != w :: t.workers[v] == s.workers[v])
    && (forall v | v in s.owner && v in t.owner && v != w :: t.owner[v] == s.owner[v])
  }

  /** A local change leaves the rest in order. */
  lemma LocalKeeps<W>(s: Pool<W>, t: Pool<W>, c: nat, w: W)
    requires LinksOk(s) && Local(s, t, c, w) && Threads(t)
    requires w in s.busy ==> s.owner[w] == c
    requires w in s.busy || t.calls[c] == s.calls[c] || !(s.calls[c].Finished? || Has(s.calls[c]))
    requires t.calls[c] == s.calls[c] || !s.calls[c].Finished?
    requires WorkerOk(t, w) && CallOk(t, c)
    ensures LinksOk(t)
  {
    forall v | v in t.workers
      ensures WorkerOk(t, v)
    {
      if v != w {
        OtherWorker(s, t, c, w, v);
      }
    }
    forall d: nat | d < |t.calls|
      ensures CallOk(t, d)
    {
      if d != c {
        OtherCall(s, t, c, w, d);
      }
    }
  }

  lemma OtherWorker<W>(s: Pool<W>, t: Pool<W>, c: nat, w: W, v: W)
    requires LinksOk(s) && Local(s, t, c, w) && Threads(t) && v in t.workers && v != w
    requires w in s.busy ==> s.owner[w] == c
    requires w in s.busy || t.calls[c] == s.calls[c] || !(s.calls[c].Finished? || Has(s.calls[c]))
    requires t.calls[c] == s.calls[c] || !s.calls[c].Finished?
    ensures WorkerOk(t, v)
  {
    assert v in s.workers && WorkerOk(s, v) && CallOk(s, c);
  }

  lemma OtherCall<W>(s: Pool<W>, t: Pool<W>, c: nat, w: W, d: nat)
    requires LinksOk(s) && Local(s, t, c, w) && Threads(t) && d < |t.calls| && d != c
    requires w in s.busy ==> s.owner[w] == c
    ensures CallOk(t, d)
  {
    assert CallOk(s, d);
  }

  lemma SameRuns<W>(s: Pool<W>, t: Pool<W>)
    requires RunsOk(s) && t.runs == s.runs && |s.calls| <= |t.calls|
    requires forall c | 0 <= c < |s.calls| :: Begun(t.calls[c]) == Begun(s.calls[c])
    requires forall c | |s.calls| <= c < |t.calls| :: !Begun(t.calls[c])
    ensures RunsOk(t)
  {
  }

  // A working thread's task and call, read off the invariant.
  lemma Working<W>(s: Pool<W>, w: W)
    requires LinksOk(s) && w in s.workers
    requires (s.workers[w].task.Some? || !(s.workers[w].mode.Free? || s.workers[w].mode.PutBack?))
    ensures w in s.busy && s.owner[w] < |s.calls| && BusyOk(s.workers[w], w, s.owner[w], s.calls[s.owner[w]])
    ensures s.workers[w].task.Some? ==> s.workers[w].task.value == s.owner[w]
  {
    assert WorkerOk(s, w);
  }

  /** `setTask` never overwrites a task, and meets a thread that is doing nothing. */
  lemma NoOverwrite<W>(s: Pool<W>, c: nat)
    requires LinksOk(s) && Enabled(s, SetTask(c))
    ensures var w := s.calls[c].w; w in s.busy && s.owner[w] == c && s.workers[w] == Worker(None, Free)
  {
    assert CallOk(s, c);
    assert WorkerOk(s, s.calls[c].w);
  }

  lemma SetSizes<W>(a: set<W>, b: set<W>, w: W)
    ensures w in a ==> |a - {w}| == |a| - 1
    ensures w !in b ==> |b + {w}| == |b| + 1
  {
  }

  /** Call `c` gets the idle thread `w`. */
  lemma TakenKeeps<W>(s: Pool<W>, c: nat, w: W)
    requires Inv(s) && c < |s.calls| && w in s.idle && (s.calls[c].Asking? || s.calls[c].Waiting?)
    ensures Inv(Assigned(s, c, w))
  {
    SameRuns(s, Assigned(s, c, w));
    hide RunsOk, LinksOk;
    TakenLinks(s, c, w);
  }

  lemma TakenLinks<W>(s: Pool<W>, c: nat, w: W)
    requires LinksOk(s) && c < |s.calls| && w in s.idle && (s.calls[c].Asking? || s.calls[c].Waiting?)
    ensures LinksOk(Assigned(s, c, w))
  {
    AssignedAt(s, c, w);
    TakenWorker(s, c, w);
    hide Assigned, Local, Threads, WorkerOk, CallOk;
    LocalKeeps(s, Assigned(s, c, w), c, w);
  }

  lemma TakenWorker<W>(s: Pool<W>, c: nat, w: W)
    requires LinksOk(s) && c < |s.calls| && w in s.idle
    ensures var t := Assigned(s, c, w); Threads(t) && WorkerOk(t, w) && CallOk(t, c)
  {
    AssignedAt(s, c, w);
    hide Assigned, Local, Threads;
    assert WorkerOk(s, w);
  }

  lemma AssignedAt<W>(s: Pool<W>, c: nat, w: W)
    requires Threads(s) && c < |s.calls| && w in s.idle
    ensures var t := Assigned(s, c, w);
            && Threads(t) && Local(s, t, c, w) && w !in s.busy && t.workers == s.workers
            && t.calls[c] == Holding(w) && t.owner[w] == c && w in t.busy && w !in t.idle
  {
    AssignedThreads(s, c, w);
    AssignedLocal(s, c, w);
    hide Local, Threads;
  }

  lemma AssignedThreads<W>(s: Pool<W>, c: nat, w: W)
    requires Threads(s) && c < |s.calls| && w in s.idle
    ensures Threads(Assigned(s, c, w)) && w !in s.busy
  {
    SetSizes(s.idle, s.busy, w);
    assert s.idle - {w} + (s.busy + {w}) == s.idle + s.busy;
  }

  lemma AssignedLocal<W>(s: Pool<W>, c: nat, w: W)
    requires c < |s.calls|
    ensures Local(s, Assigned(s, c, w), c, w)
  {
  }

  lemma CreateKeeps<W>(s: Pool<W>, c: nat, w: W)
    requires Inv(s) && Enabled(s, Create(c, w))
    ensures Inv(Apply(s, Create(c, w)))
  {
    var t := Apply(s, Create(c, w));
    SameRuns(s, t);
    CreatedAt(s, c, w);
    assert s.calls[c].Asking?;
    hide Apply, Enabled, Local, RunsOk, Threads;
    LocalKeeps(s, t, c, w);
  }

  lemma CreatedAt<W>(s: Pool<W>, c: nat, w: W)
    requires Threads(s) && Enabled(s, Create(c, w))
    ensures var t := Apply(s, Create(c, w));
            && Threads(t) && Local(s, t, c, w) && w !in s.busy && t.workers[w] == Worker(None, Free)
            && t.calls[c] == Holding(w) && t.owner[w] == c && w in t.busy && w !in t.idle
  {
    CreatedThreads(s, c, w);
    CreatedLocal(s, c, w);
    hide Local, Threads;
  }

  lemma CreatedThreads<W>(s: Pool<W>, c: nat, w: W)
    requires Threads(s) && Enabled(s, Create(c, w))
    ensures Threads(Apply(s, Create(c, w))) && w !in s.busy && w !in s.idle
  {
    SetSizes(s.idle, s.busy, w);
    assert s.idle - {w} == s.idle;
  }

  lemma CreatedLocal<W>(s: Pool<W>, c: nat, w: W)
    requires Enabled(s, Create(c, w))
    ensures Local(s, Apply(s, Create(c, w)), c, w)
  {
  }

  lemma ExecKeeps<W>(s: Pool<W>, timed: bool)
    requires Inv(s)
    ensures Inv(Apply(s, Exec(timed)))
  {
    SameRuns(s, Apply(s, Exec(timed)));
    hide RunsOk, LinksOk;
    ExecLinks(s, timed);
  }

  lemma ExecLinks<W>(s: Pool<W>, timed: bool)
    requires LinksOk(s)
    ensures LinksOk(Apply(s, Exec(timed)))
  {
    var t := Apply(s, Exec(timed));
    forall w | w in t.workers
      ensures WorkerOk(t, w)
    {
      assert WorkerOk(s, w);
    }
    forall c: nat | c < |t.calls|
      ensures CallOk(t, c)
    {
      assert c < |s.calls| ==> CallOk(s, c);
    }
  }

  /** A call that has no thread changes and still has none. */
  lemma CallKeeps<W>(s: Pool<W>, c: nat, k: Call<W>)
    requires Inv(s) && c < |s.calls| && (s.calls[c].Asking? || s.calls[c].Waiting?) && (k.Waiting? || k.TimedOut?)
    ensures Inv(s.(calls := s.calls[c := k]))
  {
    var t := s.(calls := s.calls[c := k]);
    SameRuns(s, t);
    hide RunsOk;
    forall w | w in t.workers
      ensures WorkerOk(t, w)
    {
      assert WorkerOk(s, w);
    }
    forall d: nat | d < |t.calls|
      ensures CallOk(t, d)
    {
      assert CallOk(s, d);
    }
  }

  lemma SetTaskKeeps<W>(s: Pool<W>, c: nat)
    requires Inv(s) && Enabled(s, SetTask(c))
    ensures Inv(Apply(s, SetTask(c)))
  {
    var t, w := Apply(s, SetTask(c)), s.calls[c].w;
    NoOverwrite(s, c);
    SameRuns(s, t);
    WorkedAt(s, t, c, w);
    assert t.workers[w] == Worker(Some(c), Free) && t.calls[c] == Queued(w);
    hide Apply, Enabled, Local, RunsOk, Threads;
    LocalKeeps(s, t, c, w);
  }

  lemma SetNullKeeps<W>(s: Pool<W>, c: nat)
    requires Inv(s) && Enabled(s, SetNull(c))
    ensures Inv(Apply(s, SetNull(c)))
  {
    var t, w := Apply(s, SetNull(c)), s.calls[c].w;
    NoOverwrite(s, c);
    SameRuns(s, t);
    WorkedAt(s, t, c, w);
    assert t.workers[w] == Worker(None, Free) && t.calls[c] == Void(w);
    hide Apply, Enabled, Local, RunsOk, Threads;
    LocalKeeps(s, t, c, w);
  }

  /** A step of a busy thread touches that thread and the call it works for. */
  lemma WorkedAt<W>(s: Pool<W>, t: Pool<W>, c: nat, w: W)
    requires Threads(s) && w in s.busy && s.owner[w] == c && c < |s.calls|
    requires c < |t.calls| && t.calls == s.calls[c := t.calls[c]] && w in t.workers
    requires t.workers == s.workers[w := t.workers[w]]
    requires t.max == s.max && t.idle == s.idle && t.busy == s.busy && t.owner == s.owner
    ensures Threads(t) && Local(s, t, c, w) && w in t.busy && w !in t.idle && t.owner[w] == c
  {
    assert t.workers.Keys == s.workers.Keys + {w} == s.workers.Keys;
  }

  /** A task that begins has not been run before. */
  lemma BeginKeeps<W>(s: Pool<W>, w: W)
    requires Inv(s) && Enabled(s, Begin(w))
    ensures Inv(Apply(s, Begin(w)))
  {
    var t, c := Apply(s, Begin(w)), s.workers[w].task.value;
    Working(s, w);
    BegunOnce(s, t, c);
    WorkedAt(s, t, c, w);
    assert t.workers[w] == Worker(Some(c), Running) && t.calls[c] == Started(w) && !s.calls[c].Finished?;
    hide Apply, Enabled, Local, RunsOk, Threads;
    LocalKeeps(s, t, c, w);
  }

  lemma BegunOnce<W>(s: Pool<W>, t: Pool<W>, c: nat)
    requires RunsOk(s) && c < |s.calls| && !Begun(s.calls[c])
    requires |t.calls| == |s.calls| && Begun(t.calls[c])
    requires (forall d | 0 <= d < |s.calls| && d != c :: t.calls[d] == s.calls[d])
    requires t.runs == s.runs + [c]
    ensures RunsOk(t)
  {
    assert c !in s.runs;
  }

  lemma EndKeeps<W>(s: Pool<W>, w: W)
    requires Inv(s) && Enabled(s, End(w))
    ensures Inv(Apply(s, End(w)))
  {
    var t, c := Apply(s, End(w)), s.workers[w].task.value;
    Working(s, w);
    SameRuns(s, t);
    WorkedAt(s, t, c, w);
    assert t.workers[w] == Worker(Some(c), Ran) && t.calls[c] == Finished && !s.calls[c].Finished?;
    hide Apply, Enabled, Local, RunsOk, Threads;
    LocalKeeps(s, t, c, w);
  }

  lemma ReturnKeeps<W>(s: Pool<W>, w: W)
    requires Inv(s) && Enabled(s, Return(w))
    ensures Inv(Apply(s, Return(w)))
  {
    var t := Apply(s, Return(w));
    Working(s, w);
    var c := s.owner[w];
    assert s.workers[w] == Worker(None, Cleared) && s.calls[c].Finished?;
    SameRuns(s, t);
    ReturnedAt(s, w);
    hide Apply, Enabled, Local, RunsOk, Threads;
    assert CallOk(s, c);
    LocalKeeps(s, t, c, w);
  }

  lemma ReturnedAt<W>(s: Pool<W>, w: W)
    requires Threads(s) && Enabled(s, Return(w)) && w in s.busy && s.owner[w] < |s.calls|
    ensures var t := Apply(s, Return(w));
            && Threads(t) && Local(s, t, s.owner[w], w) && t.calls == s.calls
            && t.workers[w] == Worker(s.workers[w].task, PutBack) && w in t.idle && w !in t.busy
  {
    SetSizes(s.busy, s.idle, w);
  }

  lemma ResetKeeps<W>(s: Pool<W>, w: W)
    requires Inv(s) && Enabled(s, Reset(w))
    ensures Inv(Apply(s, Reset(w)))
  {
    var t := Apply(s, Reset(w));
    Working(s, w);
    var c := s.owner[w];
    SameRuns(s, t);
    WorkedAt(s, t, c, w);
    assert t.workers[w] == Worker(None, Cleared) && t.calls[c] == Finished;
    hide Apply, Enabled, Local, RunsOk, Threads;
    LocalKeeps(s, t, c, w);
  }

  lemma ReleaseKeeps<W>(s: Pool<W>, w: W)
    requires Inv(s) && Enabled(s, Release(w))
    ensures Inv(Apply(s, Release(w)))
  {
    var t := Apply(s, Release(w));
    SameRuns(s, t);
    hide RunsOk;
    ReleaseLinks(s, w);
  }

  lemma ReleaseLinks<W>(s: Pool<W>, w: W)
    requires LinksOk(s) && Enabled(s, Release(w))
    ensures LinksOk(Apply(s, Release(w)))
  {
    var t := Apply(s, Release(w));
    ReleasedAt(s, w);
    hide Apply, Enabled, Threads, WorkerOk;
    forall v | v in t.workers
      ensures WorkerOk(t, v)
    {
      OneReleased(s, t, w, v);
    }
    forall c: nat | c < |t.calls|
      ensures CallOk(t, c)
    {
      assert CallOk(s, c);
    }
  }

  lemma OneReleased<W>(s: Pool<W>, t: Pool<W>, w: W, v: W)
    requires Threads(s) && Threads(t) && v in s.workers && WorkerOk(s, v)
    requires w in s.workers && s.workers[w].mode.PutBack?
    requires t.calls == s.calls && t.idle == s.idle && t.busy == s.busy && t.owner == s.owner
    requires t.workers == s.workers[w := Worker(s.workers[w].task, Free)]
    ensures WorkerOk(t, v)
  {
  }

  lemma ReleasedAt<W>(s: Pool<W>, w: W)
    requires Threads(s) && Enabled(s, Release(w))
    ensures var t := Apply(s, Release(w));
            && Threads(t) && t.calls == s.calls && t.idle == s.idle && t.busy == s.busy && t.owner == s.owner
            && t.workers == s.workers[w := Worker(s.workers[w].task, Free)] && s.workers[w].mode.PutBack?
  {
  }

  /** Every step keeps the invariant. */
  lemma StepKeeps<W>(s: Pool<W>, e: Step<W>)
    requires Inv(s) && Enabled(s, e)
    ensures Inv(Apply(s, e))
  {
    hide Inv;
    match e
    case Exec(timed) => ExecKeeps(s, timed);
    case Grab(c, w) => TakenKeeps(s, c, w);
    case Create(c, w) => CreateKeeps(s, c, w);
    case Block(c) => CallKeeps(s, c, Waiting(s.calls[c].timed));
    case Wake(c, w) => TakenKeeps(s, c, w);
    case Expire(c) => CallKeeps(s, c, TimedOut);
    case SetTask(c) => SetTaskKeeps(s, c);
    case SetNull(c) => SetNullKeeps(s, c);
    case Begin(w) => BeginKeeps(s, w);
    case End(w) => EndKeeps(s, w);
    case Reset(w) => ResetKeeps(s, w);
    case Return(w) => ReturnKeeps(s, w);
    case Release(w) => ReleaseKeeps(s, w);
  }

  // ---------------------------------------------------------------- whole runs

  /** Where a run leads, if every step of it can be taken. */
  ghost function Run<W>(s: Pool<W>, run: seq<Step<W>>): Option<Pool<W>> {
    if run == [] then Some(s)
    else
      var t := Run(s, run[..|run| - 1]);
      if t.Some? && Enabled(t.value, run[|run| - 1]) then Some(Apply(t.value, run[|run| - 1])) else None
  }

  function Fresh<W>(max: nat): Pool<W> { Pool(max, {}, {}, map[], [], map[], []) }

  lemma {:induction false} RunKeeps<W>(s: Pool<W>, run: seq<Step<W>>)
    requires Inv(s) && Run(s, run).Some?
    ensures Inv(Run(s, run).value) && Run(s, run).value.max == s.max
  {
    hide Inv, Enabled;
    if run != [] {
      RunKeeps(s, run[..|run| - 1]);
      StepKeeps(Run(s, run[..|run| - 1]).value, run[|run| - 1]);
    }
  }

  /** With no busy thread, the condition `waitAll` waits for, no call has a thread and every task
      handed over has finished. */
  lemma NothingBusy<W>(s: Pool<W>, c: nat)
    requires Inv(s) && s.busy == {} && c < |s.calls|
    ensures s.calls[c].Asking? || s.calls[c].Waiting? || s.calls[c].TimedOut? || (s.calls[c].Finished? && c in s.runs)
  {
    assert CallOk(s, c);
  }

  /** In every run: idle and busy threads are apart and no more than the maximum, an idle thread has no
      task, no task is run twice, and none is lost when nothing is busy. */
  lemma PoolIsSafe<W>(max: nat, run: seq<Step<W>>)
    requires Run(Fresh<W>(max), run).Some?
    ensures var t := Run(Fresh<W>(max), run).value;
            && t.idle !! t.busy && |t.idle| + |t.busy| <= max
            && (forall w | w in t.idle :: w in t.workers && t.workers[w].task == None)
            && (forall i, j | 0 <= i < j < |t.runs| :: t.runs[i] != t.runs[j])
            && (t.busy == {} ==> forall c | 0 <= c < |t.calls| && !t.calls[c].Asking? && !t.calls[c].Waiting?
              && !t.calls[c].TimedOut? ::
                  t.calls[c].Finished? && c in t.runs)
  {
    var s := Fresh<W>(max);
    assert Inv(s);
    RunKeeps(s, run);
    var t := Run(s, run).value;
    hide Run, Enabled;
    forall w | w in t.idle
      ensures t.workers[w].task == None
    {
      assert WorkerOk(t, w);
    }
    if t.busy == {} {
      forall c: nat | c < |t.calls| && !t.calls[c].Asking? && !t.calls[c].Waiting? && !t.calls[c].TimedOut?
        ensures t.calls[c].Finished? && c in t.runs
      {
        NothingBusy(t, c);
      }
    }
  }

  /** What a call that asks for a thread gets: an idle one if there is any, else a new one while there are
      fewer than the maximum, else it has to wait. */
  lemma AskingGets<W>(s: Pool<W>, c: nat)
    requires Inv(s) && c < |s.calls| && s.calls[c].Asking?
    ensures forall w :: Enabled(s, Grab(c, w)) <==> w in s.idle
    ensures forall w | w !in s.workers :: Enabled(s, Create(c, w)) <==> s.idle == {} && |s.workers| < s.max
    ensures Enabled(s, Block(c)) <==> s.idle == {} && |s.workers| == s.max
  {
    assert |s.workers.Keys| == |s.idle + s.busy| == |s.idle| + |s.busy|;
  }

  /** A call that may wait for ever. */
  predicate Patient<W>(k: Call<W>) { k != Asking(true) && k != Waiting(true) && !k.TimedOut? }

  lemma PatientStays<W>(s: Pool<W>, e: Step<W>, c: nat)
    requires Enabled(s, e) && c < |s.calls| && Patient(s.calls[c])
    ensures var calls := Apply(s, e).calls; c < |calls| && Patient(calls[c])
  {
  }

  /** A call without a time limit never times out, and one that has timed out is never begun. */
  lemma {:induction false} NeverTimesOut<W>(s: Pool<W>, c: nat, run: seq<Step<W>>)
    requires Inv(s) && At(s, c, Asking(false)) && Run(s, run).Some?
    ensures var t := Run(s, run).value; c < |t.calls| && !t.calls[c].TimedOut? && Patient(t.calls[c])
    ensures var t := Run(s, run).value; forall d: nat | At(t, d, TimedOut) :: d !in t.runs
  {
    RunKeeps(s, run);
    if run != [] {
      hide Inv, Enabled;
      NeverTimesOut(s, c, run[..|run| - 1]);
      PatientStays(Run(s, run[..|run| - 1]).value, run[|run| - 1], c);
    }
  }

  /** How far a busy thread is from being idle again. */
  function Rank<W>(s: Pool<W>, w: W): nat {
    if w !in s.workers || w !in s.owner || s.owner[w] >= |s.calls| then 0
    else match s.calls[s.owner[w]]
      case Holding(_) => if s.workers[w].mode.PutBack? then 6 else 5
      case Queued(_) => 4
      case Started(_) => 3
      case Finished => if s.workers[w].mode.Ran? then 2 else 1
      case _ => 0
  }

  predicate Served<W>(k: Call<W>) { Has(k) || k.Finished? }

  ghost predicate NoNull<W>(s: Pool<W>) { forall k | k in s.calls :: !k.Void? }

  /** A busy thread can always take a step that brings it nearer to being idle, unless it was handed a null
      pointer. */
  lemma WorkStep<W>(s: Pool<W>, w: W) returns (e: Step<W>)
    requires Inv(s) && NoNull(s) && w in s.busy
    ensures Enabled(s, e) && NoNull(Apply(s, e)) && |Apply(s, e).calls| == |s.calls|
    ensures Apply(s, e).busy == (if e.Return? then s.busy - {w} else s.busy)
    ensures !e.Return? ==> Rank(Apply(s, e), w) < Rank(s, w)
    ensures forall d: nat | d < |s.calls| && Served(s.calls[d]) :: Served(Apply(s, e).calls[d])
  {
    assert WorkerOk(s, w);
    var c := s.owner[w];
    assert s.calls[c] in s.calls;
    match s.calls[c]
    case Holding(_) => e := if s.workers[w].mode.PutBack? then Release(w) else SetTask(c);
    case Queued(_) => e := Begin(w);
    case Started(_) => e := End(w);
    case Finished => e := if s.workers[w].mode.Ran? then Reset(w) else Return(w);
  }

  ghost predicate StillServed<W>(s: Pool<W>, t: Pool<W>) {
    |t.calls| == |s.calls| && forall c: nat | c < |s.calls| && Served(s.calls[c]) :: Served(t.calls[c])
  }

  /** So it gets there, and no other thread has to move for that. */
  lemma {:induction false} GetsIdle<W>(s0: Pool<W>, run: seq<Step<W>>, w: W) returns (more: seq<Step<W>>)
    requires Inv(s0) && Run(s0, run).Some? && NoNull(Run(s0, run).value) && w in Run(s0, run).value.busy
    ensures run <= more && Run(s0, more).Some? && NoNull(Run(s0, more).value)
    ensures Run(s0, more).value.busy == Run(s0, run).value.busy - {w}
    ensures StillServed(Run(s0, run).value, Run(s0, more).value)
    decreases Rank(Run(s0, run).value, w)
  {
    RunKeeps(s0, run);
    var s := Run(s0, run).value;
    hide Inv, NoNull, Rank, Apply, Enabled, Served;
    var e := WorkStep(s, w);
    more := run + [e];
    NextRun(s0, run, e);
    if !e.Return? {
      more := GetsIdle(s0, more, w);
    }
  }

  lemma NextRun<W>(s: Pool<W>, run: seq<Step<W>>, e: Step<W>)
    requires Run(s, run).Some? && Enabled(Run(s, run).value, e)
    ensures Run(s, run + [e]) == Some(Apply(Run(s, run).value, e))
  {
    assert (run + [e])[..|run|] == run;
    hide Apply, Enabled;
  }

  /** From every reachable state without null pointers all threads can come to be idle: then every call that
      has a thread has had its task run. */
  lemma {:induction false} AllGetIdle<W>(s0: Pool<W>, run: seq<Step<W>>) returns (more: seq<Step<W>>)
    requires Inv(s0) && Run(s0, run).Some? && NoNull(Run(s0, run).value)
    ensures run <= more && Run(s0, more).Some? && Run(s0, more).value.busy == {}
    ensures var s, t := Run(s0, run).value, Run(s0, more).value;
            |t.calls| == |s.calls| && forall c: nat | c < |s.calls| && Served(s.calls[c]) :: t.calls[c].Finished?
    decreases |Run(s0, run).value.busy|
  {
    more := run;
    var s := Run(s0, run).value;
    if s.busy != {} {
      hide Inv, NoNull, Run, Served;
      var w :| w in s.busy;
      more := GetsIdle(s0, run, w);
      more := AllGetIdle(s0, more);
    } else {
      RunKeeps(s0, run);
      hide Run, NoNull;
      forall c: nat | c < |s.calls| && Served(s.calls[c])
        ensures s.calls[c].Finished?
      {
        NothingBusy(s, c);
      }
    }
  }

  /** A thread that was handed a null pointer takes no step, and no step of another changes that. */
  lemma NullStays<W>(s: Pool<W>, c: nat, w: W, e: Step<W>)
    requires Inv(s) && At(s, c, Void(w)) && Enabled(s, e)
    ensures At(Apply(s, e), c, Void(w)) && !IsStepOf(e, w)
  {
    NullIsBusy(s, c, w);
    if e.Begin? || e.End? {
      OtherTask(s, e.w, c);
    }
    hide Inv, Apply;
    CallStays(s, c, e);
  }

  predicate IsStepOf<W(==)>(e: Step<W>, w: W) {
    (e.Begin? || e.End? || e.Reset? || e.Return? || e.Release?) && e.w == w
  }

  lemma CallStays<W>(s: Pool<W>, c: nat, e: Step<W>)
    requires Enabled(s, e) && c < |s.calls| && s.calls[c].Void?
    requires e.Begin? || e.End? ==> s.workers[e.w].task.value != c
    ensures var calls := Apply(s, e).calls; c < |calls| && calls[c] == s.calls[c]
  {
  }

  /** The task that a thread holds is not that of a call with a null pointer. */
  lemma OtherTask<W>(s: Pool<W>, v: W, c: nat)
    requires Inv(s) && v in s.workers && s.workers[v].task.Some? && c < |s.calls| && s.calls[c].Void?
    ensures s.workers[v].task.value != c
  {
    Working(s, v);
  }

  /** It stays busy in every run, so the condition of `waitAll` never comes. */
  lemma {:induction false} NullForever<W>(s: Pool<W>, c: nat, w: W, run: seq<Step<W>>)
    requires Inv(s) && At(s, c, Void(w)) && Run(s, run).Some?
    ensures var t := Run(s, run).value; At(t, c, Void(w)) && w in t.busy && c !in t.runs
  {
    if run != [] {
      var init := run[..|run| - 1];
      RunKeeps(s, init);
      NullForever(s, c, w, init);
      hide Inv, Enabled;
      NullStays(Run(s, init).value, c, w, run[|run| - 1]);
    }
    RunKeeps(s, run);
    hide Run;
    NullIsBusy(Run(s, run).value, c, w);
  }

  lemma NullIsBusy<W>(t: Pool<W>, c: nat, w: W)
    requires Inv(t) && At(t, c, Void(w))
    ensures w in t.busy && c !in t.runs && w in t.workers && t.workers[w] == Worker(None, Free) && w !in t.idle
  {
    assert CallOk(t, c);
    assert WorkerOk(t, w);
  }

  // ---------------------------------------------------------------- the code

  /** `e` can be taken in `s` and leads to `t`. */
  ghost predicate Steps<W>(s: Pool<W>, e: Step<W>, t: Pool<W>) {
    Enabled(s, e) && t == Apply(s, e)
  }

  /** What the parts of the state become. */
  lemma StepIs<W>(s: Pool<W>, e: Step<W>) returns (t: Pool<W>)
    requires Inv(s) && Enabled(s, e)
    ensures Inv(t) && Steps(s, e, t) && t.max == s.max
  {
    t := Apply(s, e);
    StepKeeps(s, e);
    hide Inv, Enabled;
  }

  // Where each step leads, field by field.

  lemma CallIs<W>(s: Pool<W>, timed: bool) returns (t: Pool<W>)
    requires Inv(s)
    ensures Inv(t) && Steps(s, Exec(timed), t) && t.max == s.max
    ensures t.idle == s.idle && t.busy == s.busy && t.workers == s.workers
  {
    hide Inv;
    t := StepIs(s, Exec(timed));
  }

  lemma BlockIs<W>(s: Pool<W>, c: nat) returns (t: Pool<W>)
    requires Inv(s) && c < |s.calls| && s.calls[c].Asking? && s.idle == {} && |s.busy| >= s.max
    ensures Inv(t) && Steps(s, Block(c), t) && t.max == s.max
    ensures t.idle == s.idle && t.busy == s.busy && t.workers == s.workers
  {
    hide Inv;
    t := StepIs(s, Block(c));
  }

  lemma GrabIs<W>(s: Pool<W>, c: nat, w: W) returns (t: Pool<W>)
    requires Inv(s) && c < |s.calls| && s.calls[c].Asking? && w in s.idle
    ensures Inv(t) && Steps(s, Grab(c, w), t) && t.max == s.max
    ensures t.idle == s.idle - {w} && t.busy == s.busy + {w} && t.workers == s.workers
  {
    hide Inv;
    t := StepIs(s, Grab(c, w));
  }

  lemma WakeIs<W>(s: Pool<W>, c: nat, w: W) returns (t: Pool<W>)
    requires Inv(s) && c < |s.calls| && s.calls[c].Waiting? && w in s.idle
    ensures Inv(t) && Steps(s, Wake(c, w), t) && t.max == s.max
    ensures t.idle == s.idle - {w} && t.busy == s.busy + {w} && t.workers == s.workers
  {
    hide Inv;
    t := StepIs(s, Wake(c, w));
  }

  lemma CreateIs<W>(s: Pool<W>, c: nat, w: W) returns (t: Pool<W>)
    requires Inv(s) && c < |s.calls| && s.calls[c].Asking? && s.idle == {} && |s.busy| < s.max && w !in s.workers
    ensures Inv(t) && Steps(s, Create(c, w), t) && t.max == s.max
    ensures t.idle == {} && t.busy == s.busy + {w} && t.workers == s.workers[w := Worker(None, Free)]
  {
    hide Inv;
    t := StepIs(s, Create(c, w));
  }

  lemma ExpireIs<W>(s: Pool<W>, c: nat) returns (t: Pool<W>)
    requires Inv(s) && c < |s.calls| && s.calls[c] == Waiting(true) && s.idle == {}
    ensures Inv(t) && Steps(s, Expire(c), t) && t.max == s.max
    ensures t.idle == s.idle && t.busy == s.busy && t.workers == s.workers
  {
    hide Inv;
    t := StepIs(s, Expire(c));
  }

  lemma SetTaskIs<W>(s: Pool<W>, c: nat, w: W) returns (t: Pool<W>)
    requires Inv(s) && c < |s.calls| && s.calls[c] == Holding(w) && (w in s.workers ==> s.workers[w].mode.Free?)
    ensures w in s.busy && w in s.workers && s.workers[w] == Worker(None, Free)
    ensures Inv(t) && Steps(s, SetTask(c), t) && t.max == s.max
    ensures t.idle == s.idle && t.busy == s.busy && t.workers == s.workers[w := Worker(Some(c), Free)]
  {
    assert CallOk(s, c);
    assert WorkerOk(s, w);
    t := StepIs(s, SetTask(c));
    hide Inv;
  }

  lemma SetNullIs<W>(s: Pool<W>, c: nat, w: W) returns (t: Pool<W>)
    requires Inv(s) && c < |s.calls| && s.calls[c] == Holding(w) && (w in s.workers ==> s.workers[w].mode.Free?)
    ensures w in s.busy && w in s.workers && s.workers[w] == Worker(None, Free)
    ensures Inv(t) && Steps(s, SetNull(c), t) && t.max == s.max
    ensures t.idle == s.idle && t.busy == s.busy && t.workers == s.workers
  {
    assert CallOk(s, c);
    assert WorkerOk(s, w);
    t := StepIs(s, SetNull(c));
    hide Inv;
  }

  lemma BeginIs<W>(s: Pool<W>, w: W) returns (t: Pool<W>)
    requires Inv(s) && w in s.workers && s.workers[w].mode.Free? && s.workers[w].task.Some?
    ensures Inv(t) && Steps(s, Begin(w), t) && t.max == s.max
    ensures t.idle == s.idle && t.busy == s.busy && t.workers == s.workers[w := Worker(s.workers[w].task, Running)]
  {
    Working(s, w);
    t := StepIs(s, Begin(w));
    hide Inv;
  }

  lemma EndIs<W>(s: Pool<W>, w: W) returns (t: Pool<W>)
    requires Inv(s) && w in s.workers && s.workers[w].mode.Running?
    ensures Inv(t) && Steps(s, End(w), t) && t.max == s.max
    ensures t.idle == s.idle && t.busy == s.busy && t.workers == s.workers[w := Worker(s.workers[w].task, Ran)]
  {
    Working(s, w);
    t := StepIs(s, End(w));
    hide Inv;
  }

  lemma ResetIs<W>(s: Pool<W>, w: W) returns (t: Pool<W>)
    requires Inv(s) && w in s.workers && s.workers[w].mode.Ran?
    ensures Inv(t) && Steps(s, Reset(w), t) && t.max == s.max
    ensures t.idle == s.idle && t.busy == s.busy && t.workers == s.workers[w := Worker(None, Cleared)]
  {
    hide Inv;
    t := StepIs(s, Reset(w));
  }

  lemma ReturnIs<W>(s: Pool<W>, w: W) returns (t: Pool<W>)
    requires Inv(s) && w in s.workers && s.workers[w].mode.Cleared?
    ensures Inv(t) && Steps(s, Return(w), t) && t.max == s.max
    ensures t.idle == s.idle + {w} && t.busy == s.busy - {w}
    ensures t.workers == s.workers[w := Worker(s.workers[w].task, PutBack)]
  {
    hide Inv;
    t := StepIs(s, Return(w));
  }

  lemma ReleaseIs<W>(s: Pool<W>, w: W) returns (t: Pool<W>)
    requires Inv(s) && w in s.workers && s.workers[w].mode.PutBack?
    ensures Inv(t) && Steps(s, Release(w), t) && t.max == s.max
    ensures t.idle == s.idle && t.busy == s.busy && t.workers == s.workers[w := Worker(s.workers[w].task, Free)]
  {
    hide Inv;
    t := StepIs(s, Release(w));
  }

  class TaskThread {
    var m_task: Option<nat>
    ghost var mode: Mode

    constructor ()
      ensures m_task == None && mode == Free
    {
      m_task, mode := None, Free;
    }

    ghost function State(): Worker
      reads this
    {
      Worker(m_task, mode)
    }
  }

  /** The pool.  Each method is one region under a lock; between two of them any others may come. */
  class ThreadPool {
    const m_maxSize: nat
    var m_idelThreads: set<TaskThread>
    var m_busyThreads: set<TaskThread>
    /** The state of the protocol that the fields stand for. */
    ghost var s: Pool<TaskThread>

    ghost predicate Linked()
      reads this, m_idelThreads + m_busyThreads
    {
      && s.max == m_maxSize && s.idle == m_idelThreads && s.busy == m_busyThreads
      && s.workers.Keys == m_idelThreads + m_busyThreads
      && forall t | t in m_idelThreads + m_busyThreads :: s.workers[t] == t.State()
    }

    ghost predicate Valid()
      reads this, m_idelThreads + m_busyThreads
    {
      Linked() && Inv(s)
    }

    constructor (maxSize: nat)
      ensures Valid() && s == Fresh(maxSize)
    {
      m_maxSize := maxSize;
      m_idelThreads, m_busyThreads := {}, {};
      s := Fresh(maxSize);
    }

    /** A call of `exec` comes in. */
    ghost method Call(timed: bool)
      requires Valid()
      modifies `s
      ensures Valid() && Steps(old(s), Exec(timed), s)
    {
      hide Inv, Steps;
      var t := CallIs(s, timed);
      s := t;
    }

    /** `getThread` up to its wait; `None` when it has to wait. */
    method GetThread(ghost c: nat) returns (r: Option<TaskThread>)
      requires Valid() && c < |s.calls| && s.calls[c].Asking?
      modifies this
      ensures Valid()
      ensures r.None? ==> Steps(old(s), Block(c), s)
      ensures r.Some? && r.value in old(m_idelThreads) ==> Steps(old(s), Grab(c, r.value), s)
      ensures r.Some? && r.value !in old(m_idelThreads) ==> fresh(r.value) && Steps(old(s), Create(c, r.value), s)
    {
      hide Inv, Steps;
      if m_idelThreads != {} {
        var t := TakeIdle(c, false);
        r := Some(t);
      } else if |m_idelThreads| + |m_busyThreads| < m_maxSize {
        var t := NewThread(c);
        r := Some(t);
      } else {
        ghost var next := BlockIs(s, c);
        s := next;
        r := None;
      }
    }

    method NewThread(ghost c: nat) returns (t: TaskThread)
      requires Valid() && c < |s.calls| && s.calls[c].Asking?
      requires m_idelThreads == {} && |m_idelThreads| + |m_busyThreads| < m_maxSize
      modifies this
      ensures Valid() && fresh(t) && Steps(old(s), Create(c, t), s)
    {
      hide Inv, Steps;
      t := new TaskThread();
      ghost var next := CreateIs(s, c, t);
      m_busyThreads := m_busyThreads + {t};
      s := next;
    }

    /** Takes some thread of the idle set: at once, or when a wait ends. */
    method TakeIdle(ghost c: nat, ghost waited: bool) returns (t: TaskThread)
      requires Valid() && c < |s.calls| && (if waited then s.calls[c].Waiting? else s.calls[c].Asking?)
      requires m_idelThreads != {}
      modifies this
      ensures Valid() && t in old(m_idelThreads) && Steps(old(s), if waited then Wake(c, t) else Grab(c, t), s)
    {
      hide Inv, Steps;
      t :| t in m_idelThreads;
      ghost var next: Pool<TaskThread>;
      if waited {
        next := WakeIs(s, c, t);
      } else {
        next := GrabIs(s, c, t);
      }
      m_idelThreads := m_idelThreads - {t};
      m_busyThreads := m_busyThreads + {t};
      s := next;
    }

    /** A wait that runs out: the condition has been looked at once more. */
    method TimeOut(ghost c: nat) returns (gone: bool)
      requires Valid() && c < |s.calls| && s.calls[c] == Waiting(true)
      modifies `s
      ensures Valid() && gone == (m_idelThreads == {})
      ensures if gone then Steps(old(s), Expire(c), s) else s == old(s)
    {
      hide Inv, Steps;
      gone := m_idelThreads == {};
      if gone {
        ghost var next := ExpireIs(s, c);
        s := next;
      }
    }

    /** `setTask`, once the thread's mutex is free: the task, or a null pointer, goes to a thread that has
        none. */
    method SetTask(t: TaskThread, task: Option<nat>, ghost c: nat)
      requires Valid() && c < |s.calls| && s.calls[c] == Holding(t) && t.mode == Free
      requires task == None || task == Some(c)
      modifies `s, t
      ensures old(t.m_task) == None && Valid()
      ensures Steps(old(s), if task == None then SetNull(c) else Step.SetTask(c), s)
    {
      hide Inv, Steps;
      ghost var next;
      if task == None {
        next := SetNullIs(s, c, t);
      } else {
        next := SetTaskIs(s, c, t);
      }
      t.m_task := task;
      s := next;
    }

    /** The loop of a thread, from its lock on: without a task it goes round again. */
    method RunTask(t: TaskThread) returns (begun: bool)
      requires Valid() && t in m_idelThreads + m_busyThreads && t.mode == Free
      modifies `s, t
      ensures Valid() && begun == old(t.m_task).Some?
      ensures if begun then Steps(old(s), Begin(t), s) else s == old(s)
    {
      hide Inv, Steps;
      if t.m_task.None? { return false; }
      ghost var next := BeginIs(s, t);
      t.mode := Running;
      s := next;
      return true;
    }

    /** The task's own `run` returns. */
    ghost method TaskReturns(t: TaskThread)
      requires Valid() && t in m_busyThreads && t.mode == Running
      modifies `s, t
      ensures Valid() && Steps(old(s), End(t), s)
    {
      hide Inv, Steps;
      var next := EndIs(s, t);
      t.mode := Ran;
      s := next;
    }

    method ResetTask(t: TaskThread)
      requires Valid() && t in m_busyThreads && t.mode == Ran
      modifies `s, t
      ensures Valid() && Steps(old(s), Reset(t), s)
    {
      hide Inv, Steps;
      ghost var next := ResetIs(s, t);
      t.m_task := None;
      t.mode := Cleared;
      s := next;
    }

    method PutTaskThreadPtr(t: TaskThread)
      requires Valid() && t in m_busyThreads && t.mode == Cleared
      modifies this, t
      ensures Valid() && Steps(old(s), Return(t), s)
    {
      hide Inv, Steps;
      ghost var next := ReturnIs(s, t);
      m_busyThreads := m_busyThreads - {t};
      m_idelThreads := m_idelThreads + {t};
      t.mode := PutBack;
      s := next;
    }

    /** The end of the loop's body lets the thread's mutex go. */
    ghost method ReleaseMutex(t: TaskThread)
      requires Valid() && t in m_idelThreads + m_busyThreads && t.mode == PutBack
      modifies `s, t
      ensures Valid() && Steps(old(s), Release(t), s)
    {
      hide Inv, Steps;
      var next := ReleaseIs(s, t);
      t.mode := Free;
      s := next;
    }

    /** The condition of `waitAll`. */
    method AllDone() returns (done: bool)
      requires Valid()
      ensures done == (m_busyThreads == {})
      ensures done ==> forall c | 0 <= c < |s.calls| && !s.calls[c].Asking? && !s.calls[c].Waiting?
              && !s.calls[c].TimedOut? ::
                         s.calls[c].Finished? && c in s.runs
    {
      done := m_busyThreads == {};
      if done {
        forall c: nat | c < |s.calls| && !s.calls[c].Asking? && !s.calls[c].Waiting? && !s.calls[c].TimedOut?
          ensures s.calls[c].Finished? && c in s.runs
        {
          NothingBusy(s, c);
        }
      }
    }
  }
}
