/** The hashed timing wheel: 100 slots, one round counter per task, and a tick routine that takes
    whole rotations in bulk.

    The specification is one task's fate under single ticks.  `TimingWheel.DoTick` is proved to have
    the effect of that many single ticks, and the firing-time theorem is proved about whole runs of
    additions, cancellations and clock polls. */
module TimingWheels {

  const WHEEL_SIZE: nat := 100
  const UINT64: nat := 0x1_0000_0000_0000_0000

  /** What has become of a task since it was added. */
  datatype Fate = Waiting(round: nat) | Fired | Dropped

  datatype Entry = Entry(slot: nat, round: nat)

  /** The wheel as a value: tasks by identity, and how often each has been enqueued for execution. */
  datatype State<T> = State(pos: nat, tasks: map<T, Entry>, cancelled: set<T>, fired: multiset<T>)
  {
    ghost predicate Ok() {
      && pos < WHEEL_SIZE
      && forall t <- tasks :: tasks[t].slot < WHEEL_SIZE
    }
  }

  // ---------------------------------------------------------------- one task

  /** A task's slot has been passed `k` times. */
  function Visited(f: Fate, cancelled: bool, k: nat): Fate {
    if k == 0 || !f.Waiting? then f
    else if cancelled then Dropped
    else if k > f.round then Fired
    else Waiting(f.round - k)
  }

  function Next(pos: nat): nat {
    if pos + 1 < WHEEL_SIZE then pos + 1 else 0
  }

  /** Where `n` single ticks lead. */
  function Turn(pos: nat, n: nat): nat
    decreases n
  {
    if n == 0 then pos else Turn(Next(pos), n - 1)
  }

  /** How often `n` single ticks from `pos` pass `slot`. */
  function VisitCount(pos: nat, slot: nat, n: nat): nat
    decreases n
  {
    if n == 0 then 0 else (if Next(pos) == slot then 1 else 0) + VisitCount(Next(pos), slot, n - 1)
  }

  /** Ticks from `pos` until `slot` is first passed: 1 to 100. */
  function Distance(pos: nat, slot: nat): nat
    requires pos < WHEEL_SIZE && slot < WHEEL_SIZE
  {
    if slot > pos then slot - pos else slot + WHEEL_SIZE - pos
  }

  lemma {:induction false} FirstVisit(pos: nat, slot: nat, n: nat)
    requires pos < WHEEL_SIZE && slot < WHEEL_SIZE && n <= WHEEL_SIZE
    ensures VisitCount(pos, slot, n) == if n < Distance(pos, slot) then 0 else 1
    decreases n
  {
    if n > 0 {
      FirstVisit(Next(pos), slot, n - 1);
    }
  }

  lemma {:induction false} VisitCountSplit(pos: nat, slot: nat, a: nat, b: nat)
    ensures VisitCount(pos, slot, a + b) == VisitCount(pos, slot, a) + VisitCount(Turn(pos, a), slot, b)
    decreases a
  {
    if a > 0 {
      VisitCountSplit(Next(pos), slot, a - 1, b);
    }
  }

  lemma {:induction false} TurnIsModular(pos: nat, n: nat)
    requires pos < WHEEL_SIZE
    ensures Turn(pos, n) == (pos + n) % WHEEL_SIZE
    decreases n
  {
    if n > 0 {
      TurnIsModular(Next(pos), n - 1);
    }
  }

  /** Each whole rotation passes each slot once: what the bulk branch of `DoTick` relies on. */
  lemma {:induction false} Rotations(pos: nat, slot: nat, rounds: nat, rest: nat)
    requires pos < WHEEL_SIZE && slot < WHEEL_SIZE && rest < WHEEL_SIZE
    ensures VisitCount(pos, slot, rounds * WHEEL_SIZE + rest) == rounds + if rest < Distance(pos, slot) then 0 else 1
    decreases rounds
  {
    if rounds == 0 {
      FirstVisit(pos, slot, rest);
    } else {
      var n := (rounds - 1) * WHEEL_SIZE + rest;
      VisitCountSplit(pos, slot, WHEEL_SIZE, n);
      FirstVisit(pos, slot, WHEEL_SIZE);
      TurnIsModular(pos, WHEEL_SIZE);
      Rotations(pos, slot, rounds - 1, rest);
    }
  }

  /** The tick, counted from the addition, at which a task with adjusted delay `d` is enqueued. */
  function DueTick(d: nat): nat {
    if d % WHEEL_SIZE != 0 then d else d + WHEEL_SIZE
  }

  /** A task placed for an adjusted delay `d` has been passed often enough exactly when
      `DueTick(d)` ticks have gone by. */
  lemma FiresExactlyWhenDue(d: nat, pos: nat, n: nat)
    requires pos < WHEEL_SIZE
    ensures VisitCount(pos, (pos + d % WHEEL_SIZE) % WHEEL_SIZE, n) > d / WHEEL_SIZE <==> n >= DueTick(d)
  {
    var q, r, rounds, rest := d / WHEEL_SIZE, d % WHEEL_SIZE, n / WHEEL_SIZE, n % WHEEL_SIZE;
    var slot := if pos + r < WHEEL_SIZE then pos + r else pos + r - WHEEL_SIZE;
    SlotIs(pos, r, slot);
    assert d == q * WHEEL_SIZE + r && n == rounds * WHEEL_SIZE + rest;
    hide VisitCount, Distance;
    Rotations(pos, slot, rounds, rest);
  }

  /** The slot `r` places on is first passed after `r` ticks, the slot itself after a whole rotation. */
  lemma SlotIs(pos: nat, r: nat, slot: nat)
    requires pos < WHEEL_SIZE && r < WHEEL_SIZE
    requires slot == if pos + r < WHEEL_SIZE then pos + r else pos + r - WHEEL_SIZE
    ensures slot < WHEEL_SIZE && (pos + r) % WHEEL_SIZE == slot
    ensures Distance(pos, slot) == if r == 0 then WHEEL_SIZE else r
  {
  }

  // ---------------------------------------------------------------- the wheel as a value

  ghost function FateOf<T>(s: State<T>, t: T, visits: nat -> nat): Fate
    requires t in s.tasks
  {
    Visited(Waiting(s.tasks[t].round), t in s.cancelled, visits(s.tasks[t].slot))
  }

  ghost function FiredBy<T>(s: State<T>, visits: nat -> nat): set<T> {
    set t | t in s.tasks && FateOf(s, t, visits).Fired?
  }

  ghost function WaitingAfter<T>(s: State<T>, visits: nat -> nat): map<T, Entry> {
    map t | t in s.tasks && FateOf(s, t, visits).Waiting? :: Entry(s.tasks[t].slot, FateOf(s, t, visits).round)
  }

  /** Every slot is passed as often as `visits` says. */
  ghost function Pass<T>(s: State<T>, visits: nat -> nat): (r: State<T>)
    ensures s.Ok() ==> r.Ok()
  {
    State(s.pos, WaitingAfter(s, visits), s.cancelled, s.fired + multiset(FiredBy(s, visits)))
  }

  /** Only slot `slot` is passed, `k` times. */
  ghost function Only(slot: nat, k: nat): nat -> nat {
    i => if i == slot then k else 0
  }

  ghost function Visits(pos: nat, n: nat): nat -> nat {
    i => VisitCount(pos, i, n)
  }

  /** One tick: move one slot on and pass that slot once. */
  ghost function Tick<T>(s: State<T>): (r: State<T>)
    requires s.Ok()
    ensures r.Ok()
  {
    Pass(s.(pos := Next(s.pos)), Only(Next(s.pos), 1))
  }

  /** The reference: `n` single ticks. */
  ghost function Ticks<T>(s: State<T>, n: nat): State<T>
    requires s.Ok()
    decreases n
  {
    if n == 0 then s else Ticks(Tick(s), n - 1)
  }

  lemma FateTwice<T>(s: State<T>, t: T, a: nat -> nat, b: nat -> nat, c: nat -> nat)
    requires t in s.tasks && c(s.tasks[t].slot) == a(s.tasks[t].slot) + b(s.tasks[t].slot)
    ensures FateOf(s, t, c) ==
      if t in WaitingAfter(s, a) then FateOf(Pass(s, a), t, b) else FateOf(s, t, a)
  {
  }

  lemma WaitingTwice<T>(s: State<T>, a: nat -> nat, b: nat -> nat, c: nat -> nat)
    requires forall i: nat :: c(i) == a(i) + b(i)
    ensures WaitingAfter(Pass(s, a), b) == WaitingAfter(s, c)
  {
    forall t | t in s.tasks {
      FateTwice(s, t, a, b, c);
    }
  }

  lemma FiredTwice<T>(s: State<T>, a: nat -> nat, b: nat -> nat, c: nat -> nat)
    requires forall i: nat :: c(i) == a(i) + b(i)
    ensures FiredBy(s, a) !! FiredBy(Pass(s, a), b)
    ensures FiredBy(s, c) == FiredBy(s, a) + FiredBy(Pass(s, a), b)
  {
    forall t | t in s.tasks {
      FateTwice(s, t, a, b, c);
    }
  }

  lemma MultisetOfUnion<T>(m: multiset<T>, a: set<T>, b: set<T>)
    requires a !! b
    ensures m + multiset(a) + multiset(b) == m + multiset(a + b)
  {
  }

  ghost predicate Distinct<T>(xs: seq<T>) {
    forall i, j | 0 <= i < j < |xs| :: xs[i] != xs[j]
  }

  lemma {:induction false} DistinctAsSet<T>(xs: seq<T>, s: set<T>)
    requires Distinct(xs) && forall x :: x in xs <==> x in s
    ensures multiset(xs) == multiset(s)
  {
    if xs == [] {
      assert s == {};
    } else {
      DistinctAsSet(xs[1..], s - {xs[0]});
      assert xs == [xs[0]] + xs[1..];
    }
  }

  lemma PassTwice<T>(s: State<T>, a: nat -> nat, b: nat -> nat, c: nat -> nat)
    requires forall i: nat :: c(i) == a(i) + b(i)
    ensures Pass(Pass(s, a), b) == Pass(s, c)
  {
    WaitingTwice(s, a, b, c);
    FiredTwice(s, a, b, c);
    MultisetOfUnion(s.fired, FiredBy(s, a), FiredBy(Pass(s, a), b));
  }

  lemma PassNothing<T>(s: State<T>, visits: nat -> nat)
    requires forall t <- s.tasks :: visits(s.tasks[t].slot) == 0
    ensures Pass(s, visits) == s
  {
    assert WaitingAfter(s, visits) == s.tasks;
    assert FiredBy(s, visits) == {};
  }

  lemma {:induction false} TicksArePasses<T>(s: State<T>, n: nat)
    requires s.Ok()
    ensures Ticks(s, n) == Pass(s, Visits(s.pos, n)).(pos := Turn(s.pos, n))
    decreases n
  {
    if n == 0 {
      PassNothing(s, Visits(s.pos, 0));
    } else {
      var next := Next(s.pos);
      TicksArePasses(Tick(s), n - 1);
      PassTwice(s.(pos := next), Only(next, 1), Visits(next, n - 1), Visits(s.pos, n));
      assert Pass(s, Visits(s.pos, n)) == Pass(s.(pos := next), Visits(s.pos, n)).(pos := s.pos);
    }
  }

  /** Splitting time into ticks differently changes nothing. */
  lemma {:induction false} TicksCompose<T>(s: State<T>, a: nat, b: nat)
    requires s.Ok()
    ensures Ticks(s, a).Ok() && Ticks(Ticks(s, a), b) == Ticks(s, a + b)
    decreases a
  {
    if a > 0 {
      TicksCompose(Tick(s), a - 1, b);
    }
  }

  lemma PassAgree<T>(s: State<T>, a: nat -> nat, b: nat -> nat)
    requires s.Ok() && forall i: nat | i < WHEEL_SIZE :: a(i) == b(i)
    ensures Pass(s, a) == Pass(s, b)
  {
    assert WaitingAfter(s, a) == WaitingAfter(s, b);
    assert FiredBy(s, a) == FiredBy(s, b);
  }

  /** Sleeping while every task is further away than `k` slots loses nothing: the ticks only turn the wheel. */
  lemma IdleTicks<T>(s: State<T>, k: nat)
    requires s.Ok() && k < WHEEL_SIZE
    requires forall t <- s.tasks :: k < Distance(s.pos, s.tasks[t].slot)
    ensures Ticks(s, k) == s.(pos := (s.pos + k) % WHEEL_SIZE)
  {
    TicksArePasses(s, k);
    TurnIsModular(s.pos, k);
    forall t <- s.tasks {
      FirstVisit(s.pos, s.tasks[t].slot, k);
    }
    PassNothing(s, Visits(s.pos, k));
  }

  /** A pass in progress from `pos`: the slots up to distance `i - 1` got `k` more than the others. */
  ghost function Sweep(pos: nat, base: nat, k: nat, i: nat): nat -> nat
    requires pos < WHEEL_SIZE
  {
    (slot: nat) => base + if slot < WHEEL_SIZE && Distance(pos, slot) < i then k else 0
  }

  lemma SweepStep<T>(s: State<T>, base: nat, k: nat, i: nat, pos: nat, s1: State<T>, s2: State<T>)
    requires s.Ok() && 1 <= i <= WHEEL_SIZE && pos == (s.pos + i) % WHEEL_SIZE
    requires s1 == Pass(s, Sweep(s.pos, base, k, i))
    requires s2 == Pass(s1, Only(pos, k))
    ensures s2 == Pass(s, Sweep(s.pos, base, k, i + 1))
  {
    PassTwice(s, Sweep(s.pos, base, k, i), Only(pos, k), Sweep(s.pos, base, k, i + 1));
  }

  /** A sweep that has not begun, and one that has gone all the way round. */
  lemma SweepEnds<T>(s: State<T>, k: nat)
    requires s.Ok()
    ensures Pass(s, Sweep(s.pos, 0, k, 1)) == s
    ensures Pass(s, Sweep(s.pos, 0, 1, 1)) == s
    ensures Pass(s, Sweep(s.pos, 0, k, WHEEL_SIZE + 1)) == Pass(s, Sweep(s.pos, k, 1, 1))
  {
    PassNothing(s, Sweep(s.pos, 0, k, 1));
    PassNothing(s, Sweep(s.pos, 0, 1, 1));
    PassAgree(s, Sweep(s.pos, 0, k, WHEEL_SIZE + 1), Sweep(s.pos, k, 1, 1));
  }

  lemma SweepIsTicks<T>(s: State<T>, n: nat)
    requires s.Ok()
    ensures Pass(s, Sweep(s.pos, n / WHEEL_SIZE, 1, n % WHEEL_SIZE + 1)).(pos :=
            (s.pos + n % WHEEL_SIZE) % WHEEL_SIZE) == Ticks(s, n)
  {
    var sweep := Sweep(s.pos, n / WHEEL_SIZE, 1, n % WHEEL_SIZE + 1);
    SweepVisits(s.pos, n);
    TurnRest(s.pos, n);
    hide *;
    TicksArePasses(s, n);
    PassAgree(s, sweep, Visits(s.pos, n));
  }

  lemma TurnRest(pos: nat, n: nat)
    requires pos < WHEEL_SIZE
    ensures Turn(pos, n) == (pos + n % WHEEL_SIZE) % WHEEL_SIZE < WHEEL_SIZE
  {
    TurnIsModular(pos, n);
    hide Turn;
    var q, r := n / WHEEL_SIZE, pos + n % WHEEL_SIZE;
    if r < WHEEL_SIZE {
      RestIs(pos + n, q, r);
    } else {
      RestIs(pos + n, q + 1, r - WHEEL_SIZE);
      RestIs(r, 1, r - WHEEL_SIZE);
    }
  }

  lemma RestIs(x: nat, q: nat, r: nat)
    requires r < WHEEL_SIZE && x == WHEEL_SIZE * q + r
    ensures x % WHEEL_SIZE == r
  {
  }

  lemma SweepVisits(pos: nat, n: nat)
    requires pos < WHEEL_SIZE
    ensures forall slot: nat | slot < WHEEL_SIZE ::
              Sweep(pos, n / WHEEL_SIZE, 1, n % WHEEL_SIZE + 1)(slot) == Visits(pos, n)(slot)
  {
    forall slot: nat | slot < WHEEL_SIZE
      ensures Sweep(pos, n / WHEEL_SIZE, 1, n % WHEEL_SIZE + 1)(slot) == Visits(pos, n)(slot)
    {
      Rotations(pos, slot, n / WHEEL_SIZE, n % WHEEL_SIZE);
      hide VisitCount, Distance;
    }
  }

  // ---------------------------------------------------------------- whole runs

  /** The wheel and the clock reading of its last poll. */
  datatype Clocked<T> = Clocked(wheel: State<T>, lastTock: nat)

  /** Every call reads the clock.  `Cancel` is the caller's own `task->cancle()`. */
  datatype Event<T> = AddTask(task: T, delayMs: nat, tock: nat) | Poll(tock: nat) | Cancel(task: T)

  /** The delay counted from the last poll, in 64-bit arithmetic. */
  function Adjusted(delayMs: nat, tock: nat, lastTock: nat): nat
    requires lastTock <= tock
  {
    (delayMs + (tock - lastTock)) % UINT64
  }

  function SlotFor(pos: nat, d: nat): nat {
    (pos + d % WHEEL_SIZE) % WHEEL_SIZE
  }

  ghost predicate Legal<T>(c: Clocked<T>, e: Event<T>) {
    && c.wheel.Ok()
    && match e
       case AddTask(t, _, tock) =>
         c.lastTock <= tock && t !in c.wheel.tasks && t !in c.wheel.cancelled && t !in c.wheel.fired
       case Poll(tock) => c.lastTock <= tock
       case Cancel(_) => true
  }

  ghost function Apply<T>(c: Clocked<T>, e: Event<T>): Clocked<T>
    requires Legal(c, e)
  {
    match e
    case AddTask(t, delayMs, tock) =>
      var d := Adjusted(delayMs, tock, c.lastTock);
      c.(wheel := c.wheel.(tasks := c.wheel.tasks[t := Entry(SlotFor(c.wheel.pos, d), d / WHEEL_SIZE)]))
    case Poll(tock) => Clocked(Ticks(c.wheel, tock - c.lastTock), tock)
    case Cancel(t) => c.(wheel := c.wheel.(cancelled := c.wheel.cancelled + {t}))
  }

  ghost predicate LegalRun<T>(c: Clocked<T>, es: seq<Event<T>>)
    decreases |es|
  {
    es == [] || (Legal(c, es[0]) && LegalRun(Apply(c, es[0]), es[1..]))
  }

  ghost function Run<T>(c: Clocked<T>, es: seq<Event<T>>): Clocked<T>
    requires LegalRun(c, es)
    decreases |es|
  {
    if es == [] then c else Run(Apply(c, es[0]), es[1..])
  }

  predicate Mentions<T(==)>(e: Event<T>, t: T) {
    !e.Poll? && e.task == t
  }

  /** Where task `t` stands: waiting in `slot`, or enqueued exactly once and gone. */
  ghost predicate Stands<T>(s: State<T>, t: T, slot: nat, f: Fate) {
    && t !in s.cancelled
    && match f
       case Waiting(round) => t in s.tasks && s.tasks[t] == Entry(slot, round) && s.fired[t] == 0
       case Fired => t !in s.tasks && s.fired[t] == 1
       case Dropped => false
  }

  lemma PassStands<T>(s: State<T>, t: T, slot: nat, f: Fate, visits: nat -> nat)
    requires Stands(s, t, slot, f)
    ensures Stands(Pass(s, visits), t, slot, Visited(f, false, visits(slot)))
  {
  }

  lemma TicksStands<T>(s: State<T>, t: T, slot: nat, f: Fate, n: nat)
    requires s.Ok() && Stands(s, t, slot, f)
    ensures Ticks(s, n).Ok() && Ticks(s, n).pos == Turn(s.pos, n)
    ensures Stands(Ticks(s, n), t, slot, Visited(f, false, VisitCount(s.pos, slot, n)))
  {
    TicksArePasses(s, n);
    TicksCompose(s, n, 0);
    PassStands(s, t, slot, f, Visits(s.pos, n));
  }

  /** However the run goes on, a task it leaves alone stands as if only the elapsed ticks had happened. */
  lemma {:induction false} RunStands<T>(c: Clocked<T>, es: seq<Event<T>>, t: T, slot: nat, f: Fate)
    requires c.wheel.Ok() && Stands(c.wheel, t, slot, f) && LegalRun(c, es)
    requires forall e <- es :: !Mentions(e, t)
    ensures Run(c, es).lastTock >= c.lastTock
    ensures Stands(Run(c, es).wheel, t, slot,
                   Visited(f, false, VisitCount(c.wheel.pos, slot, Run(c, es).lastTock - c.lastTock)))
    decreases |es|
  {
    if es != [] {
      var e, c' := es[0], Apply(c, es[0]);
      assert !Mentions(e, t);
      var n := c'.lastTock - c.lastTock;
      var f' := Visited(f, false, VisitCount(c.wheel.pos, slot, n));
      if e.Poll? {
        TicksStands(c.wheel, t, slot, f, n);
      }
      RunStands(c', es[1..], t, slot, f');
      if e.Poll? {
        VisitCountSplit(c.wheel.pos, slot, n, Run(c, es).lastTock - c'.lastTock);
      }
    }
  }

  /** The clock reading of the last poll of a run. */
  function LastReading<T>(es: seq<Event<T>>, tock: nat): nat
    decreases |es|
  {
    if es == [] then tock else LastReading(es[1..], if es[0].Poll? then es[0].tock else tock)
  }

  lemma {:induction false} RunReads<T>(c: Clocked<T>, es: seq<Event<T>>)
    requires LegalRun(c, es)
    ensures Run(c, es).lastTock == LastReading(es, c.lastTock)
    decreases |es|
  {
    if es != [] {
      RunReads(Apply(c, es[0]), es[1..]);
    }
  }

  /** The firing-time theorem: in every run that neither cancels nor adds it again, a task is enqueued
      exactly once, by the first poll that reads `at` or later. That is when the delay asked for has passed,
      100 ms later if the delay counted from the last poll is a multiple of 100, and 2^64 ms earlier for each
      time that this delay wraps around. */
  lemma FiringTime<T>(c: Clocked<T>, t: T, delayMs: nat, tock: nat, es: seq<Event<T>>)
    requires Legal(c, AddTask(t, delayMs, tock)) && LegalRun(c, [AddTask(t, delayMs, tock)] + es)
    requires forall e <- es :: !Mentions(e, t)
    ensures var r := Run(c, [AddTask(t, delayMs, tock)] + es).wheel;
            var sum := delayMs + (tock - c.lastTock);
            var kept := sum % 0x1_0000_0000_0000_0000;
            var at := tock + delayMs - (sum - kept) + if kept % 100 == 0 then 100 else 0;
            var due := LastReading(es, c.lastTock) >= at;
            && r.fired[t] == (if due then 1 else 0)
            && (t in r.tasks <==> !due)
  {
    var all := [AddTask(t, delayMs, tock)] + es;
    assert all[1..] == es;
    var d, c' := Adjusted(delayMs, tock, c.lastTock), Apply(c, all[0]);
    var slot, round := SlotFor(c.wheel.pos, d), d / WHEEL_SIZE;
    Placed(c, t, delayMs, tock);
    assert Run(c, all) == Run(c', es);
    hide *;
    RunStands(c', es, t, slot, Waiting(round));
    RunReads(c', es);
    var n := Run(c', es).lastTock - c.lastTock;
    DueAfter(d, c.wheel.pos, n);
    StandsMeans(Run(c', es).wheel, t, slot, round, VisitCount(c.wheel.pos, slot, n));
    DueAt(delayMs, tock, c.lastTock);
  }

  lemma Placed<T>(c: Clocked<T>, t: T, delayMs: nat, tock: nat)
    requires Legal(c, AddTask(t, delayMs, tock))
    ensures var c', d := Apply(c, AddTask(t, delayMs, tock)), Adjusted(delayMs, tock, c.lastTock);
            && c'.wheel.Ok() && c'.wheel.pos == c.wheel.pos < WHEEL_SIZE && c'.lastTock == c.lastTock <= tock
            && Stands(c'.wheel, t, SlotFor(c.wheel.pos, d), Waiting(d / WHEEL_SIZE))
  {
  }

  lemma DueAfter(d: nat, pos: nat, n: nat)
    requires pos < WHEEL_SIZE
    ensures VisitCount(pos, SlotFor(pos, d), n) > d / WHEEL_SIZE <==> n >= DueTick(d)
  {
    FiresExactlyWhenDue(d, pos, n);
    hide VisitCount, DueTick;
  }

  lemma StandsMeans<T>(s: State<T>, t: T, slot: nat, round: nat, k: nat)
    requires Stands(s, t, slot, Visited(Waiting(round), false, k))
    ensures s.fired[t] == (if k > round then 1 else 0) && (t in s.tasks <==> k <= round)
  {
  }

  /** The due tick as a reading of the clock. */
  lemma DueAt(delayMs: nat, tock: nat, lastTock: nat)
    requires lastTock <= tock
    ensures var sum := delayMs + (tock - lastTock);
            var kept := sum % 0x1_0000_0000_0000_0000;
            lastTock + DueTick(Adjusted(delayMs, tock, lastTock)) ==
            tock + delayMs - (sum - kept) + if kept % 100 == 0 then 100 else 0
  {
  }

  /** A task is never enqueued before the requested delay has passed since the addition, exactly when the
      64-bit sum that adjusts the delay does not wrap around; and it is at most one rotation late. */
  lemma NeverEarly(delayMs: nat, tock: nat, lastTock: nat)
    requires lastTock <= tock < UINT64 && delayMs < UINT64
    ensures lastTock + DueTick(Adjusted(delayMs, tock, lastTock)) >= tock + delayMs
            <==> delayMs + (tock - lastTock) < 0x1_0000_0000_0000_0000
    ensures lastTock + DueTick(Adjusted(delayMs, tock, lastTock)) <= tock + delayMs + 100
  {
    var sum := delayMs + (tock - lastTock);
    assert sum < UINT64 ==> sum % UINT64 == sum;
    assert sum >= UINT64 ==> sum % UINT64 == sum - UINT64;
  }

  /** Where a cancelled task stands: enqueued `n` times in all, and on the wheel until `gone`. */
  ghost predicate Doomed<T>(s: State<T>, t: T, slot: nat, n: nat, gone: bool) {
    && t in s.cancelled && s.fired[t] == n
    && (t in s.tasks <==> !gone) && (t in s.tasks ==> s.tasks[t].slot == slot)
  }

  lemma TicksDoomed<T>(s: State<T>, t: T, slot: nat, n: nat, gone: bool, k: nat)
    requires s.Ok() && Doomed(s, t, slot, n, gone)
    ensures Ticks(s, k).Ok() && Ticks(s, k).pos == Turn(s.pos, k)
    ensures Doomed(Ticks(s, k), t, slot, n, gone || VisitCount(s.pos, slot, k) > 0)
  {
    TicksArePasses(s, k);
    TicksCompose(s, k, 0);
  }

  lemma {:induction false} RunDoomed<T>(c: Clocked<T>, es: seq<Event<T>>, t: T, slot: nat, n: nat, gone: bool)
    requires c.wheel.Ok() && Doomed(c.wheel, t, slot, n, gone) && LegalRun(c, es)
    ensures Run(c, es).lastTock >= c.lastTock
    ensures Doomed(Run(c, es).wheel, t, slot, n,
                   gone || VisitCount(c.wheel.pos, slot, Run(c, es).lastTock - c.lastTock) > 0)
    decreases |es|
  {
    if es != [] {
      var e, c' := es[0], Apply(c, es[0]);
      var k := c'.lastTock - c.lastTock;
      if e.Poll? {
        TicksDoomed(c.wheel, t, slot, n, gone, k);
      }
      RunDoomed(c', es[1..], t, slot, n, gone || VisitCount(c.wheel.pos, slot, k) > 0);
      if e.Poll? {
        VisitCountSplit(c.wheel.pos, slot, k, Run(c, es).lastTock - c'.lastTock);
      }
    }
  }

  lemma VisitedAtAll(pos: nat, slot: nat, n: nat)
    requires pos < WHEEL_SIZE && slot < WHEEL_SIZE
    ensures VisitCount(pos, slot, n) > 0 <==> n >= Distance(pos, slot)
  {
    Rotations(pos, slot, n / WHEEL_SIZE, n % WHEEL_SIZE);
    hide VisitCount;
  }

  /** A task on the wheel that is cancelled is not enqueued in any further run, whatever its rounds, and
      leaves the wheel when its slot is passed the next time. */
  lemma CancelledNeverFires<T>(c: Clocked<T>, t: T, es: seq<Event<T>>)
    requires c.wheel.Ok() && t in c.wheel.tasks && LegalRun(c, [Cancel(t)] + es)
    ensures var r, gap := Run(c, [Cancel(t)] + es).wheel, c.wheel.tasks[t].slot as int - c.wheel.pos;
            && r.fired[t] == c.wheel.fired[t]
            && (t in r.tasks <==>
                LastReading(es, c.lastTock) - c.lastTock < if gap > 0 then gap else gap + 100)
  {
    var all := [Cancel(t)] + es;
    assert all[1..] == es;
    var c', slot := Apply(c, all[0]), c.wheel.tasks[t].slot;
    RunDoomed(c', es, t, slot, c.wheel.fired[t], false);
    RunReads(c', es);
    VisitedAtAll(c.wheel.pos, slot, Run(c', es).lastTock - c.lastTock);
  }

  // ---------------------------------------------------------------- the code

  type TaskFunc = nat

  class TimingTask {
    const m_tskFunc: TaskFunc
    var m_round: nat
    var m_cancled: bool
    /** the slot the wheel put it in */
    ghost const slot: nat

    constructor (func: TaskFunc, round: nat, ghost slot: nat)
      ensures m_tskFunc == func && m_round == round && !m_cancled && this.slot == slot
    {
      m_tskFunc := func;
      m_round := round;
      m_cancled := false;
      this.slot := slot;
    }
  }

  class TimingWheel {
    var m_currentPos: nat
    var m_lastTock: nat
    var m_stoped: bool
    const m_wheel: array<set<TimingTask>>
    var m_expiredTaskFuncs: seq<TaskFunc>
    /** the tasks whose functions `m_expiredTaskFuncs` holds, and every task ever added */
    ghost var expired: seq<TimingTask>
    ghost var known: set<TimingTask>

    ghost function Tasks(): set<TimingTask>
      reads this, m_wheel
    {
      set t | t in known && t.slot < m_wheel.Length && t in m_wheel[t.slot]
    }

    ghost predicate Valid()
      reads this, m_wheel, known
    {
      && m_currentPos < m_wheel.Length == WHEEL_SIZE
      && (forall i, t | 0 <= i < m_wheel.Length && t in m_wheel[i] :: t.slot == i && t in known)
      && QueueOk()
    }

    /** The queue holds the functions of the tasks in `expired`, in that order. */
    ghost predicate QueueOk()
      reads this
    {
      && |expired| == |m_expiredTaskFuncs|
      && forall i | 0 <= i < |expired| :: expired[i].m_tskFunc == m_expiredTaskFuncs[i]
    }

    ghost function Abs(): (s: State<TimingTask>)
      reads this, m_wheel, known
      requires Valid()
      ensures s.Ok() && s.pos == m_currentPos < WHEEL_SIZE
    {
      State(m_currentPos, map t | t in Tasks() :: Entry(t.slot, t.m_round),
            set t | t in known && t.m_cancled, multiset(expired))
    }

    ghost function Clock(): Clocked<TimingTask>
      reads this, m_wheel, known
      requires Valid()
    {
      Clocked(Abs(), m_lastTock)
    }

    constructor (tock: nat)
      ensures Valid() && fresh(m_wheel)
      ensures Clock() == Clocked(State(0, map[], {}, multiset{}), tock)
    {
      m_currentPos, m_lastTock, m_stoped := 0, tock, false;
      m_wheel := new set<TimingTask>[WHEEL_SIZE](_ => {});
      m_expiredTaskFuncs, expired, known := [], [], {};
    }

    method AddTask(taskFunc: TaskFunc, delay: nat, tock: nat) returns (task: TimingTask?)
      requires Valid() && m_lastTock <= tock
      modifies this`known, m_wheel
      ensures Valid()
      ensures m_stoped ==> task == null && Clock() == old(Clock())
      ensures !m_stoped ==> task != null && fresh(task) && task.m_tskFunc == taskFunc
      ensures !m_stoped ==> Legal(old(Clock()), Event.AddTask(task, delay, tock))
      ensures !m_stoped ==> Clock() == Apply(old(Clock()), Event.AddTask(task, delay, tock))
    {
      if m_stoped { return null; }
      var delayMs := (delay + (tock - m_lastTock)) % UINT64;
      var round := delayMs / WHEEL_SIZE;
      var pos := (m_currentPos + (delayMs % WHEEL_SIZE)) % WHEEL_SIZE;
      task := new TimingTask(taskFunc, round, pos);
      ghost var s := Abs();
      assert s == old(Abs()) && task !in s.tasks && task !in s.cancelled && task !in s.fired;
      hide Valid, Abs, Tasks;
      Insert(task, pos);
    }

    method Insert(task: TimingTask, pos: nat)
      requires Valid() && task !in known && !task.m_cancled && task.slot == pos < WHEEL_SIZE
      modifies this`known, m_wheel
      ensures Valid() && Abs() == old(Abs()).(tasks := old(Abs()).tasks[task := Entry(pos, task.m_round)])
    {
      known := known + {task};
      m_wheel[pos] := m_wheel[pos] + {task};
      assert Tasks() == old(Tasks()) + {task};
      assert Abs().tasks == old(Abs().tasks)[task := Entry(pos, task.m_round)];
      assert Abs().cancelled == old(Abs().cancelled);
    }

    /** A caller's `task->cancle()`, seen from the wheel. */
    method CancelTask(task: TimingTask)
      requires Valid() && task in known
      modifies task`m_cancled
      ensures Valid() && Clock() == Apply(old(Clock()), Cancel(task))
    {
      task.m_cancled := true;
      assert Abs().tasks == old(Abs().tasks);
    }

    /** Milliseconds the polling thread may sleep. */
    method GetLastMs() returns (ms: nat)
      requires Valid()
      ensures 1 <= ms < WHEEL_SIZE || ms == 1000
      ensures forall t <- Tasks() :: Distance(m_currentPos, t.slot) >= if ms < WHEEL_SIZE then ms else WHEEL_SIZE
      ensures ms < WHEEL_SIZE ==> exists t <- Tasks() :: Distance(m_currentPos, t.slot) == ms
    {
      for i := 1 to WHEEL_SIZE
        invariant forall t <- Tasks() :: Distance(m_currentPos, t.slot) >= i
      {
        var pos := (m_currentPos + i) % WHEEL_SIZE;
        if m_wheel[pos] != {} {
          ghost var t :| t in m_wheel[pos];
          assert t in Tasks() && Distance(m_currentPos, t.slot) == i;
          return i;
        }
      }
      return 1000;
    }

    /** Puts a task's function on the execution queue. */
    method Enqueue(task: TimingTask)
      requires QueueOk()
      modifies this`m_expiredTaskFuncs, this`expired
      ensures QueueOk() && expired == old(expired) + [task]
      ensures m_expiredTaskFuncs == old(m_expiredTaskFuncs) + [task.m_tskFunc]
    {
      m_expiredTaskFuncs := m_expiredTaskFuncs + [task.m_tskFunc];
      expired := expired + [task];
    }

    /** Removes the handled tasks from a slot whose other tasks have had their rounds lowered. */
    method Erase(pos: nat, handledList: set<TimingTask>, ghost s: State<TimingTask>, ghost visits: nat -> nat)
      requires Valid() && pos < WHEEL_SIZE && s.Ok() && handledList <= m_wheel[pos]
      requires m_currentPos == s.pos && Abs().cancelled == s.cancelled
      requires Tasks() == s.tasks.Keys && forall t <- Tasks() :: s.tasks[t].slot == t.slot
      requires forall i: nat | i != pos :: visits(i) == 0
      requires forall t <- Tasks() :: t in handledList <==> !FateOf(s, t, visits).Waiting?
      requires forall t <- Tasks() :: t !in handledList ==> t.m_round == FateOf(s, t, visits).round
      requires multiset(expired) == s.fired + multiset(FiredBy(s, visits))
      modifies m_wheel
      ensures Valid() && Tasks() <= old(Tasks()) && Abs() == Pass(s, visits)
    {
      m_wheel[pos] := m_wheel[pos] - handledList;
      assert Tasks() == old(Tasks()) - handledList;
      assert Abs().tasks == WaitingAfter(s, visits);
    }

    /** The bulk path, for one task: `round` whole rotations pass its slot. */
    method VisitInBulk(task: TimingTask, round: nat) returns (handled: bool)
      requires QueueOk() && round > 0
      modifies this`m_expiredTaskFuncs, this`expired, task`m_round
      ensures QueueOk()
      ensures var f := Visited(Waiting(old(task.m_round)), task.m_cancled, round);
              && handled == !f.Waiting?
              && (f.Waiting? ==> task.m_round == f.round)
              && expired == if f.Fired? then old(expired) + [task] else old(expired)
    {
      if task.m_cancled {
        return true;
      }
      if task.m_round == 0 {
        Enqueue(task);
        return true;
      }
      if round > task.m_round {
        task.m_round := 0;
        Enqueue(task);
        return true;
      } else {
        task.m_round := task.m_round - round;
        return false;
      }
    }

    /** The per-slot path, for one task: a single tick reaches its slot. */
    method Visit(task: TimingTask) returns (handled: bool)
      requires QueueOk()
      modifies this`m_expiredTaskFuncs, this`expired, task`m_round
      ensures QueueOk()
      ensures var f := Visited(Waiting(old(task.m_round)), task.m_cancled, 1);
              && handled == !f.Waiting?
              && (f.Waiting? ==> task.m_round == f.round)
              && expired == if f.Fired? then old(expired) + [task] else old(expired)
    {
      if task.m_cancled {
        return true;
      }
      if task.m_round == 0 {
        Enqueue(task);
        return true;
      }
      if task.m_round > 0 { task.m_round := task.m_round - 1; }
      return false;
    }

    method VisitTask(task: TimingTask, round: nat, bulk: bool) returns (handled: bool)
      requires QueueOk() && (if bulk then round > 0 else round == 1)
      modifies this`m_expiredTaskFuncs, this`expired, task`m_round
      ensures QueueOk()
      ensures Settled(task, Visited(Waiting(old(task.m_round)), task.m_cancled, round), handled)
      ensures expired == if Visited(Waiting(old(task.m_round)), task.m_cancled, round).Fired?
                         then old(expired) + [task] else old(expired)
    {
      if bulk {
        handled := VisitInBulk(task, round);
      } else {
        handled := Visit(task);
      }
    }

    /** The task is marked for erasure exactly if it is no longer waiting. */
    static ghost predicate Settled(task: TimingTask, f: Fate, handled: bool)
      reads task
    {
      handled == !f.Waiting? && (f.Waiting? ==> task.m_round == f.round)
    }

    /** The loop over the tasks of a slot, in no particular order. */
    method VisitAll(taskList: set<TimingTask>, round: nat, bulk: bool)
      returns (handledList: set<TimingTask>, ghost fired: seq<TimingTask>)
      requires QueueOk() && (if bulk then round > 0 else round == 1)
      modifies this`m_expiredTaskFuncs, this`expired, taskList`m_round
      ensures QueueOk() && handledList <= taskList
      ensures forall t | t in taskList ::
                Settled(t, Visited(Waiting(old(t.m_round)), t.m_cancled, round), t in handledList)
      ensures forall t | t in taskList ::
                t in fired <==> Visited(Waiting(old(t.m_round)), t.m_cancled, round).Fired?
      ensures Distinct(fired) && forall t: TimingTask | t in fired :: t in taskList
      ensures expired == old(expired) + fired
    {
      handledList, fired := {}, [];
      ghost var fate := map t: TimingTask | t in taskList :: Visited(Waiting(t.m_round), t.m_cancled, round);
      var rest := taskList;
      ghost var order: seq<TimingTask> := [];
      while rest != {}
        invariant QueueOk() && rest <= taskList
        invariant forall t: TimingTask | t in taskList :: t in rest || t in order
        invariant forall t: TimingTask | t in order :: t in taskList && t !in rest
        invariant forall t: TimingTask | t in handledList :: t in order
        invariant forall t: TimingTask | t in rest :: t.m_round == old(t.m_round)
        invariant forall t: TimingTask | t in order :: t in fired <==> fate[t].Fired?
        invariant forall t: TimingTask | t in order :: Settled(t, fate[t], t in handledList)
        invariant Distinct(fired) && forall t: TimingTask | t in fired :: t in order
        invariant expired == old(expired) + fired
        decreases |rest|
      {
        var task: TimingTask :| task in rest;
        var handled := VisitTask(task, round, bulk);
        rest, order := rest - {task}, order + [task];
        if handled { handledList := handledList + {task}; }
        if fate[task].Fired? { fired := fired + [task]; }
      }
    }

    method PassSlot(pos: nat, round: nat, bulk: bool)
      requires Valid() && pos < WHEEL_SIZE && (if bulk then round > 0 else round == 1)
      modifies this`m_expiredTaskFuncs, this`expired, m_wheel, Tasks()`m_round
      ensures Valid() && Tasks() <= old(Tasks())
      ensures Abs() == Pass(old(Abs()), Only(pos, round))
    {
      ghost var s, visits := Abs(), Only(pos, round);
      assert m_wheel[pos] <= Tasks();
      if m_wheel[pos] == {} {
        PassNothing(s, visits);
        return;
      }
      var handledList, fired := VisitAll(m_wheel[pos], round, bulk);
      DistinctAsSet(fired, FiredBy(s, visits));
      assert multiset(expired) == multiset(old(expired)) + multiset(fired);
      Erase(pos, handledList, s, visits);
    }

    /** The first loop of `doTick`: whole rotations, taken slot by slot. */
    method TurnInBulk(round: nat)
      requires Valid() && round > 0
      modifies this`m_expiredTaskFuncs, this`expired, m_wheel, Tasks()`m_round
      ensures Valid() && Tasks() <= old(Tasks())
      ensures Abs() == Pass(old(Abs()), Sweep(m_currentPos, round, 1, 1))
    {
      hide *;
      ghost var s := Abs();
      SweepEnds(s, round);
      for i := 1 to WHEEL_SIZE + 1
        invariant Valid() && Tasks() <= old(Tasks()) && s.pos == m_currentPos
        invariant Abs() == Pass(s, Sweep(s.pos, 0, round, i))
      {
        var pos := (m_currentPos + i) % WHEEL_SIZE;
        ghost var before := Abs();
        PassSlot(pos, round, true);
        SweepStep(s, 0, round, i, pos, before, Abs());
      }
    }

    /** The second loop of `doTick`: the remaining ticks, one slot each. */
    method TurnBySlots(tick: nat, ghost s: State<TimingTask>, ghost base: nat)
      requires Valid() && tick < WHEEL_SIZE && s.Ok() && s.pos == m_currentPos
      requires Abs() == Pass(s, Sweep(s.pos, base, 1, 1))
      modifies this`m_currentPos, this`m_expiredTaskFuncs, this`expired, m_wheel, Tasks()`m_round
      ensures Valid()
      ensures Abs() == Pass(s, Sweep(s.pos, base, 1, tick + 1)).(pos := (s.pos + tick) % WHEEL_SIZE)
    {
      hide *;
      var pos := m_currentPos;
      assert pos == Abs().pos < WHEEL_SIZE;
      for i := 1 to tick + 1
        invariant Valid() && Tasks() <= old(Tasks()) && s.pos == m_currentPos
        invariant pos == (m_currentPos + i - 1) % WHEEL_SIZE
        invariant Abs() == Pass(s, Sweep(s.pos, base, 1, i))
      {
        pos := (m_currentPos + i) % WHEEL_SIZE;
        ghost var before := Abs();
        PassSlot(pos, 1, false);
        SweepStep(s, base, 1, i, pos, before, Abs());
      }
      MovePos(pos);
    }

    method DoTick(tickPassed: nat)
      requires Valid()
      modifies this`m_currentPos, this`m_expiredTaskFuncs, this`expired, m_wheel, Tasks()`m_round
      ensures Valid()
      ensures Abs() == Ticks(old(Abs()), tickPassed)
    {
      hide *;
      ghost var s := Abs();
      SweepEnds(s, 0);
      SweepIsTicks(s, tickPassed);
      var round := tickPassed / WHEEL_SIZE;
      var tick := tickPassed % WHEEL_SIZE;
      if round > 0 {
        TurnInBulk(round);
      }
      TurnBySlots(tick, s, round);
    }

    method MovePos(pos: nat)
      requires Valid() && pos < WHEEL_SIZE
      modifies this`m_currentPos
      ensures Valid() && m_currentPos == pos && Abs() == old(Abs()).(pos := pos)
    {
      m_currentPos := pos;
      assert Abs().tasks == old(Abs().tasks);
    }

    /** One turn of the polling loop once the wait is over. */
    method RunOnce(tock: nat)
      requires Valid() && m_lastTock <= tock
      modifies this, m_wheel, Tasks()
      ensures Valid() && m_stoped == old(m_stoped) && known == old(known)
      ensures Clock() == Apply(old(Clock()), Poll(tock))
    {
      var tickPassed := tock - m_lastTock;
      m_lastTock := tock;
      assert Abs().tasks == old(Abs().tasks) && Abs().cancelled == old(Abs().cancelled);
      if tickPassed == 0 { return; }
      DoTick(tickPassed);
    }
  }
}
