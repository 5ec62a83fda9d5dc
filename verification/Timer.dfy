/** The timer's task list: doubly linked through its tasks, sorted by deadline. */
module Timers {

  class TimerTask {
    var next: TimerTask?
    var prev: TimerTask?
    var deadline: nat
    var cancled: bool

    constructor (deadline: nat)
      ensures this.deadline == deadline && !cancled && next == null && prev == null
    {
      next, prev, this.deadline, cancled := null, null, deadline, false;
    }
  }

  /** The task at `i`; null outside the list. */
  function At(s: seq<TimerTask>, i: int): TimerTask? {
    if 0 <= i < |s| then s[i] else null
  }

  ghost function Set(s: seq<TimerTask>): set<TimerTask> { set t | t in s }

  ghost predicate Distinct(s: seq<TimerTask>) {
    forall i, j | 0 <= i < j < |s| :: s[i] != s[j]
  }

  /** The tasks of `s` point at each other in both directions. */
  ghost predicate Linked(s: seq<TimerTask>)
    reads Set(s)`next, Set(s)`prev
  {
    && Distinct(s)
    && (forall i {:trigger s[i].next} | 0 <= i < |s| :: s[i].next == At(s, i + 1))
    && (forall i {:trigger s[i].prev} | 0 <= i < |s| :: s[i].prev == At(s, i - 1))
  }

  ghost predicate Sorted(s: seq<TimerTask>)
    reads Set(s)`deadline
  {
    forall i, j | 0 <= i < j < |s| :: s[i].deadline <= s[j].deadline
  }

  /** `s` with `t` at place `k`. */
  ghost function Inserted(s: seq<TimerTask>, k: nat, t: TimerTask): (r: seq<TimerTask>)
    requires k <= |s|
    ensures |r| == |s| + 1
  {
    s[..k] + [t] + s[k..]
  }

  lemma InsertedAt(s: seq<TimerTask>, k: nat, t: TimerTask, i: int)
    requires k <= |s|
    ensures At(Inserted(s, k, t), i) == if i < k then At(s, i) else if i == k then t else At(s, i - 1)
  {
  }

  lemma InsertedDistinct(s: seq<TimerTask>, k: nat, t: TimerTask)
    requires k <= |s| && Distinct(s) && t !in s
    ensures Distinct(Inserted(s, k, t))
  {
  }

  /** Setting the four pointers around the new task is all it takes. */
  lemma LinkedIn(s: seq<TimerTask>, k: nat, t: TimerTask)
    requires k <= |s| && t !in s && Distinct(s)
    requires t.next == At(s, k) && t.prev == At(s, k - 1)
    requires forall i {:trigger s[i].next} | 0 <= i < |s| :: s[i].next == if i == k - 1 then t else At(s, i + 1)
    requires forall i {:trigger s[i].prev} | 0 <= i < |s| :: s[i].prev == if i == k then t else At(s, i - 1)
    ensures Linked(Inserted(s, k, t))
  {
    var r := Inserted(s, k, t);
    InsertedDistinct(s, k, t);
    hide Distinct;
    forall i | 0 <= i < |r|
      ensures r[i].next == At(r, i + 1) && r[i].prev == At(r, i - 1)
    {
      InsertedAt(s, k, t, i);
      InsertedAt(s, k, t, i + 1);
      InsertedAt(s, k, t, i - 1);
    }
  }

  /** `s` without the task at place `k`. */
  ghost function Removed(s: seq<TimerTask>, k: nat): (r: seq<TimerTask>)
    requires k < |s|
    ensures |r| == |s| - 1
  {
    s[..k] + s[k + 1..]
  }

  lemma RemovedAt(s: seq<TimerTask>, k: nat, i: int)
    requires k < |s|
    ensures At(Removed(s, k), i) == if i < k then At(s, i) else At(s, i + 1)
  {
  }

  /** Setting the two pointers around a task takes it out. */
  lemma LinkedOut(s: seq<TimerTask>, k: nat)
    requires k < |s| && Distinct(s)
    requires forall i {:trigger s[i].next} | 0 <= i < |s| && i != k ::
             s[i].next == At(s, if i == k - 1 then k + 1 else i + 1)
    requires forall i {:trigger s[i].prev} | 0 <= i < |s| && i != k ::
             s[i].prev == At(s, if i == k + 1 then k - 1 else i - 1)
    ensures Linked(Removed(s, k))
  {
    var r := Removed(s, k);
    RemovedDistinct(s, k);
    forall i | 0 <= i < |r|
      ensures r[i].next == At(r, i + 1) && r[i].prev == At(r, i - 1)
    {
      hide Distinct, Removed, At;
      OneOut(s, k, i, if i < k then i else i + 1);
    }
  }

  lemma OneOut(s: seq<TimerTask>, k: nat, i: nat, j: nat)
    requires k < |s| && i < |s| - 1 && j == if i < k then i else i + 1
    requires s[j].next == At(s, if j == k - 1 then k + 1 else j + 1)
    requires s[j].prev == At(s, if j == k + 1 then k - 1 else j - 1)
    ensures var r := Removed(s, k); r[i].next == At(r, i + 1) && r[i].prev == At(r, i - 1)
  {
    assert Removed(s, k)[i] == s[j];
    RemovedAt(s, k, i + 1);
    RemovedAt(s, k, i - 1);
    hide Removed;
  }

  lemma RemovedDistinct(s: seq<TimerTask>, k: nat)
    requires k < |s| && Distinct(s)
    ensures Distinct(Removed(s, k))
  {
  }

  /** Where a task belongs: behind the earlier ones, before the others. */
  ghost predicate Place(s: seq<TimerTask>, k: nat, d: nat)
    reads Set(s)`deadline
  {
    k <= |s| && (forall i | 0 <= i < k :: s[i].deadline < d) && (k < |s| ==> s[k].deadline >= d)
  }

  lemma InsertedHolds(s: seq<TimerTask>, k: nat, t: TimerTask)
    requires k <= |s|
    ensures multiset(Inserted(s, k, t)) == multiset(s) + multiset{t}
    ensures forall x :: x in Inserted(s, k, t) <==> x in s || x == t
  {
    assert s == s[..k] + s[k..];
    assert forall x | x in s :: x in s[..k] || x in s[k..];
  }

  lemma SortedIn(s: seq<TimerTask>, k: nat, t: TimerTask)
    requires Sorted(s) && Place(s, k, t.deadline)
    ensures Sorted(Inserted(s, k, t))
  {
  }

  /** In a sorted list there is one such place: exactly the tasks in front of it are earlier, so that of tasks
      with one deadline the newest comes first. */
  lemma PlaceIs(s: seq<TimerTask>, k: nat, d: nat)
    requires Sorted(s)
    ensures Place(s, k, d) <==> k <= |s| && forall i | 0 <= i < |s| :: s[i].deadline < d <==> i < k
  {
  }

  // ---------------------------------------------------------------- a sweep

  /** Which of the first `n` tasks go: the deadline has come by the clock as read for the task, or it is
      cancelled. */
  ghost function DueUpTo(s: seq<TimerTask>, clock: nat -> nat, n: nat): (due: seq<bool>)
    requires n <= |s|
    reads Set(s)`deadline, Set(s)`cancled
    ensures |due| == n && forall i | 0 <= i < n :: due[i] == (clock(i) >= s[i].deadline || s[i].cancled)
  {
    if n == 0 then [] else DueUpTo(s, clock, n - 1) + [clock(n - 1) >= s[n - 1].deadline || s[n - 1].cancled]
  }

  ghost function Due(s: seq<TimerTask>, clock: nat -> nat): (due: seq<bool>)
    reads Set(s)`deadline, Set(s)`cancled
    ensures |due| == |s| && forall i | 0 <= i < |s| :: due[i] == (clock(i) >= s[i].deadline || s[i].cancled)
  {
    DueUpTo(s, clock, |s|)
  }

  /** Of the first `n` tasks, those that stay, and those that go. */
  ghost function Kept(s: seq<TimerTask>, due: seq<bool>, n: nat): seq<TimerTask>
    requires n <= |s| == |due|
  {
    if n == 0 then [] else Kept(s, due, n - 1) + if due[n - 1] then [] else [s[n - 1]]
  }

  ghost function Gone(s: seq<TimerTask>, due: seq<bool>, n: nat): seq<TimerTask>
    requires n <= |s| == |due|
  {
    if n == 0 then [] else Gone(s, due, n - 1) + if due[n - 1] then [s[n - 1]] else []
  }

  /** A clock that stands still. */
  function Steady(now: nat): nat -> nat { _ => now }

  ghost function Staying(s: seq<TimerTask>, clock: nat -> nat): (r: seq<TimerTask>)
    reads Set(s)`deadline, Set(s)`cancled
    ensures r == Kept(s, Due(s, clock), |s|)
  {
    Kept(s, Due(s, clock), |s|)
  }

  ghost function Going(s: seq<TimerTask>, clock: nat -> nat): (r: seq<TimerTask>)
    reads Set(s)`deadline, Set(s)`cancled
    ensures r == Gone(s, Due(s, clock), |s|)
  {
    Gone(s, Due(s, clock), |s|)
  }

  /** The last task goes only if all do: the code takes the task behind one that goes to be there. */
  ghost predicate LastStays(due: seq<bool>) {
    due != [] && due[|due| - 1] ==> forall i | 0 <= i < |due| :: due[i]
  }

  /** `now` is `was` with the first `i` of `all`. */
  ghost predicate Joined(was: seq<TimerTask>, all: seq<TimerTask>, i: nat, now: seq<TimerTask>) {
    i <= |all| && multiset(now) == multiset(was) + multiset(all[..i])
  }

  lemma NotYet(was: seq<TimerTask>, all: seq<TimerTask>, i: nat, now: seq<TimerTask>)
    requires Joined(was, all, i, now) && i < |all| && Distinct(all) && forall t | t in all :: t !in was
    ensures all[i] !in now && Set(now + [all[i]]) <= Set(was + all)
  {
    assert forall t | t in now :: t in multiset(now);
    assert all[i] in all;
  }

  lemma JoinedNext(was: seq<TimerTask>, all: seq<TimerTask>, i: nat, now: seq<TimerTask>, next: seq<TimerTask>)
    requires Joined(was, all, i, now) && i < |all| && multiset(next) == multiset(now) + multiset{all[i]}
    ensures Joined(was, all, i + 1, next)
  {
    assert all[..i + 1] == all[..i] + [all[i]];
  }

  lemma JoinedAll(was: seq<TimerTask>, all: seq<TimerTask>, now: seq<TimerTask>)
    requires Joined(was, all, |all|, now)
    ensures multiset(now) == multiset(was) + multiset(all)
  {
    assert all[..|all|] == all;
  }

  class Timer {
    var m_tasks: TimerTask?
    var m_insertTasks: seq<TimerTask>
    /** The list, front first. */
    ghost var list: seq<TimerTask>
    /** What has been given to the thread pool. */
    ghost var executed: seq<TimerTask>

    ghost predicate Valid()
      reads this, Set(list)`next, Set(list)`prev
    {
      Linked(list) && m_tasks == At(list, 0)
    }

    constructor ()
      ensures Valid() && list == [] && m_insertTasks == [] && executed == []
    {
      m_tasks, m_insertTasks, list, executed := null, [], [], [];
    }

    /** Puts the task before the first one that is not earlier, or at the end. */
    method ProcessNewTask(task: TimerTask)
      requires Valid() && task !in list
      modifies `m_tasks, `list, task`next, task`prev, Set(list)`next, Set(list)`prev
      ensures Valid() && exists k: nat :: Place(old(list), k, task.deadline) && list == Inserted(old(list), k, task)
    {
      if m_tasks == null {
        m_tasks := task;
        m_tasks.next := null;
        m_tasks.prev := null;
        assert Place(list, 0, task.deadline);
        list := Inserted(list, 0, task);
        return;
      }
      var p := m_tasks;
      ghost var i := 0;
      while true
        invariant i < |list| && p == list[i] && forall j | 0 <= j < i :: list[j].deadline < task.deadline
        decreases |list| - i
      {
        if p.deadline >= task.deadline {
          LinkBefore(task, p, i);
          return;
        }
        if p.next == null { break; }
        p := p.next;
        i := i + 1;
      }
      LinkLast(task, p);
    }

    method LinkBefore(task: TimerTask, p: TimerTask, ghost k: nat)
      requires Valid() && task !in list && k < |list| && p == list[k] && Place(list, k, task.deadline)
      modifies `m_tasks, `list, task`next, task`prev, Set(list)`next, Set(list)`prev
      ensures Valid() && list == Inserted(old(list), k, task)
    {
      var prev := p.prev;
      ghost var s := list;
      if prev == null {
        task.next := p;
        task.prev := null;
        p.prev := task;
        m_tasks := task;
      } else {
        prev.next := task;
        task.prev := prev;
        task.next := p;
        p.prev := task;
      }
      LinkedIn(s, k, task);
      list := Inserted(s, k, task);
    }

    method LinkLast(task: TimerTask, p: TimerTask)
      requires Valid() && task !in list && list != [] && p == list[|list| - 1]
      modifies `list, task`next, task`prev, p`next
      ensures Valid() && list == Inserted(old(list), |old(list)|, task)
    {
      ghost var s := list;
      p.next := task;
      task.prev := p;
      task.next := null;
      LinkedIn(s, |s|, task);
      list := Inserted(s, |s|, task);
    }

    /** Moves the new tasks into the list, one by one. */
    method ProcessNewTasks()
      requires Valid() && Sorted(list) && Distinct(m_insertTasks) && forall t | t in m_insertTasks :: t !in list
      modifies this, Set(list + m_insertTasks)`next, Set(list + m_insertTasks)`prev
      ensures Valid() && Sorted(list) && m_insertTasks == [] && executed == old(executed)
      ensures multiset(list) == multiset(old(list)) + multiset(old(m_insertTasks))
    {
      ghost var was, all := list, m_insertTasks;
      if |m_insertTasks| == 0 { return; }
      hide Linked, Sorted;
      for i := 0 to |m_insertTasks|
        invariant Valid() && Sorted(list) && m_insertTasks == all && executed == old(executed)
        invariant Joined(was, all, i, list)
      {
        hide *;
        NotYet(was, all, i, list);
        ghost var now := list;
        ProcessOne(m_insertTasks[i]);
        JoinedNext(was, all, i, now, list);
      }
      JoinedAll(was, all, list);
      m_insertTasks := [];
    }

    method ProcessOne(task: TimerTask)
      requires Valid() && Sorted(list) && task !in list
      modifies `m_tasks, `list, task`next, task`prev, Set(list)`next, Set(list)`prev
      ensures Valid() && Sorted(list) && multiset(list) == multiset(old(list)) + multiset{task}
      ensures forall t :: t in list <==> t in old(list) || t == task
    {
      ghost var s := list;
      ProcessNewTask(task);
      ghost var k: nat :| Place(s, k, task.deadline) && list == Inserted(s, k, task);
      SortedIn(s, k, task);
      InsertedHolds(s, k, task);
      hide Inserted, Sorted, Place, Linked;
    }

    /** Time to wait by the clock reading `tock`; -1 when there is no task. */
    method GetNextWaitMs(tock: nat) returns (mil: int)
      requires Valid() && Sorted(list)
      ensures list == [] ==> mil == -1
      ensures list != [] ==> mil >= 0 && forall t | t in list :: t.deadline <= tock ==> mil == 0
      ensures list != [] ==> (forall t | t in list :: mil <= if t.deadline > tock then t.deadline - tock else 0)
      ensures list != [] ==> exists t | t in list :: mil == if t.deadline > tock then t.deadline - tock else 0
    {
      if m_tasks != null {
        assert m_tasks in list;
        return if m_tasks.deadline > tock then m_tasks.deadline - tock else 0;
      }
      return -1;
    }

    /** Takes the task at place `k` out as the sweep does. */
    method Unlink(task: TimerTask, ghost k: nat)
      requires Valid() && k < |list| && task == list[k] && (k > 0 ==> k + 1 < |list|)
      modifies `m_tasks, `list, Set(list)`next, Set(list)`prev
      ensures Valid() && list == Removed(old(list), k) && task.next == old(task.next)
    {
      ghost var s := list;
      var prev := task.prev;
      var next := task.next;
      if prev == null {
        m_tasks := next;
        if m_tasks != null { m_tasks.prev := null; }
      } else {
        prev.next := next;
        next.prev := prev;
      }
      LinkedOut(s, k);
      list := Removed(s, k);
    }

    /** One task of the sweep, with the clock reading `tock`. */
    method Visit(task: TimerTask, tock: nat, ghost k: nat)
      requires Valid() && k < |list| && task == list[k]
      requires tock >= task.deadline || task.cancled ==> (k > 0 ==> k + 1 < |list|)
      modifies `m_tasks, `list, `executed, Set(list)`next, Set(list)`prev
      ensures Valid() && task.next == old(task.next)
      ensures if tock >= task.deadline || task.cancled
              then list == Removed(old(list), k) && executed == old(executed) + [task]
              else list == old(list) && executed == old(executed)
    {
      if tock >= task.deadline || task.cancled {
        Unlink(task, k);
        executed := executed + [task];
      }
    }

    /** The sweep over `s` has come to place `i`. */
    ghost predicate Swept(s: seq<TimerTask>, due: seq<bool>, done: seq<TimerTask>, i: nat)
      reads this, Set(list)`next, Set(list)`prev
    {
      Valid() && i <= |s| == |due| && list == Kept(s, due, i) + s[i..] && executed == done + Gone(s, due, i)
    }

    /** The body of the loop; the clock reads `tock`. */
    method SweepStep(p: TimerTask, tock: nat, ghost s: seq<TimerTask>, ghost due: seq<bool>,
                     ghost done: seq<TimerTask>, ghost i: nat)
      returns (next: TimerTask?)
      requires Swept(s, due, done, i) && LastStays(due) && i < |s| && p == s[i]
      requires due[i] == (tock >= p.deadline || p.cancled)
      modifies `m_tasks, `list, `executed, Set(list)`next, Set(list)`prev
      ensures Swept(s, due, done, i + 1) && next == At(s, i + 1) && Set(list) <= Set(s)
    {
      ghost var kept, gone, was := Kept(s, due, i), Gone(s, due, i), list;
      Behind(s, due, i, was, kept);
      NextIs(|kept|);
      KeptNext(s, due, i);
      OneLess(s, i, kept, was);
      OneMoreGone(done, gone, p);
      hide Kept, Gone, Valid, LastStays, Removed, At;
      next := p.next;
      Visit(p, tock, |kept|);
      assert list == if due[i] then Removed(was, |kept|) else was;
      Within(s, due, i + 1);
    }

    lemma Within(s: seq<TimerTask>, due: seq<bool>, i: nat)
      requires i <= |s| == |due| && list == Kept(s, due, i) + s[i..]
      ensures Set(list) <= Set(s)
    {
      KeptAre(s, due, i);
    }

    /** The loop of the timer thread over the list, with the clock read for each task. */
    method Sweep(clock: nat -> nat)
      requires Valid() && LastStays(Due(list, clock))
      modifies `m_tasks, `list, `executed, Set(list)`next, Set(list)`prev
      ensures Valid() && list == old(Staying(list, clock)) && executed == old(executed) + old(Going(list, clock))
      ensures old(Sorted(list)) ==> Sorted(list)
    {
      ghost var due := Due(list, clock);
      SweepStarts(due);
      hide *;
      SweepAll(clock, list, due, executed);
    }

    /** One round of the timer thread once the wait is over, with one reading of the clock and nothing
        cancelled: what is due is handed over, once, and the rest stays, in order. */
    method Round(now: nat) returns (ghost gone: seq<TimerTask>)
      requires Valid() && Sorted(list) && Distinct(m_insertTasks) && forall t | t in m_insertTasks :: t !in list
      requires forall t | t in list + m_insertTasks :: !t.cancled
      modifies this, Set(list + m_insertTasks)`next, Set(list + m_insertTasks)`prev
      ensures Valid() && Sorted(list) && m_insertTasks == [] && executed == old(executed) + gone
      ensures multiset(gone) + multiset(list) == multiset(old(list)) + multiset(old(m_insertTasks))
      ensures (forall t | t in gone :: t.deadline <= now) && forall t | t in list :: t.deadline > now
    {
      ghost var was, added := list, m_insertTasks;
      ProcessNewTasks();
      ghost var s := list;
      NoneCancelled(was, added, s);
      ghost var kept: seq<TimerTask>;
      gone, kept := DueFirst(s, now);
      hide *;
      Sweep(Steady(now));
      assert list == kept;
    }

    method SweepAll(clock: nat -> nat, ghost s: seq<TimerTask>, ghost due: seq<bool>, ghost done: seq<TimerTask>)
      requires Swept(s, due, done, 0) && m_tasks == At(s, 0) && due == Due(s, clock) && LastStays(due)
      requires Set(list) <= Set(s)
      modifies `m_tasks, `list, `executed, Set(s)`next, Set(s)`prev
      ensures Valid() && list == Kept(s, due, |s|) && executed == done + Gone(s, due, |s|)
      ensures Sorted(s) ==> Sorted(list)
    {
      ghost var i := 0;
      var visited := 0;
      var p := m_tasks;
      hide *;
      while p != null
        invariant i <= |s| == |due| && visited == i && p == At(s, i)
        invariant Swept(s, due, done, i) && Set(list) <= Set(s)
        decreases |s| - i
      {
        TaskAt(s, i);
        DueHere(s, clock, due, i);
        p := SweepStep(p, clock(visited), s, due, done, i);
        visited := visited + 1;
        i := i + 1;
      }
      SweepEnds(s, due, done, i);
      KeptSorted(s, due, |s|);
    }

    lemma SweepEnds(s: seq<TimerTask>, due: seq<bool>, done: seq<TimerTask>, i: nat)
      requires i <= |s| && At(s, i) == null && Swept(s, due, done, i)
      ensures Valid() && list == Kept(s, due, |s|) && executed == done + Gone(s, due, |s|)
    {
      assert s[i..] == [] && Kept(s, due, i) + [] == Kept(s, due, i);
    }

    lemma SweepStarts(due: seq<bool>)
      requires Valid() && |due| == |list|
      ensures Swept(list, due, executed, 0) && m_tasks == At(list, 0)
    {
      assert list[0..] == list && [] + list[0..] == list && executed + [] == executed;
    }

    lemma NextIs(k: nat)
      requires Valid() && k < |list|
      ensures list[k].next == At(list, k + 1)
    {
    }
  }

  lemma TaskAt(s: seq<TimerTask>, i: nat)
    requires i <= |s| && At(s, i) != null
    ensures i < |s| && At(s, i) == s[i]
  {
  }

  lemma DueHere(s: seq<TimerTask>, clock: nat -> nat, due: seq<bool>, i: nat)
    requires i < |s| && due == Due(s, clock)
    ensures |due| == |s| && due[i] == (clock(i) >= s[i].deadline || s[i].cancled)
  {
  }

  lemma OneMoreGone(done: seq<TimerTask>, gone: seq<TimerTask>, t: TimerTask)
    ensures done + (gone + [t]) == (done + gone) + [t] && gone + [] == gone
  {
  }

  /** Where the sweep stands in the list. */
  lemma Behind(s: seq<TimerTask>, due: seq<bool>, i: nat, list: seq<TimerTask>, kept: seq<TimerTask>)
    requires i < |s| == |due| && kept == Kept(s, due, i) && list == kept + s[i..] && LastStays(due)
    ensures var k := |kept|;
            && k < |list| && list[k] == s[i] && At(list, k + 1) == At(s, i + 1)
            && (due[i] && k > 0 ==> k + 1 < |list|)
    ensures Set(list) <= Set(s)
  {
    if due[i] && i + 1 == |s| {
      KeptNone(s, due, i);
    }
    KeptAre(s, due, i);
    hide Kept;
  }

  lemma {:induction false} KeptNone(s: seq<TimerTask>, due: seq<bool>, n: nat)
    requires n <= |s| == |due|
    ensures Kept(s, due, n) == [] <==> forall i | 0 <= i < n :: due[i]
  {
    if n > 0 {
      KeptNone(s, due, n - 1);
    }
  }

  /** Whenever a task that goes has a predecessor left, it has a successor, if and only if the last task
      stays or all go. */
  lemma NextIsThere(s: seq<TimerTask>, due: seq<bool>)
    requires |s| == |due|
    ensures LastStays(due) <==> forall i | 0 <= i < |s| && due[i] && Kept(s, due, i) != [] :: i + 1 < |s|
  {
    if s != [] {
      var last := |s| - 1;
      KeptNone(s, due, last);
      hide Kept;
      if due[last] && Kept(s, due, last) != [] {
        assert !(last + 1 < |s|);
      }
    }
  }

  /** Two clock readings are enough for the other case: the first task is not due yet, the last one is. */
  lemma TwoReadings(t: TimerTask, u: TimerTask)
    requires t.deadline == 5 && u.deadline == 6 && !t.cancled
    ensures var due := Due([t, u], i => if i == 0 then 4 else 6); due == [false, true] && !LastStays(due)
  {
    var due := Due([t, u], i => if i == 0 then 4 else 6);
    assert !due[0] && due[1];
  }

  lemma {:induction false} KeptAre(s: seq<TimerTask>, due: seq<bool>, n: nat)
    requires n <= |s| == |due|
    ensures forall t | t in Kept(s, due, n) :: t in s
  {
    if n > 0 {
      KeptAre(s, due, n - 1);
    }
  }

  lemma {:induction false} KeptSorted(s: seq<TimerTask>, due: seq<bool>, n: nat)
    requires n <= |s| == |due|
    ensures Sorted(s) ==> Sorted(Kept(s, due, n))
  {
    if n > 0 && Sorted(s) {
      KeptSorted(s, due, n - 1);
      KeptBefore(s, due, n - 1);
      assert forall t | t in s[..n - 1] :: t.deadline <= s[n - 1].deadline;
    }
  }

  lemma {:induction false} KeptBefore(s: seq<TimerTask>, due: seq<bool>, n: nat)
    requires n <= |s| == |due|
    ensures forall t | t in Kept(s, due, n) :: t in s[..n]
  {
    if n > 0 {
      KeptBefore(s, due, n - 1);
      assert s[..n] == s[..n - 1] + [s[n - 1]];
    }
  }

  lemma KeptNext(s: seq<TimerTask>, due: seq<bool>, i: nat)
    requires i < |s| == |due|
    ensures Kept(s, due, i + 1) == Kept(s, due, i) + if due[i] then [] else [s[i]]
    ensures Gone(s, due, i + 1) == Gone(s, due, i) + if due[i] then [s[i]] else []
  {
  }

  lemma OneLess(s: seq<TimerTask>, i: nat, kept: seq<TimerTask>, list: seq<TimerTask>)
    requires i < |s| && list == kept + s[i..]
    ensures Removed(list, |kept|) == kept + [] + s[i + 1..] && list == kept + [s[i]] + s[i + 1..]
  {
  }

  // ---------------------------------------------------------------- one reading of the clock

  /** With one reading and nothing cancelled, a sorted list loses exactly its due tasks, which stand in
      front, and the code's assumption about the last task holds. */
  lemma OneReading(s: seq<TimerTask>, now: nat) returns (k: nat)
    requires Sorted(s) && forall t | t in s :: !t.cancled
    ensures var due := Due(s, Steady(now));
            && LastStays(due) && k <= |s|
            && Gone(s, due, |s|) == s[..k] && Kept(s, due, |s|) == s[k..]
    ensures forall i | 0 <= i < |s| :: s[i].deadline <= now <==> i < k
  {
    var due := Due(s, Steady(now));
    assert forall i | 0 <= i < |s| :: s[i] in s && due[i] == (s[i].deadline <= now);
    k := DueInFront(s, due, now, |s|);
    assert s[..|s|] == s;
  }

  /** What a sweep over `s` at `now` takes, and what it leaves. */
  lemma DueFirst(s: seq<TimerTask>, now: nat) returns (gone: seq<TimerTask>, kept: seq<TimerTask>)
    requires Sorted(s) && forall t | t in s :: !t.cancled
    ensures LastStays(Due(s, Steady(now))) && gone == Going(s, Steady(now)) && kept == Staying(s, Steady(now))
    ensures multiset(gone) + multiset(kept) == multiset(s)
    ensures (forall t | t in gone :: t.deadline <= now) && forall t | t in kept :: t.deadline > now
  {
    var k := OneReading(s, now);
    gone, kept := s[..k], s[k..];
    hide Due, Gone, Kept, LastStays;
    assert s == s[..k] + s[k..];
  }

  lemma NoneCancelled(was: seq<TimerTask>, added: seq<TimerTask>, s: seq<TimerTask>)
    requires multiset(s) == multiset(was) + multiset(added) && forall t | t in was + added :: !t.cancled
    ensures Set(s) <= Set(was + added) && forall t | t in s :: !t.cancled
  {
    forall t | t in s
      ensures t in was + added
    {
      assert t in multiset(s);
    }
  }

  lemma {:induction false} DueInFront(s: seq<TimerTask>, due: seq<bool>, now: nat, n: nat) returns (k: nat)
    requires Sorted(s) && n <= |s| == |due| && forall i | 0 <= i < |s| :: due[i] == (s[i].deadline <= now)
    ensures k <= n && Gone(s, due, n) == s[..k] && Kept(s, due, n) == s[k..n]
    ensures forall i | 0 <= i < n :: due[i] <==> i < k
  {
    if n == 0 {
      k := 0;
    } else {
      k := DueInFront(s, due, now, n - 1);
      assert forall i | 0 <= i < n - 1 :: s[i].deadline <= s[n - 1].deadline;
      if due[n - 1] {
        assert s[..n] == s[..n - 1] + [s[n - 1]];
        k := n;
      } else {
        assert s[k..n] == s[k..n - 1] + [s[n - 1]];
      }
    }
  }
}
