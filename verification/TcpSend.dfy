/** The sending side of a connection: callers queue buffers while the poll thread writes them out. */
module TcpSend {
  import opened Basics

  // ---------------------------------------------------------------- the protocol, step by step

  /** Where the poll thread is: between events, before the lock, at the head of the buffer loop, in the
      write loop, or with a refused write. */
  datatype Pc = Idle | Entered | AtBuffer | Writing | Refused

  /** `accepted` is all that callers have sent, `wire` all that the socket has taken. */
  datatype Sys = Sys(queue: seq<Bytes>, curr: seq<Bytes>, currSize: nat, registered: bool, armed: bool,
                     pc: Pc, accepted: Bytes, wire: Bytes)

  /** One region under the send lock, one socket write, or one stretch of the poll thread. */
  datatype Step = Send(buf: Bytes) | Connect | PollOut | Take | Front | Write(n: int) | Pop | Rearm | Hup

  predicate Enabled(s: Sys, e: Step) {
    match e
    case Send(_) => true
    case Connect => !s.registered
    case PollOut => s.pc.Idle? && s.registered && s.armed
    case Take => s.pc.Entered?
    case Front => s.pc.AtBuffer?
    case Write(n) => s.pc.Writing? && s.currSize > 0 && n <= s.currSize
    case Pop => s.pc.Writing? && s.currSize == 0
    case Rearm => s.pc.Refused?
    case Hup => s.pc.Idle? && s.registered
  }

  /** The unsent end of the buffer in hand. */
  function Tail(b: Bytes, size: nat): Bytes {
    if size <= |b| then b[|b| - size..] else b
  }

  function Apply(s: Sys, e: Step): Sys {
    match e
    case Send(b) => s.(queue := s.queue + [b], accepted := s.accepted + b, armed := s.armed || s.registered)
    case Connect => s.(registered := true, armed := false)
    case PollOut => s.(pc := Entered)
    case Take =>
      if s.curr != [] then s.(pc := AtBuffer)
      else if s.queue != [] then s.(curr := s.queue, queue := [], currSize := 0, pc := AtBuffer)
      else s.(currSize := 0, armed := s.armed && !s.registered, pc := AtBuffer)
    case Front =>
      if s.curr == [] then s.(pc := Idle)
      else s.(currSize := if s.currSize > 0 then s.currSize else |s.curr[0]|, pc := Writing)
    case Write(n) =>
      if n <= 0 then s.(pc := Refused)
      else if s.curr == [] || n > s.currSize then s
      else s.(wire := s.wire + Tail(s.curr[0], s.currSize)[..Least(n, |Tail(s.curr[0], s.currSize)|)],
        currSize := s.currSize - n)
    case Pop => if s.curr == [] then s else s.(curr := s.curr[1..], currSize := 0, pc := AtBuffer)
    case Rearm => s.(armed := s.armed || s.registered, pc := Idle)
    case Hup => s.(registered := false)
  }

  function Least(a: nat, b: nat): nat { if a < b then a else b }

  ghost predicate Legal(s: Sys, run: seq<Step>) {
    run == [] || (Legal(s, run[..|run| - 1]) && Enabled(Run(s, run[..|run| - 1]), run[|run| - 1]))
  }

  ghost function Run(s: Sys, run: seq<Step>): Sys {
    if run == [] then s else Apply(Run(s, run[..|run| - 1]), run[|run| - 1])
  }

  /** What is in hand and not yet on the wire. */
  ghost function InHand(s: Sys): Bytes {
    if s.curr == [] then []
    else (if s.pc.Writing? || s.currSize > 0 then Tail(s.curr[0], s.currSize) else s.curr[0]) + Flat(s.curr[1..])
  }

  ghost predicate Conserved(s: Sys) {
    s.wire + InHand(s) + Flat(s.queue) == s.accepted
  }

  predicate Pending(s: Sys) { s.curr != [] || s.queue != [] }

  /** Something is pending on a registered socket, and POLLOUT is not asked for. */
  predicate Unasked(s: Sys) { s.registered && Pending(s) && !s.armed }

  /** While nothing is registered or asked for, the poll thread stays away. */
  ghost predicate Shape(s: Sys) {
    && (!s.registered || Unasked(s) ==> s.pc.Idle?)
    && (s.curr != [] ==> s.currSize <= |s.curr[0]|)
    && (s.pc.Writing? || s.pc.Refused? ==> s.curr != [])
    && (s.pc.Refused? ==> s.currSize > 0)
  }

  ghost predicate Inv(s: Sys) {
    Shape(s) && Conserved(s)
  }

  /** A new connection, accepted and so registered or yet to be connected; the size field starts with any
      value. */
  function Start(currSize: nat, registered: bool): Sys {
    Sys([], [], currSize, registered, false, Idle, [], [])
  }

  lemma SendKeeps(s: Sys, b: Bytes)
    requires Inv(s)
    ensures Inv(Apply(s, Send(b)))
  {
    FlatSum(s.queue, [b]);
    FlatOne(b);
    hide Flat;
    assert s.wire + InHand(s) + (Flat(s.queue) + b) == (s.wire + InHand(s) + Flat(s.queue)) + b;
  }

  lemma TakeKeeps(s: Sys)
    requires Inv(s) && Enabled(s, Take)
    ensures Inv(Apply(s, Take))
  {
    if s.curr == [] && s.queue != [] {
      assert s.queue == [s.queue[0]] + s.queue[1..];
      assert Flat<uint8>([]) == [];
    }
  }

  lemma Moved(w: Bytes, t: Bytes, n: nat, r: Bytes, q: Bytes)
    requires n <= |t|
    ensures w + (t + r) + q == (w + t[..n]) + (t[n..] + r) + q
  {
  }

  lemma TailOfTail(b: Bytes, size: nat, n: nat)
    requires n <= size <= |b|
    ensures |Tail(b, size)| == size && Tail(b, size - n) == Tail(b, size)[n..]
  {
  }

  lemma WriteKeeps(s: Sys, n: int)
    requires Inv(s) && Enabled(s, Write(n))
    ensures Inv(Apply(s, Write(n)))
  {
    if n > 0 {
      var b, rest, t := s.curr[0], Flat(s.curr[1..]), Apply(s, Write(n));
      TailOfTail(b, s.currSize, n);
      Moved(s.wire, Tail(b, s.currSize), n, rest, Flat(s.queue));
      hide Flat, Tail;
      assert InHand(s) == Tail(b, s.currSize) + rest && InHand(t) == Tail(b, s.currSize - n) + rest;
      hide InHand;
    }
  }

  lemma PopKeeps(s: Sys)
    requires Inv(s) && Enabled(s, Pop)
    ensures Inv(Apply(s, Pop))
  {
    var rest := s.curr[1..];
    assert Tail(s.curr[0], 0) == [];
    assert InHand(s) == Flat(rest);
  }

  lemma FrontKeeps(s: Sys)
    requires Inv(s) && Enabled(s, Front)
    ensures Inv(Apply(s, Front))
  {
    hide Flat;
    if s.curr != [] {
      assert Tail(s.curr[0], |s.curr[0]|) == s.curr[0];
    }
  }

  lemma EventKeeps(s: Sys, e: Step)
    requires Inv(s) && Enabled(s, e) && (e.Connect? || e.PollOut? || e.Rearm? || e.Hup?)
    ensures Inv(Apply(s, e))
  {
    hide Flat;
  }

  /** Every step keeps the invariant. */
  lemma StepKeeps(s: Sys, e: Step)
    requires Inv(s) && Enabled(s, e)
    ensures Inv(Apply(s, e))
  {
    hide *;
    match e
    case Send(b) => SendKeeps(s, b);
    case Take => TakeKeeps(s);
    case Write(n) => WriteKeeps(s, n);
    case Pop => PopKeeps(s);
    case Front => FrontKeeps(s);
    case _ => EventKeeps(s, e);
  }

  lemma {:induction false} RunKeeps(s: Sys, run: seq<Step>)
    requires Inv(s) && Legal(s, run)
    ensures Inv(Run(s, run))
  {
    hide Inv;
    if run != [] {
      RunKeeps(s, run[..|run| - 1]);
      StepKeeps(Run(s, run[..|run| - 1]), run[|run| - 1]);
    }
  }

  /** All buffers given to `send`, in order. */
  ghost function Sent(run: seq<Step>): seq<Bytes> {
    if run == [] then []
    else Sent(run[..|run| - 1]) + (match run[|run| - 1] case Send(b) => [b] case _ => [])
  }

  lemma {:induction false} AcceptedIsSent(s: Sys, run: seq<Step>)
    ensures Run(s, run).accepted == s.accepted + Flat(Sent(run))
  {
    if run != [] {
      var init, e := run[..|run| - 1], run[|run| - 1];
      AcceptedIsSent(s, init);
      match e
      case Send(b) =>
        FlatSum(Sent(init), [b]);
        FlatOne(b);
      case _ =>
        assert Sent(run) == Sent(init);
    }
  }

  /** The last connect met something pending, and no send or hang-up has come since. */
  ghost predicate Stalled(s: Sys, run: seq<Step>) {
    run != []
    && var init := run[..|run| - 1];
    match run[|run| - 1]
    case Connect => Pending(Run(s, init))
    case Send(_) => false
    case Hup => false
    case _ => Stalled(s, init)
  }

  /** What one step does to the want of POLLOUT. */
  lemma UnaskedStep(s: Sys, e: Step)
    requires Inv(s) && Enabled(s, e)
    ensures Unasked(Apply(s, e)) <==>
              match e
              case Connect => Pending(s)
              case Send(_) => false
              case Hup => false
              case _ => Unasked(s)
  {
    hide Conserved;
  }

  /** In every interleaving POLLOUT is missing exactly where a connect met something pending and neither a
      send nor a hang-up came after it. */
  lemma {:induction false} UnaskedIsStalled(currSize: nat, registered: bool, run: seq<Step>)
    requires Legal(Start(currSize, registered), run)
    ensures Unasked(Run(Start(currSize, registered), run)) <==> Stalled(Start(currSize, registered), run)
  {
    if run != [] {
      var s, init := Start(currSize, registered), run[..|run| - 1];
      UnaskedIsStalled(currSize, registered, init);
      StartIsEmpty(currSize, registered);
      RunKeeps(s, init);
      hide Inv, Enabled, Apply, Unasked;
      UnaskedStep(Run(s, init), run[|run| - 1]);
    }
  }

  /** A send and then the connect: what was sent waits, and POLLOUT is not asked for. */
  lemma SendThenConnect(currSize: nat, b: Bytes)
    ensures var run, s := [Send(b), Connect], Start(currSize, false);
            Legal(s, run) && Stalled(s, run) && Unasked(Run(s, run)) && Run(s, run).wire == []
  {
    var run, s := [Send(b), Connect], Start(currSize, false);
    assert run[..1] == [Send(b)] && run[..1][..0] == [];
    assert Run(s, []) == s && Legal(s, []);
    assert Legal(s, run[..1]) && Run(s, run[..1]) == Apply(s, Send(b));
  }

  /** In every interleaving: what the socket has taken, then what is in hand, then what is queued, is
      exactly what was sent, and pending data keeps POLLOUT asked for, unless a connect has stalled it. */
  lemma NothingLost(currSize: nat, registered: bool, run: seq<Step>)
    requires Legal(Start(currSize, registered), run)
    ensures var t := Run(Start(currSize, registered), run);
            && t.wire + InHand(t) + Flat(t.queue) == Flat(Sent(run))
            && t.wire <= Flat(Sent(run))
            && (t.registered && Pending(t) ==> (t.armed <==> !Stalled(Start(currSize, registered), run)))
            && (t.wire != Flat(Sent(run)) ==> Pending(t))
  {
    hide *;
    var s := Start(currSize, registered);
    StartIsEmpty(currSize, registered);
    RunKeeps(s, run);
    AcceptedIsSent(s, run);
    UnaskedIsStalled(currSize, registered, run);
    WirePrefix(Run(s, run), Flat(Sent(run)));
  }

  lemma StartIsEmpty(currSize: nat, registered: bool)
    ensures Inv(Start(currSize, registered)) && Start(currSize, registered).accepted == []
    ensures forall m: Bytes :: [] + m == m
  {
  }

  lemma WirePrefix(t: Sys, all: Bytes)
    requires Inv(t) && t.accepted == all
    ensures t.wire + InHand(t) + Flat(t.queue) == all && t.wire <= all
    ensures t.registered && Pending(t) ==> (t.armed <==> !Unasked(t))
    ensures t.wire != all ==> Pending(t)
  {
    assert t.wire + InHand(t) + Flat(t.queue) == t.wire + (InHand(t) + Flat(t.queue));
  }

  lemma NextStep(s: Sys, run: seq<Step>, e: Step)
    requires Legal(s, run) && Enabled(Run(s, run), e)
    ensures Legal(s, run + [e]) && Run(s, run + [e]) == Apply(Run(s, run), e)
  {
    assert (run + [e])[..|run|] == run;
  }

  /** A poll event that finds nothing in hand and nothing queued asks for POLLOUT no longer. */
  lemma NothingToSend(currSize: nat, registered: bool, run: seq<Step>)
    requires Legal(Start(currSize, registered), run) && Enabled(Run(Start(currSize, registered), run), Take)
    requires !Pending(Run(Start(currSize, registered), run))
    ensures !Run(Start(currSize, registered), run + [Take]).armed
  {
    var s := Start(currSize, registered);
    StartIsEmpty(currSize, registered);
    RunKeeps(s, run);
    NextStep(s, run, Take);
    hide Run, Legal, Conserved;
  }

  /** The steps of the poll thread only. */
  predicate PollSteps(before: seq<Step>, run: seq<Step>) {
    before <= run && forall i | |before| <= i < |run| :: !run[i].Send? && !run[i].Connect? && !run[i].Hup?
  }

  /** The buffers in hand go out, where the socket takes all of each. */
  lemma {:induction false} Flush(s0: Sys, run: seq<Step>) returns (more: seq<Step>)
    requires Legal(s0, run) && Inv(Run(s0, run)) && Run(s0, run).pc.AtBuffer?
    ensures PollSteps(run, more) && Legal(s0, more) && Inv(Run(s0, more))
    ensures var s, t := Run(s0, run), Run(s0, more);
            t.pc.Idle? && t.curr == [] && t.queue == s.queue && t.armed == s.armed && t.registered == s.registered
            && t.accepted == s.accepted
    decreases |Run(s0, run).curr|
  {
    hide Legal, Run, Inv, InHand, Tail;
    more := Stepped(s0, run, Front);
    if Run(s0, run).curr != [] {
      var n := Run(s0, more).currSize;
      if n > 0 {
        InHandFits(Run(s0, more));
        more := Stepped(s0, more, Write(n));
      }
      more := Stepped(s0, more, Pop);
      more := Flush(s0, more);
    }
  }

  lemma InHandFits(s: Sys)
    requires Inv(s) && s.curr != []
    ensures s.currSize <= |s.curr[0]|
  {
  }

  lemma Stepped(s0: Sys, run: seq<Step>, e: Step) returns (more: seq<Step>)
    requires Legal(s0, run) && Inv(Run(s0, run)) && Enabled(Run(s0, run), e)
    ensures more == run + [e] && Legal(s0, more) && Run(s0, more) == Apply(Run(s0, run), e) && Inv(Run(s0, more))
  {
    hide Inv, Apply, Enabled;
    NextStep(s0, run, e);
    StepKeeps(Run(s0, run), e);
    more := run + [e];
  }

  /** Whenever POLLOUT is asked for between events, events in which the socket takes all that it is given put
      everything on the wire, and then POLLOUT is asked for no longer. */
  lemma {:induction false} Drains(s0: Sys, run: seq<Step>) returns (more: seq<Step>)
    requires Legal(s0, run) && Inv(Run(s0, run))
    requires Run(s0, run).pc.Idle? && Run(s0, run).registered && Run(s0, run).armed
    ensures PollSteps(run, more) && Legal(s0, more)
    ensures var t := Run(s0, more);
            t.wire == t.accepted == Run(s0, run).accepted && !Pending(t) && t.pc.Idle? && !t.armed
    decreases if Run(s0, run).curr != [] then 1 else 0, if Run(s0, run).queue != [] then 1 else 0
  {
    hide Legal, Run, Inv, InHand, Tail;
    more := Stepped(s0, run, PollOut);
    more := Stepped(s0, more, Take);
    more := Flush(s0, more);
    if Pending(Run(s0, run)) {
      more := Drains(s0, more);
    } else {
      AllOut(Run(s0, more));
    }
  }

  lemma AllOut(s: Sys)
    requires Inv(s) && !Pending(s)
    ensures s.wire == s.accepted
  {
  }

  // ---------------------------------------------------------------- the code

  class TcpConnection {
    var m_isServer: bool
    var m_sendBuffers: seq<Bytes>
    var m_currSendBuffers: seq<Bytes>
    var m_currSendSize: nat
    var m_currSendBytes: int
    /** The entry of the socket in `m_ep`: whether there is one, and POLLOUT in its event mask. */
    var registered: bool
    var pollOut: bool
    ghost var accepted: Bytes
    ghost var wire: Bytes
    ghost var pc: Pc
    /** What has happened so far, on all threads. */
    ghost var run: seq<Step>
    ghost const size0: nat
    ghost const accepted0: bool

    ghost function Abs(): Sys
      reads this
    {
      Sys(m_sendBuffers, m_currSendBuffers, m_currSendSize, registered, pollOut, pc, accepted, wire)
    }

    /** The object is where the steps taken lead. */
    ghost predicate Valid()
      reads this
    {
      Legal(Start(size0, accepted0), run) && Abs() == Run(Start(size0, accepted0), run)
    }

    /** An accepted connection, or one yet to be connected. */
    constructor (isAccepted: bool, currSendSize: nat, currSendBytes: int)
      ensures Valid() && run == [] && pc.Idle? && registered == isAccepted && !m_isServer
    {
      m_isServer := false;
      m_sendBuffers, m_currSendBuffers := [], [];
      m_currSendSize, m_currSendBytes := currSendSize, currSendBytes;
      registered, pollOut := isAccepted, false;
      accepted, wire, pc, run, size0, accepted0 := [], [], Idle, [], currSendSize, isAccepted;
    }

    method AddPollOut()
      modifies `pollOut
      ensures pollOut == (old(pollOut) || registered)
    {
      if registered { pollOut := true; }
    }

    method DelPollOut()
      modifies `pollOut
      ensures pollOut == (old(pollOut) && !registered)
    {
      if registered { pollOut := false; }
    }

    /** The end of a `connect` that succeeds: a new entry, with POLLIN only. */
    method Connect()
      requires Valid() && !registered
      modifies `m_isServer, `registered, `pollOut, `run
      ensures Valid() && run == old(run) + [Step.Connect] && !m_isServer
    {
      NextStep(Start(size0, accepted0), run, Step.Connect);
      hide Legal, Run;
      m_isServer := false;
      registered, pollOut := true, false;
      run := run + [Step.Connect];
    }

    /** The end of a `listen` that succeeds: the entry is made in the same way. */
    method Listen()
      requires Valid() && !registered
      modifies `m_isServer, `registered, `pollOut, `run
      ensures Valid() && run == old(run) + [Step.Connect] && m_isServer
    {
      Connect();
      m_isServer := true;
    }

    /** Called from any thread. */
    method Send(buf: Bytes)
      requires Valid()
      modifies `m_sendBuffers, `pollOut, `accepted, `run
      ensures Valid() && run == if m_isServer then old(run) else old(run) + [Step.Send(buf)]
      ensures m_isServer ==> Abs() == old(Abs())
    {
      if m_isServer { return; }
      NextStep(Start(size0, accepted0), run, Step.Send(buf));
      hide Legal, Run;
      m_sendBuffers := m_sendBuffers + [buf];
      AddPollOut();
      accepted := accepted + buf;
      run := run + [Step.Send(buf)];
    }

    /** Any number of sends by other threads. */
    method OtherThreads()
      requires Valid()
      modifies `m_sendBuffers, `pollOut, `accepted, `run
      ensures Valid() && old(run) <= run
    {
      hide *;
      var n: int :| n >= 0;
      for i := 0 to n
        invariant Valid() && old(run) <= run
      {
        var buf: Bytes := *;
        Send(buf);
      }
    }

    method TakeQueue()
      requires Valid() && pc.Entered?
      modifies `m_sendBuffers, `m_currSendBuffers, `m_currSendSize, `m_currSendBytes, `pollOut, `pc, `run
      ensures Valid() && run == old(run) + [Take] && pc.AtBuffer?
    {
      NextStep(Start(size0, accepted0), run, Take);
      hide Legal, Run;
      if m_currSendBuffers == [] {
        m_currSendSize := 0;
        m_currSendBytes := 0;
        if m_sendBuffers != [] {
          m_currSendBuffers := m_sendBuffers;
          m_sendBuffers := [];
        } else {
          DelPollOut();
        }
      }
      pc := AtBuffer;
      run := run + [Take];
    }

    /** Writes the front buffer out as far as the socket lets it. */
    method WriteFront() returns (intr: bool)
      requires Valid() && pc.AtBuffer? && m_currSendBuffers != []
      modifies this
      ensures Valid() && old(run) <= run && m_currSendBuffers == old(m_currSendBuffers)
      ensures if intr then pc.Refused? else pc.Writing? && m_currSendSize == 0
    {
      InHandFits();
      NextStep(Start(size0, accepted0), run, Front);
      hide Legal, Run;
      var buffer := m_currSendBuffers[0];
      m_currSendSize := if m_currSendSize > 0 then m_currSendSize else |buffer|;
      m_currSendBytes := if m_currSendBytes > 0 then m_currSendBytes else 0;
      var p := |buffer| - m_currSendSize;
      run, pc := run + [Front], Writing;
      intr := WriteRest(buffer, p);
    }

    /** The write loop, from `p` on. */
    method WriteRest(buffer: Bytes, p0: nat) returns (intr: bool)
      requires Valid() && pc.Writing? && m_currSendBuffers != [] && m_currSendBuffers[0] == buffer
      requires p0 + m_currSendSize == |buffer|
      modifies this
      ensures Valid() && old(run) <= run && m_currSendBuffers == old(m_currSendBuffers)
      ensures if intr then pc.Refused? else pc.Writing? && m_currSendSize == 0
    {
      hide *;
      var p := p0;
      while m_currSendSize > 0
        invariant Valid() && old(run) <= run && pc.Writing? && m_currSendBuffers == old(m_currSendBuffers)
        invariant p + m_currSendSize == |buffer|
        decreases m_currSendSize
      {
        OtherThreads();
        var refused := WriteOnce(buffer, p);
        if refused { return true; }
        p := p + m_currSendBytes;
      }
      return false;
    }

    lemma InHandFits()
      requires Valid() && m_currSendBuffers != []
      ensures m_currSendSize <= |m_currSendBuffers[0]|
    {
      StartIsEmpty(size0, accepted0);
      RunKeeps(Start(size0, accepted0), run);
      hide Legal, Run;
    }

    /** One socket write of `buffer[p..]`: the socket takes what it likes, or refuses. */
    method WriteOnce(buffer: Bytes, p: nat) returns (refused: bool)
      requires Valid() && pc.Writing? && m_currSendBuffers != [] && m_currSendBuffers[0] == buffer
      requires m_currSendSize > 0 && p + m_currSendSize == |buffer|
      modifies `m_currSendBytes, `m_currSendSize, `wire, `pc, `run
      ensures Valid() && old(run) <= run
      ensures m_currSendSize + (if refused then 0 else m_currSendBytes) == old(m_currSendSize)
      ensures if refused then pc.Refused? else pc.Writing? && m_currSendBytes > 0
    {
      var n: int :| n <= m_currSendSize;
      NextStep(Start(size0, accepted0), run, Write(n));
      hide Legal, Run;
      m_currSendBytes := n;
      run := run + [Write(n)];
      if m_currSendBytes <= 0 {
        pc := Refused;
        return true;
      }
      assert Tail(buffer, m_currSendSize)[..n] == buffer[p..p + n];
      wire := wire + buffer[p..p + n];
      m_currSendSize := m_currSendSize - m_currSendBytes;
      return false;
    }

    /** The POLLOUT part of `onClientSocketUpdate`, while other threads go on sending. */
    method OnPollOut()
      requires Valid() && pc.Idle? && registered && pollOut
      modifies this
      ensures Valid() && old(run) + [PollOut] <= run && pc.Idle?
      ensures run[|run| - 1] == Rearm || (run[|run| - 1] == Front && m_currSendBuffers == [])
    {
      hide *;
      Enter();
      OtherThreads();
      TakeQueue();
      ghost var run0 := old(run) + [PollOut];
      var intr := false;
      while m_currSendBuffers != [] && !intr
        invariant Valid() && run0 <= run
        invariant if intr then pc.Idle? && run[|run| - 1] == Rearm else pc.AtBuffer?
        decreases |m_currSendBuffers|, !intr
      {
        intr := NextBuffer();
      }
      if !intr { Leave(); }
    }

    /** One turn of the buffer loop: the front buffer goes out and is dropped, or the socket refuses. */
    method NextBuffer() returns (intr: bool)
      requires Valid() && pc.AtBuffer? && m_currSendBuffers != []
      modifies this
      ensures Valid() && old(run) <= run
      ensures intr ==> pc.Idle? && run[|run| - 1] == Rearm && m_currSendBuffers == old(m_currSendBuffers)
      ensures !intr ==> pc.AtBuffer? && m_currSendBuffers == old(m_currSendBuffers)[1..]
    {
      hide *;
      intr := WriteFront();
      OtherThreads();
      if intr {
        Rearming();
      } else {
        PopFront();
      }
    }

    method Enter()
      requires Valid() && pc.Idle? && registered && pollOut
      modifies `pc, `run
      ensures Valid() && run == old(run) + [PollOut] && pc.Entered?
    {
      NextStep(Start(size0, accepted0), run, PollOut);
      hide Legal, Run;
      run, pc := run + [PollOut], Entered;
    }

    method Rearming()
      requires Valid() && pc.Refused?
      modifies `pollOut, `pc, `run
      ensures Valid() && run == old(run) + [Rearm] && pc.Idle?
    {
      NextStep(Start(size0, accepted0), run, Rearm);
      hide Legal, Run;
      AddPollOut();
      run, pc := run + [Rearm], Idle;
    }

    method PopFront()
      requires Valid() && pc.Writing? && m_currSendBuffers != [] && m_currSendSize == 0
      modifies `m_currSendBuffers, `m_currSendSize, `m_currSendBytes, `pc, `run
      ensures Valid() && run == old(run) + [Pop] && pc.AtBuffer? && m_currSendBuffers == old(m_currSendBuffers)[1..]
    {
      NextStep(Start(size0, accepted0), run, Pop);
      hide Legal, Run;
      m_currSendSize := 0;
      m_currSendBytes := 0;
      m_currSendBuffers := m_currSendBuffers[1..];
      run, pc := run + [Pop], AtBuffer;
    }

    method Leave()
      requires Valid() && pc.AtBuffer? && m_currSendBuffers == []
      modifies `pc, `run
      ensures Valid() && run == old(run) + [Front] && pc.Idle?
    {
      NextStep(Start(size0, accepted0), run, Front);
      hide Legal, Run;
      run, pc := run + [Front], Idle;
    }

    /** POLLHUP: the entry goes away, and with it every interest. */
    method OnHangUp()
      requires Valid() && pc.Idle? && registered
      modifies `registered, `run
      ensures Valid() && run == old(run) + [Hup]
    {
      NextStep(Start(size0, accepted0), run, Hup);
      hide Legal, Run;
      registered := false;
      run := run + [Hup];
    }

    /** What this means for the object, at any moment. */
    lemma ObjectLosesNothing()
      requires Valid()
      ensures wire <= Flat(Sent(run)) && (m_currSendBuffers == [] && m_sendBuffers == [] ==> wire == Flat(Sent(run)))
      ensures registered && (m_currSendBuffers != [] || m_sendBuffers != []) ==>
                (pollOut <==> !Stalled(Start(size0, accepted0), run))
    {
      NothingLost(size0, accepted0, run);
      hide Run, Legal, Sent, Flat;
    }
  }
}
