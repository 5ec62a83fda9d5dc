/** The message bus server: who is connected, who subscribed to what, and who gets a message. */
module MsgServer {
  import opened Basics
  import opened Buffers
  import opened Framing
  import opened MsgFraming

  // ---------------------------------------------------------------- what callbacks mean

  const REGISTER: uint32 := 0
  const HEART_BEAT: uint32 := 1
  const MSG_TRANS: uint32 := 2
  const RSP: uint32 := 1

  /** The callbacks, one at a time.  A connection is known by a number. */
  datatype Event = Accept(conn: nat) | Packet(conn: nat, pkg: Bytes) | Close(conn: nat) | ServerClose

  /** Words of the payload, as they lie in memory (low byte first). */
  function Words(b: Bytes): (ws: seq<uint32>)
    ensures |ws| == |b| / 4
  {
    if |b| < 4 then []
    else
      [b[0] as uint32 + b[1] as uint32 * 0x100 + b[2] as uint32 * 0x1_0000 + b[3] as uint32 * 0x100_0000] +
      Words(b[4..])
  }

  predicate IsRegister(pkg: Bytes) { |pkg| >= HEADER_SIZE && HeaderOf(pkg).code == REGISTER }

  /** The message ids that a registration names. */
  function Ids(pkg: Bytes): seq<uint32> {
    if |pkg| >= HEADER_SIZE then Words(pkg[HEADER_SIZE..]) else []
  }

  /** The session of a connection: the event that accepted it. */
  ghost function SessionOf(h: seq<Event>, conn: nat): Option<nat> {
    if h == [] then None
    else
      var was := SessionOf(h[..|h| - 1], conn);
      match h[|h| - 1]
      case Accept(c) => if c == conn && was.None? then Some(|h| - 1) else was
      case Close(c) => if c == conn then None else was
      case _ => was
  }

  /** Session `s` is open and has registered `id` since the last server close. */
  ghost predicate Subscribed(h: seq<Event>, s: nat, id: uint32) {
    h != [] &&
    var init := h[..|h| - 1];
    match h[|h| - 1]
    case Packet(c, pkg) =>
      Subscribed(init, s, id) || (SessionOf(init, c) == Some(s) && IsRegister(pkg) && id in Ids(pkg))
    case Close(c) => Subscribed(init, s, id) && SessionOf(init, c) != Some(s)
    case ServerClose => false
    case Accept(_) => Subscribed(init, s, id)
  }

  /** The client id a session last registered with, or 0. */
  ghost function ClientIdOf(h: seq<Event>, s: nat): uint32 {
    if h == [] then 0 as uint32
    else
      var init := h[..|h| - 1];
      match h[|h| - 1]
      case Packet(c, pkg) =>
        if SessionOf(init, c) == Some(s) && IsRegister(pkg) then HeaderOf(pkg).from else ClientIdOf(init, s)
      case _ => ClientIdOf(init, s)
  }

  ghost predicate Live(h: seq<Event>, s: nat) {
    s < |h| && h[s].Accept? && SessionOf(h, h[s].conn) == Some(s)
  }

  /** Event `i` is a registration of `id` by session `s`. */
  ghost predicate Registers(h: seq<Event>, i: nat, s: nat, id: uint32) {
    i < |h| && h[i].Packet? && SessionOf(h[..i], h[i].conn) == Some(s) && IsRegister(h[i].pkg) && id in Ids(h[i].pkg)
  }

  ghost predicate NoCloseFrom(h: seq<Event>, i: nat) {
    forall j | i <= j < |h| :: !h[j].ServerClose?
  }

  lemma {:induction false} SessionIsAccept(h: seq<Event>, conn: nat)
    requires SessionOf(h, conn).Some?
    ensures var s := SessionOf(h, conn).value; s < |h| && h[s] == Accept(conn)
  {
    if h != [] && SessionOf(h[..|h| - 1], conn).Some? {
      SessionIsAccept(h[..|h| - 1], conn);
    }
  }

  /** Once closed, a session does not come back. */
  lemma {:induction false} LiveBefore(h: seq<Event>, s: nat)
    requires h != [] && Live(h, s) && s < |h| - 1
    ensures Live(h[..|h| - 1], s)
  {
    var init := h[..|h| - 1];
    if SessionOf(init, h[s].conn).Some? {
      SessionIsAccept(init, h[s].conn);
    }
  }

  lemma {:induction false} SubscribedIsLive(h: seq<Event>, s: nat, id: uint32)
    requires Subscribed(h, s, id)
    ensures Live(h, s)
  {
    var init, e := h[..|h| - 1], h[|h| - 1];
    if Subscribed(init, s, id) {
      SubscribedIsLive(init, s, id);
      assert h[s] == init[s];
    } else {
      SessionIsAccept(init, e.conn);
    }
  }

  /** The running definition says: a live session that registered the id since the last server close. */
  lemma {:induction false} SubscribedMeans(h: seq<Event>, s: nat, id: uint32)
    ensures Subscribed(h, s, id) <==> Live(h, s) && exists i: nat :: Registers(h, i, s, id) && NoCloseFrom(h, i)
  {
    if Subscribed(h, s, id) {
      SubscribedIsLive(h, s, id);
      var i := Registration(h, s, id);
    }
    if Live(h, s) && exists i: nat :: Registers(h, i, s, id) && NoCloseFrom(h, i) {
      var i: nat :| Registers(h, i, s, id) && NoCloseFrom(h, i);
      StaysSubscribed(h, s, id, i);
    }
  }

  lemma {:induction false} Registration(h: seq<Event>, s: nat, id: uint32) returns (i: nat)
    requires Subscribed(h, s, id)
    ensures Registers(h, i, s, id) && NoCloseFrom(h, i)
  {
    var init := h[..|h| - 1];
    if Subscribed(init, s, id) {
      i := Registration(init, s, id);
      assert h[..i] == init[..i] && h[i] == init[i];
    } else {
      i := |h| - 1;
      assert h[..i] == init;
    }
  }

  lemma {:induction false} StaysSubscribed(h: seq<Event>, s: nat, id: uint32, i: nat)
    requires Live(h, s) && Registers(h, i, s, id) && NoCloseFrom(h, i)
    ensures Subscribed(h, s, id)
  {
    var init := h[..|h| - 1];
    if i == |h| - 1 {
      assert h[..i] == init;
    } else {
      assert h[..i] == init[..i] && h[i] == init[i];
      SessionIsAccept(h[..i], h[i].conn);
      assert s < i && forall j | i <= j < |init| :: init[j] == h[j];
      LiveBefore(h, s);
      StaysSubscribed(init, s, id, i);
      if h[|h| - 1].Close? {
        ClosedIsNotLive(h, s);
      }
    }
  }

  lemma ClosedIsNotLive(h: seq<Event>, s: nat)
    requires h != [] && Live(h, s) && h[|h| - 1].Close?
    ensures SessionOf(h[..|h| - 1], h[|h| - 1].conn) != Some(s)
  {
    var init, c := h[..|h| - 1], h[|h| - 1].conn;
    if SessionOf(init, c) == Some(s) {
      SessionIsAccept(init, c);
    }
  }

  /** A session that does not exist yet has no subscription and no id. */
  lemma {:induction false} NewSession(h: seq<Event>, s: nat, id: uint32)
    requires s >= |h|
    ensures !Subscribed(h, s, id) && ClientIdOf(h, s) == 0
  {
    if h != [] {
      var init, e := h[..|h| - 1], h[|h| - 1];
      NewSession(init, s, id);
      if e.Packet? && SessionOf(init, e.conn) == Some(s) {
        SessionIsAccept(init, e.conn);
      }
    }
  }

  // How the meaning grows by one event.

  lemma AfterAccept(h: seq<Event>, conn: nat)
    ensures var h' := h + [Accept(conn)];
            && (forall c ::
                  SessionOf(h', c) == if c == conn && SessionOf(h, c).None? then Some(|h|) else SessionOf(h, c))
            && (forall s: nat, id :: Subscribed(h', s, id) == Subscribed(h, s, id))
            && (forall s: nat :: ClientIdOf(h', s) == ClientIdOf(h, s))
            && (forall id :: !Subscribed(h, |h|, id)) && ClientIdOf(h, |h|) == 0
  {
    assert (h + [Accept(conn)])[..|h|] == h;
    forall id
      ensures !Subscribed(h, |h|, id)
    {
      NewSession(h, |h|, id);
    }
    NewSession(h, |h|, 0);
  }

  lemma AfterServerClose(h: seq<Event>)
    ensures var h' := h + [ServerClose];
            && (forall c :: SessionOf(h', c) == SessionOf(h, c))
            && (forall s: nat, id :: !Subscribed(h', s, id))
            && (forall s: nat :: ClientIdOf(h', s) == ClientIdOf(h, s))
  {
    assert (h + [ServerClose])[..|h|] == h;
  }

  lemma AfterClose(h: seq<Event>, conn: nat)
    ensures var h' := h + [Close(conn)];
            && (forall c :: SessionOf(h', c) == if c == conn then None else SessionOf(h, c))
            && (forall s: nat, id :: Subscribed(h', s, id) == (Subscribed(h, s, id) && SessionOf(h, conn) != Some(s)))
            && (forall s: nat :: ClientIdOf(h', s) == ClientIdOf(h, s))
  {
    assert (h + [Close(conn)])[..|h|] == h;
  }

  lemma AfterPacket(h: seq<Event>, conn: nat, pkg: Bytes)
    ensures var h' := h + [Packet(conn, pkg)];
            && (forall c :: SessionOf(h', c) == SessionOf(h, c))
            && (forall s: nat, id :: Subscribed(h', s, id) ==
                  (Subscribed(h, s, id) || (SessionOf(h, conn) == Some(s) && IsRegister(pkg) && id in Ids(pkg))))
            && (forall s: nat :: ClientIdOf(h', s) ==
                  if SessionOf(h, conn) == Some(s) && IsRegister(pkg) then HeaderOf(pkg).from else ClientIdOf(h, s))
  {
    assert (h + [Packet(conn, pkg)])[..|h|] == h;
  }

  /** Two connections never share a session. */
  lemma SessionsApart(h: seq<Event>, c: nat, d: nat)
    requires SessionOf(h, c).Some? && SessionOf(h, c) == SessionOf(h, d)
    ensures c == d
  {
    SessionIsAccept(h, c);
    SessionIsAccept(h, d);
  }

  /** Connection `c` is to get the package: a request goes to the subscribers of its id, a response to
      the sessions with its target as their id. */
  ghost predicate ShouldGet(h: seq<Event>, pkg: Bytes, c: nat) {
    && |pkg| >= HEADER_SIZE && HeaderOf(pkg).code == MSG_TRANS && SessionOf(h, c).Some?
    && var s, hdr := SessionOf(h, c).value, HeaderOf(pkg);
    if hdr.options % 2 == 0 then Subscribed(h, s, hdr.msgId) && (hdr.target == 0 || ClientIdOf(h, s) == hdr.target)
    else ClientIdOf(h, s) == hdr.target
  }

  /** The answer to a registration or a heart beat. */
  ghost function Reply(pkg: Bytes, gid: uint32): Bytes
    requires |pkg| >= HEADER_SIZE
  {
    var hdr := HeaderOf(pkg);
    var rsp := hdr.(target := hdr.from, from := 0, options := RSP);
    HeaderBytes(Stamped(rsp, HEADER_SIZE as uint32, if hdr.id == 0 then Next(gid) else gid))
  }

  // ---------------------------------------------------------------- the same from the history alone

  /** The count of ids after an answer, which uses one if the package has none. */
  ghost function IdsUsed(pkg: Bytes, gid: uint32): uint32
    requires |pkg| >= HEADER_SIZE
  {
    if HeaderOf(pkg).id == 0 then Next(gid) else gid
  }

  /** Event `s` accepted the connection while it was closed, and no close of it has come since. */
  ghost predicate Opened(h: seq<Event>, s: nat, conn: nat) {
    && s < |h| && h[s] == Accept(conn) && (forall j | s < j < |h| :: h[j] != Close(conn))
    && forall i | 0 <= i < s && h[i] == Accept(conn) :: exists j :: i < j < s && h[j] == Close(conn)
  }

  lemma {:induction false} SessionMeans(h: seq<Event>, conn: nat, s: nat)
    ensures SessionOf(h, conn) == Some(s) <==> Opened(h, s, conn)
  {
    if h != [] {
      var init, e := h[..|h| - 1], h[|h| - 1];
      SessionMeans(init, conn, s);
      if s < |init| {
        OpenedBefore(h, s, conn);
        if e == Accept(conn) && SessionOf(init, conn).None? {
          assert !Opened(init, s, conn);
        }
      } else if e == Accept(conn) {
        AcceptOpens(init, conn);
        assert Opened(h, |init|, conn) <==> ClosedSince(init, conn);
      }
    }
  }

  /** Every accept of the connection has been closed. */
  ghost predicate ClosedSince(h: seq<Event>, conn: nat) {
    forall i | 0 <= i < |h| && h[i] == Accept(conn) :: exists j :: i < j < |h| && h[j] == Close(conn)
  }

  lemma OpenedBefore(h: seq<Event>, s: nat, conn: nat)
    requires h != [] && s < |h| - 1
    ensures Opened(h, s, conn) <==> Opened(h[..|h| - 1], s, conn) && h[|h| - 1] != Close(conn)
  {
    var init := h[..|h| - 1];
    assert forall j | 0 <= j < |init| :: init[j] == h[j];
  }

  lemma {:induction false} AcceptOpens(h: seq<Event>, conn: nat)
    ensures SessionOf(h, conn).None? <==> ClosedSince(h, conn)
  {
    if h != [] {
      var init, e := h[..|h| - 1], h[|h| - 1];
      AcceptOpens(init, conn);
      assert forall j | 0 <= j < |init| :: init[j] == h[j];
      if e != Close(conn) && ClosedSince(h, conn) && e != Accept(conn) {
        assert ClosedSince(init, conn);
      }
    }
  }

  /** Event `i` is a registration by session `s`, with any ids. */
  ghost predicate Named(h: seq<Event>, i: nat, s: nat) {
    i < |h| && h[i].Packet? && SessionOf(h[..i], h[i].conn) == Some(s) && IsRegister(h[i].pkg)
  }

  /** The id of a session is that of its last registration. */
  lemma {:induction false} ClientIdMeans(h: seq<Event>, s: nat, i: nat)
    requires Named(h, i, s) && forall j: nat | i < j < |h| :: !Named(h, j, s)
    ensures |h[i].pkg| >= 32 && ClientIdOf(h, s) == HeaderOf(h[i].pkg).from
  {
    NextClientId(h, s);
    if i < |h| - 1 {
      forall j: nat {
        NamedBefore(h, j, s);
      }
      hide Named, ClientIdOf, HeaderOf;
      ClientIdMeans(h[..|h| - 1], s, i);
    }
  }

  /** And 0 before there is one. */
  lemma {:induction false} NoClientId(h: seq<Event>, s: nat)
    requires forall j: nat | j < |h| :: !Named(h, j, s)
    ensures ClientIdOf(h, s) == 0
  {
    if h != [] {
      NextClientId(h, s);
      forall j: nat {
        NamedBefore(h, j, s);
      }
      hide Named, ClientIdOf;
      NoClientId(h[..|h| - 1], s);
    }
  }

  lemma NamedBefore(h: seq<Event>, i: nat, s: nat)
    requires h != []
    ensures i < |h| - 1 ==> Named(h, i, s) == Named(h[..|h| - 1], i, s) && h[i] == h[..|h| - 1][i]
    ensures i >= |h| - 1 ==> !Named(h[..|h| - 1], i, s)
    ensures Named(h, i, s) ==> i < |h|
  {
    if i < |h| - 1 {
      assert h[..i] == h[..|h| - 1][..i];
    }
    hide SessionOf, IsRegister;
  }

  lemma NextClientId(h: seq<Event>, s: nat)
    requires h != []
    ensures var n := |h| - 1;
            && (Named(h, n, s) ==> h[n].Packet? && |h[n].pkg| >= HEADER_SIZE &&
                                   ClientIdOf(h, s) == HeaderOf(h[n].pkg).from)
            && (!Named(h, n, s) ==> ClientIdOf(h, s) == ClientIdOf(h[..n], s))
  {
    hide SessionOf, HeaderOf;
  }

  /** The ids of a registration are 32-bit words behind the header, low byte first. */
  lemma {:induction false} WordsAre(b: Bytes, i: nat)
    requires 4 * i + 4 <= |b|
    ensures i < |Words(b)|
    ensures Words(b)[i] as nat == b[4 * i] as nat + 0x100 * b[4 * i + 1] as nat + 0x1_0000 * b[4 * i + 2] as nat +
                                  0x100_0000 * b[4 * i + 3] as nat
    decreases i
  {
    if i > 0 {
      WordsAre(b[4..], i - 1);
    }
  }

  lemma IdsAre(pkg: Bytes, i: nat)
    requires 32 + 4 * i + 4 <= |pkg|
    ensures |Ids(pkg)| == (|pkg| - 32) / 4 && i < |Ids(pkg)|
    ensures var b := pkg[32 + 4 * i..32 + 4 * i + 4];
            Ids(pkg)[i] as nat == b[0] as nat + 0x100 * b[1] as nat + 0x1_0000 * b[2] as nat + 0x100_0000 * b[3] as nat
  {
    WordsAre(pkg[HEADER_SIZE..], i);
    hide Words;
  }

  /** A request goes to a connection if and only if its session is open, has registered the id since the last
      server close, and is the target, if there is one. */
  lemma RequestGoesTo(h: seq<Event>, pkg: Bytes, c: nat)
    requires |pkg| >= 32 && HeaderOf(pkg).code == 2 && HeaderOf(pkg).options % 2 == 0
    ensures ShouldGet(h, pkg, c) <==>
              exists s: nat, i: nat :: Opened(h, s, c) && Registers(h, i, s, HeaderOf(pkg).msgId) && NoCloseFrom(h, i)
                                       && (HeaderOf(pkg).target == 0 || HeaderOf(pkg).target == ClientIdOf(h, s))
  {
    hide HeaderOf, SessionOf, Subscribed, ClientIdOf, Opened, Registers, NoCloseFrom;
    forall s: nat {
      SessionMeans(h, c, s);
    }
    if SessionOf(h, c).Some? {
      var s := SessionOf(h, c).value;
      SessionIsLive(h, c);
      SubscribedMeans(h, s, HeaderOf(pkg).msgId);
    }
    hide Live;
  }

  lemma SessionIsLive(h: seq<Event>, c: nat)
    requires SessionOf(h, c).Some?
    ensures Live(h, SessionOf(h, c).value)
  {
    SessionIsAccept(h, c);
  }

  /** A response goes to the open sessions with its target as their id. */
  lemma ResponseGoesTo(h: seq<Event>, pkg: Bytes, c: nat)
    requires |pkg| >= 32 && HeaderOf(pkg).code == 2 && HeaderOf(pkg).options % 2 == 1
    ensures ShouldGet(h, pkg, c) <==> exists s: nat :: Opened(h, s, c) && ClientIdOf(h, s) == HeaderOf(pkg).target
  {
    hide HeaderOf, SessionOf, ClientIdOf, Opened, Subscribed;
    forall s: nat {
      SessionMeans(h, c, s);
    }
  }

  /** A registration has code 0, a heart beat code 1; both are answered with the header turned round, no data
      and the option of a response, and go to nobody else. */
  lemma AnswerIs(h: seq<Event>, pkg: Bytes, gid: uint32, c: nat)
    requires |pkg| >= 32
    ensures IsRegister(pkg) <==> HeaderOf(pkg).code == 0
    ensures Answered(pkg) <==> HeaderOf(pkg).code == 0 || HeaderOf(pkg).code == 1
    ensures HeaderOf(pkg).code != 2 ==> !ShouldGet(h, pkg, c)
    ensures IsPackage(Reply(pkg, gid)) && |Reply(pkg, gid)| == 32
    ensures var r, q := HeaderOf(Reply(pkg, gid)), HeaderOf(pkg);
            && r.target == q.from && r.from == 0 && r.code == q.code && r.msgId == q.msgId && r.options == 1
            && (if q.id != 0 then r.id == q.id && IdsUsed(pkg, gid) == gid
                else r.id == IdsUsed(pkg, gid) == if gid == 0xFFFF_FFFF then 0 else gid + 1)
  {
    var q := HeaderOf(pkg);
    var gid' := if q.id == 0 then Next(gid) else gid;
    StampedIsPackage(q.(target := q.from, from := 0, options := RSP), gid', []);
    hide HeaderOf, HeaderBytes;
    var all := HeaderBytes(Stamped(q.(target := q.from, from := 0, options := RSP), HEADER_SIZE as uint32, gid'));
    assert all + [] == all;
  }

  ghost predicate NoRepeats(cs: seq<nat>) {
    forall i, j | 0 <= i < j < |cs| :: cs[i] != cs[j]
  }

  // ---------------------------------------------------------------- the code

  class ClientSession {
    var m_clientId: uint32
    const m_connection: nat
    /** The event that accepted the connection. */
    ghost const serial: nat

    constructor (conn: nat, ghost serial: nat)
      ensures m_clientId == 0 && m_connection == conn && this.serial == serial
    {
      m_clientId, m_connection, this.serial := 0, conn, serial;
    }
  }

  type Index = map<uint32, set<ClientSession>>

  /** `m[id]`, empty where there is no entry. */
  function Get(m: Index, id: uint32): set<ClientSession> {
    if id in m then m[id] else {}
  }

  lemma Inserted(m: Index, id: uint32, s: ClientSession)
    ensures forall j, x :: x in Get(m[id := Get(m, id) + {s}], j) <==> x in Get(m, j) || (j == id && x == s)
  {
  }

  lemma OneMoreId(ids: seq<uint32>, i: nat)
    requires i < |ids|
    ensures forall id :: id in ids[..i + 1] <==> id in ids[..i] || id == ids[i]
  {
    assert ids[..i + 1] == ids[..i] + [ids[i]];
  }

  class MessageBusServer {
    var m_clients: map<nat, ClientSession>
    var m_msgId2Clients: Index
    var g_id: uint32
    /** What went out, connection by connection. */
    ghost var sent: seq<(nat, Bytes)>
    ghost var history: seq<Event>

    /** The live sessions are those of the history, each with its id. */
    ghost predicate ClientsOk()
      reads this, m_clients.Values
    {
      && (forall c :: c in m_clients <==> SessionOf(history, c).Some?)
      && (forall c | c in m_clients :: SessionOk(m_clients[c], c))
    }

    ghost predicate SessionOk(x: ClientSession, c: nat)
      reads this, x
    {
      x.m_connection == c && SessionOf(history, c) == Some(x.serial) && x.m_clientId == ClientIdOf(history, x.serial)
    }

    /** The index holds exactly the subscriptions. */
    ghost predicate IndexOk()
      reads this
    {
      && (forall id, x | x in Get(m_msgId2Clients, id) ::
            x.m_connection in m_clients && m_clients[x.m_connection] == x && Subscribed(history, x.serial, id))
      && (forall c, id | c in m_clients && Subscribed(history, m_clients[c].serial, id) ::
        m_clients[c] in Get(m_msgId2Clients, id))
    }

    ghost predicate Valid()
      reads this, m_clients.Values
    {
      ClientsOk() && IndexOk()
    }

    constructor ()
      ensures Valid() && history == [] && sent == []
    {
      m_clients, m_msgId2Clients, g_id, sent, history := map[], map[], 0, [], [];
    }

    /** Under each id stand exactly the open sessions that have registered it since the last server
        close. */
    lemma IndexMeans(id: uint32, c: nat)
      requires Valid() && c in m_clients
      ensures var x := m_clients[c];
              && Live(history, x.serial)
              && (x in Get(m_msgId2Clients, id)
                <==> exists i: nat :: Registers(history, i, x.serial, id) && NoCloseFrom(history, i))
    {
      SessionIsAccept(history, c);
      SubscribedMeans(history, m_clients[c].serial, id);
      hide Subscribed, SessionOf, Registers;
    }

    method AddClient(conn: nat)
      requires Valid()
      modifies this
      ensures Valid() && history == old(history) + [Accept(conn)] && sent == old(sent)
    {
      ghost var h, e := history, Accept(conn);
      var session := new ClientSession(conn, |h|);
      AfterAccept(h, conn);
      hide SessionOf, Subscribed, ClientIdOf;
      if conn !in m_clients {
        m_clients := m_clients[conn := session];
      }
      history := h + [e];
    }

    /** The listening connection closes: all subscriptions go, the clients stay. */
    method OnClose()
      requires Valid()
      modifies this
      ensures Valid() && history == old(history) + [ServerClose] && sent == old(sent)
    {
      ghost var h, e := history, ServerClose;
      AfterServerClose(h);
      hide SessionOf, Subscribed, ClientIdOf;
      m_msgId2Clients := map[];
      history := h + [e];
    }

    method RemoveClient(conn: nat)
      requires Valid()
      modifies this
      ensures Valid() && history == old(history) + [Close(conn)] && sent == old(sent)
    {
      ghost var h, e := history, Close(conn);
      AfterClose(h, conn);
      SessionsAllApart(h);
      hide SessionOf, Subscribed, ClientIdOf;
      if conn in m_clients {
        EraseEverywhere(m_clients[conn]);
        m_clients := m_clients - {conn};
      }
      history := h + [e];
    }

    /** Takes the session out of every set of the index. */
    method EraseEverywhere(session: ClientSession)
      modifies `m_msgId2Clients
      ensures forall id, x :: x in Get(m_msgId2Clients, id) <==> x in Get(old(m_msgId2Clients), id) && x != session
    {
      var todo := m_msgId2Clients.Keys;
      while todo != {}
        invariant todo <= m_msgId2Clients.Keys
        invariant forall id, x ::
                    x in Get(m_msgId2Clients, id) <==>
                    x in Get(old(m_msgId2Clients), id) && (id in todo || x != session)
        decreases |todo|
      {
        var id :| id in todo;
        m_msgId2Clients := m_msgId2Clients[id := m_msgId2Clients[id] - {session}];
        todo := todo - {id};
      }
    }

    /** The loop over the ids of a registration. */
    method Register(session: ClientSession, ids: seq<uint32>)
      modifies `m_msgId2Clients
      ensures forall id, x ::
                x in Get(m_msgId2Clients, id) <==> x in Get(old(m_msgId2Clients), id) || (id in ids && x == session)
    {
      for i := 0 to |ids|
        invariant forall id, x ::
                    x in Get(m_msgId2Clients, id) <==>
                    x in Get(old(m_msgId2Clients), id) || (id in ids[..i] && x == session)
      {
        OneMoreId(ids, i);
        Inserted(m_msgId2Clients, ids[i], session);
        m_msgId2Clients := m_msgId2Clients[ids[i] := Get(m_msgId2Clients, ids[i]) + {session}];
      }
      assert ids[..|ids|] == ids;
    }

    method Send(conn: nat, pkg: Bytes)
      modifies `sent
      ensures sent == old(sent) + [(conn, pkg)]
    {
      sent := sent + [(conn, pkg)];
    }

    /** The empty package that answers a registration or a heart beat. */
    method Answer(client: nat, pkg: Bytes)
      requires |pkg| >= HEADER_SIZE
      modifies `sent, `g_id
      ensures sent == old(sent) + [(client, Reply(pkg, old(g_id)))] && g_id == IdsUsed(pkg, old(g_id))
    {
      var hdr := HeaderOf(pkg);
      var rsp := new Buffer();
      var ok, gid := Generate(rsp, hdr.(target := hdr.from, from := 0, options := RSP), [], g_id);
      g_id := gid;
      hide HeaderBytes, Stamped;
      assert rsp.Contents() == rsp.data[..HEADER_SIZE] == Reply(pkg, old(g_id));
      Send(client, rsp.data[..rsp.size]);
    }

    /** The loop over the subscribers of a request's id; the look-up makes an entry for an unknown id. */
    method Request(msgId: uint32, target: uint32, pkg: Bytes) returns (ghost to: seq<nat>)
      requires Valid()
      modifies `sent, `m_msgId2Clients
      ensures forall id :: Get(m_msgId2Clients, id) == Get(old(m_msgId2Clients), id)
      ensures NoRepeats(to) && sent == old(sent) + Each(to, pkg)
      ensures forall c :: c in to ==> c in m_clients
      ensures forall c | c in m_clients :: c in to <==>
                m_clients[c] in Get(m_msgId2Clients, msgId) && (target == 0 || m_clients[c].m_clientId == target)
    {
      if msgId !in m_msgId2Clients { m_msgId2Clients := m_msgId2Clients[msgId := {}]; }
      var clients := m_msgId2Clients[msgId];
      var todo := clients;
      to := [];
      assert clients == Get(old(m_msgId2Clients), msgId);
      assert forall x | x in clients :: x.m_connection in m_clients && m_clients[x.m_connection] == x;
      assert forall c | c in m_clients :: m_clients[c].m_connection == c;
      hide Valid;
      while todo != {}
        invariant todo <= clients && NoRepeats(to) && sent == old(sent) + Each(to, pkg)
        invariant forall c :: c in to <==> c in m_clients && m_clients[c] in clients && m_clients[c] !in todo &&
                                           (target == 0 || m_clients[c].m_clientId == target)
        decreases |todo|
        modifies `sent
      {
        var session :| session in todo;
        todo := todo - {session};
        if !(target != 0 && session.m_clientId != target) {
          Send(session.m_connection, pkg);
          assert Each(to + [session.m_connection], pkg) == Each(to, pkg) + [(session.m_connection, pkg)];
          assert session.m_connection !in to;
          to := to + [session.m_connection];
        }
      }
    }

    /** The loop over all clients for a response. */
    method Respond(target: uint32, pkg: Bytes) returns (ghost to: seq<nat>)
      requires Valid()
      modifies `sent
      ensures NoRepeats(to) && sent == old(sent) + Each(to, pkg)
      ensures forall c :: c in to <==> c in m_clients && m_clients[c].m_clientId == target
    {
      var todo := m_clients.Keys;
      to := [];
      assert forall c | c in m_clients :: m_clients[c].m_connection == c;
      hide Valid;
      while todo != {}
        invariant todo <= m_clients.Keys && NoRepeats(to) && sent == old(sent) + Each(to, pkg)
        invariant forall c :: c in to <==> c in m_clients && c !in todo && m_clients[c].m_clientId == target
        decreases |todo|
      {
        var c :| c in todo;
        todo := todo - {c};
        if m_clients[c].m_clientId == target {
          Send(m_clients[c].m_connection, pkg);
          assert Each(to + [c], pkg) == Each(to, pkg) + [(c, pkg)];
          to := to + [c];
        }
      }
    }

    /** A registration: the session takes its id and joins the sets it names. */
    method OnRegister(client: nat, pkg: Bytes)
      requires Valid() && client in m_clients && IsRegister(pkg)
      modifies `m_msgId2Clients, `history, `sent, `g_id, m_clients[client]
      ensures Valid() && history == old(history) + [Packet(client, pkg)]
      ensures sent == old(sent) + [(client, Reply(pkg, old(g_id)))] && g_id == IdsUsed(pkg, old(g_id))
    {
      ghost var h, e := history, Packet(client, pkg);
      AfterPacket(h, client, pkg);
      SessionsAllApart(h);
      hide SessionOf, Subscribed, ClientIdOf, HeaderOf, Ids, Reply;
      m_clients[client].m_clientId := HeaderOf(pkg).from;
      Register(m_clients[client], Ids(pkg));
      Answer(client, pkg);
      history := h + [e];
    }

    /** A message: it goes to all who should get it. */
    method OnMessage(client: nat, pkg: Bytes) returns (ghost to: seq<nat>)
      requires Valid() && client in m_clients && |pkg| >= HEADER_SIZE && HeaderOf(pkg).code == MSG_TRANS
      modifies `m_msgId2Clients, `history, `sent
      ensures Valid() && history == old(history) + [Packet(client, pkg)]
      ensures NoRepeats(to) && sent == old(sent) + Each(to, pkg)
      ensures forall c :: c in to <==> ShouldGet(old(history), pkg, c)
    {
      ghost var h, e := history, Packet(client, pkg);
      AfterPacket(h, client, pkg);
      hide SessionOf, Subscribed, ClientIdOf, HeaderOf, NoRepeats, Each;
      var hdr := HeaderOf(pkg);
      if hdr.options % 2 == 0 {
        to := Request(hdr.msgId, hdr.target, pkg);
      } else {
        to := Respond(hdr.target, pkg);
      }
      history := h + [e];
    }

    /** Any other package changes nothing; a heart beat is answered. */
    method OnOther(client: nat, pkg: Bytes)
      requires Valid() && |pkg| >= HEADER_SIZE && HeaderOf(pkg).code != MSG_TRANS && HeaderOf(pkg).code != REGISTER
      modifies `history, `sent, `g_id
      ensures Valid() && history == old(history) + [Packet(client, pkg)]
      ensures sent == old(sent) + if Answered(pkg) then [(client, Reply(pkg, old(g_id)))] else []
      ensures g_id == if Answered(pkg) then IdsUsed(pkg, old(g_id)) else old(g_id)
    {
      ghost var h, e := history, Packet(client, pkg);
      AfterPacket(h, client, pkg);
      hide SessionOf, Subscribed, ClientIdOf, HeaderOf, Reply;
      if HeaderOf(pkg).code == HEART_BEAT {
        Answer(client, pkg);
      }
      history := h + [e];
    }

    /** One package from a client. */
    method OnPackage(client: nat, pkg: Bytes) returns (ghost to: seq<nat>)
      requires Valid() && client in m_clients && |pkg| >= HEADER_SIZE
      modifies this, m_clients[client]
      ensures Valid() && m_clients == old(m_clients) && history == old(history) + [Packet(client, pkg)]
      ensures NoRepeats(to) && forall c :: c in to <==> ShouldGet(old(history), pkg, c)
      ensures sent == old(sent) + (if Answered(pkg) then [(client, Reply(pkg, old(g_id)))] else []) + Each(to, pkg)
      ensures g_id == if Answered(pkg) then IdsUsed(pkg, old(g_id)) else old(g_id)
    {
      hide HeaderOf, Valid, Reply, IdsUsed;
      var code := HeaderOf(pkg).code;
      to := [];
      if code == REGISTER {
        OnRegister(client, pkg);
      } else if code == MSG_TRANS {
        to := OnMessage(client, pkg);
      } else {
        OnOther(client, pkg);
      }
    }

    /** A chunk of bytes from a client: the packages that it completes are taken out of the helper of the
        session and dealt with one after the other, each by what was registered before it; a connection that
        is not there is not listened to. */
    method OnClientData(client: nat, helper: MsgBusPackageHelper, chunk: Bytes)
      returns (ghost outs: seq<seq<(nat, Bytes)>>)
      requires Valid() && helper.Valid() && helper.m_buffer.size + |chunk| <= MAX_SIZE
      requires Readable(helper.m_buffer.Contents() + chunk)
      modifies this, m_clients.Values, helper.m_buffer, helper.m_buffer.data
      ensures Valid() && helper.Valid() && m_clients == old(m_clients)
      ensures helper.m_buffer.data == old(helper.m_buffer.data) || helper.m_buffer.data == null
              || fresh(helper.m_buffer.data)
      ensures client !in m_clients ==> outs == []
      ensures client !in m_clients ==> Unmoved(old(history), old(sent), old(helper.m_buffer.Contents()), helper)
      ensures client in m_clients ==>
                Dealt(old(history), old(sent), client, Drained(Take, old(helper.m_buffer.Contents()) + chunk), outs,
                  helper)
    {
      outs := [];
      hide *;
      if client !in m_clients {
        StillUnmoved(helper);
        return;
      }
      HelperOk(helper);
      ghost var h, s, goal := history, sent, Drained(Take, helper.m_buffer.Contents() + chunk);
      helper.Append(chunk);
      NothingServed(client, goal, helper);
      var more := true;
      while more
        invariant Valid() && helper.Valid() && m_clients == old(m_clients) && helper.m_buffer.size <= MAX_SIZE
        invariant helper.m_buffer.data == old(helper.m_buffer.data) || helper.m_buffer.data == null
                  || fresh(helper.m_buffer.data)
        invariant if more then Serving(h, s, client, goal, outs, helper) else Dealt(h, s, client, goal, outs, helper)
        decreases more, helper.m_buffer.size
      {
        outs, more := ServeOne(client, helper, h, s, goal, outs);
      }
    }

    /** One turn of that loop. */
    method ServeOne(client: nat, helper: MsgBusPackageHelper, ghost h: seq<Event>, ghost s: seq<(nat, Bytes)>,
                    ghost goal: (seq<Bytes>, Bytes), ghost outs: seq<seq<(nat, Bytes)>>)
      returns (ghost next: seq<seq<(nat, Bytes)>>, more: bool)
      requires Valid() && client in m_clients && helper.Valid() && helper.m_buffer.size <= MAX_SIZE
      requires Serving(h, s, client, goal, outs, helper)
      modifies this, m_clients[client], helper.m_buffer
      ensures Valid() && helper.Valid() && m_clients == old(m_clients)
      ensures helper.m_buffer.data == old(helper.m_buffer.data) || helper.m_buffer.data == null
              || fresh(helper.m_buffer.data)
      ensures helper.m_buffer.size <= old(helper.m_buffer.size)
      ensures more ==> helper.m_buffer.size < old(helper.m_buffer.size)
      ensures if more then Serving(h, s, client, goal, next, helper) else Dealt(h, s, client, goal, next, helper)
    {
      hide *;
      next := outs;
      HelperOk(helper);
      ghost var i, buf := |outs|, helper.m_buffer.Contents();
      ServingMeans(h, s, client, goal, outs, helper);
      GoOn(Take, goal.0[..i], buf, goal);
      var pkg := helper.GetPackage();
      if pkg.None? {
        AllServed(h, s, client, goal, outs, helper);
        return next, false;
      }
      var p := pkg.value;
      ghost var gid := g_id;
      HelperOk(helper);
      IsNext(goal, i, p, helper.m_buffer.Contents());
      ghost var to := OnPackage(client, p);
      SumOf(s + Flat(outs), if Answered(p) then [(client, Reply(p, gid))] else [], Each(to, p));
      next := OneMoreDelivered(h, client, goal.0, outs, to, gid, s);
      ServingOn(h, s, client, goal, next, helper);
      return next, true;
    }

    /** A stream of packages from one client, cut into any chunks: each package, and nothing else, is dealt
        with, in order, and so a request goes to exactly those subscribed when it comes. */
    method ServeStream(client: nat, helper: MsgBusPackageHelper, chunks: seq<Bytes>, ghost ps: seq<Bytes>)
      returns (ghost outs: seq<seq<(nat, Bytes)>>)
      requires Valid() && client in m_clients && helper.Valid() && AllPackages(ps)
      requires forall c | c in chunks :: |c| + MAX_PKG_SIZE <= MAX_SIZE
      requires var b := helper.m_buffer.Contents(); IsTail(ps, b) && b + Flat(chunks) == Flat(ps)
      modifies this, m_clients.Values, helper.m_buffer, helper.m_buffer.data
      ensures Valid() && helper.Valid() && m_clients == old(m_clients)
      ensures Dealt(old(history), old(sent), client, (ps, []), outs, helper)
      decreases |chunks|
    {
      hide *;
      HelperOk(helper);
      ghost var h, s, b := history, sent, helper.m_buffer.Contents();
      outs := [];
      if chunks == [] {
        AllStreamed(client, ps, helper);
        return;
      }
      ghost var k, d := NextChunk(ps, b, chunks);
      TailIsShort(ps, b);
      FirstChunk(chunks);
      outs := OnClientData(client, helper, chunks[0]);
      DealtMeans(h, s, client, d, outs, helper);
      HelperOk(helper);
      ghost var rest := ServeStream(client, helper, chunks[1..], ps[k..]);
      DealtBoth(h, s, client, ps, k, outs, rest, helper);
      outs := outs + rest;
    }

    lemma AllStreamed(client: nat, ps: seq<Bytes>, helper: MsgBusPackageHelper)
      requires helper.Valid() && IsTail(ps, helper.m_buffer.Contents())
      requires helper.m_buffer.Contents() + Flat<uint8>([]) == Flat(ps)
      ensures Dealt(history, sent, client, (ps, []), [], helper)
    {
      assert helper.m_buffer.Contents() + [] == helper.m_buffer.Contents();
      NoMore(ps, helper.m_buffer.Contents());
      NoneDelivered(history, client, []);
    }

    lemma DealtMeans(h: seq<Event>, s: seq<(nat, Bytes)>, client: nat, d: (seq<Bytes>, Bytes),
                     outs: seq<seq<(nat, Bytes)>>, helper: MsgBusPackageHelper)
      requires helper.Valid() && Dealt(h, s, client, d, outs, helper)
      ensures |outs| == |d.0| && AllDelivered(h, client, d.0, outs)
      ensures history == h + Packets(client, d.0) && sent == s + Flat(outs) && helper.m_buffer.Contents() == d.1
    {
    }

    /** What one run has dealt with, and then another. */
    lemma DealtBoth(h: seq<Event>, s: seq<(nat, Bytes)>, client: nat, ps: seq<Bytes>, k: nat,
                    a: seq<seq<(nat, Bytes)>>, b: seq<seq<(nat, Bytes)>>, helper: MsgBusPackageHelper)
      requires helper.Valid() && k <= |ps| && |a| == k && AllDelivered(h, client, ps[..k], a)
      requires Dealt(h + Packets(client, ps[..k]), s + Flat(a), client, (ps[k..], []), b, helper)
      ensures Dealt(h, s, client, (ps, []), a + b, helper)
    {
      hide *;
      DealtMeans(h + Packets(client, ps[..k]), s + Flat(a), client, (ps[k..], []), b, helper);
      DeliveredBoth(h, client, ps, k, a, b);
      PacketsBoth(h, client, ps, k, |ps|);
      assert ps[k..|ps|] == ps[k..] && ps[..|ps|] == ps;
      FlatSum(a, b);
      SumOf(s, Flat(a), Flat(b));
      DealtIs(h, s, client, (ps, []), a + b, helper);
    }

    lemma DealtIs(h: seq<Event>, s: seq<(nat, Bytes)>, client: nat, d: (seq<Bytes>, Bytes),
                  outs: seq<seq<(nat, Bytes)>>, helper: MsgBusPackageHelper)
      requires helper.Valid() && |outs| == |d.0| && AllDelivered(h, client, d.0, outs)
      requires history == h + Packets(client, d.0) && sent == s + Flat(outs) && helper.m_buffer.Contents() == d.1
      ensures Dealt(h, s, client, d, outs, helper)
    {
    }

    /** `outs` is what has gone out for the first packages of `goal`; the others are still in the buffer. */
    ghost predicate Serving(h: seq<Event>, s: seq<(nat, Bytes)>, client: nat, goal: (seq<Bytes>, Bytes),
                            outs: seq<seq<(nat, Bytes)>>, helper: MsgBusPackageHelper)
      requires helper.Valid()
      reads this, helper, helper.m_buffer, helper.m_buffer.data
    {
      var b := helper.m_buffer.Contents();
      && AllDelivered(h, client, goal.0, outs) && (forall p | p in goal.0 :: |p| >= HEADER_SIZE)
      && history == h + Packets(client, goal.0[..|outs|]) && sent == s + Flat(outs)
      && Advances(Take, b) && Ahead(Take, goal.0[..|outs|], b, goal)
    }

    /** All packages of `goal` have been dealt with, and the buffer holds the rest. */
    ghost predicate Dealt(h: seq<Event>, s: seq<(nat, Bytes)>, client: nat, goal: (seq<Bytes>, Bytes),
                          outs: seq<seq<(nat, Bytes)>>, helper: MsgBusPackageHelper)
      requires helper.Valid()
      reads this, helper, helper.m_buffer, helper.m_buffer.data
    {
      && |outs| == |goal.0| && AllDelivered(h, client, goal.0, outs)
      && history == h + Packets(client, goal.0) && sent == s + Flat(outs) && helper.m_buffer.Contents() == goal.1
    }

    ghost predicate Unmoved(h: seq<Event>, s: seq<(nat, Bytes)>, b: Bytes, helper: MsgBusPackageHelper)
      requires helper.Valid()
      reads this, helper, helper.m_buffer, helper.m_buffer.data
    {
      history == h && sent == s && helper.m_buffer.Contents() == b
    }

    lemma HelperOk(helper: MsgBusPackageHelper)
      requires helper.Valid()
      ensures helper.m_buffer.Valid()
    {
    }

    lemma StillUnmoved(helper: MsgBusPackageHelper)
      requires helper.Valid()
      ensures Unmoved(history, sent, helper.m_buffer.Contents(), helper)
    {
    }

    lemma NothingServed(client: nat, goal: (seq<Bytes>, Bytes), helper: MsgBusPackageHelper)
      requires helper.Valid() && Readable(helper.m_buffer.Contents())
      requires goal == Drained(Take, helper.m_buffer.Contents())
      ensures Serving(history, sent, client, goal, [], helper)
    {
      NoneDelivered(history, client, goal.0);
      hide Advances, Drained, Take;
      assert [] + goal.0 == goal.0 && goal.0[..0] == [];
    }

    lemma ServingMeans(h: seq<Event>, s: seq<(nat, Bytes)>, client: nat, goal: (seq<Bytes>, Bytes),
                       outs: seq<seq<(nat, Bytes)>>, helper: MsgBusPackageHelper)
      requires helper.Valid() && Serving(h, s, client, goal, outs, helper)
      ensures |outs| <= |goal.0| && AllDelivered(h, client, goal.0, outs)
      ensures forall p | p in goal.0 :: |p| >= HEADER_SIZE
      ensures history == h + Packets(client, goal.0[..|outs|]) && sent == s + Flat(outs)
      ensures var b := helper.m_buffer.Contents(); Advances(Take, b) && Ahead(Take, goal.0[..|outs|], b, goal)
    {
      hide Advances, Ahead, Take, Packets, Delivered;
    }

    lemma AllServed(h: seq<Event>, s: seq<(nat, Bytes)>, client: nat, goal: (seq<Bytes>, Bytes),
                    outs: seq<seq<(nat, Bytes)>>, helper: MsgBusPackageHelper)
      requires helper.Valid() && |outs| <= |goal.0| && AllDelivered(h, client, goal.0, outs)
      requires history == h + Packets(client, goal.0[..|outs|]) && sent == s + Flat(outs)
      requires goal == (goal.0[..|outs|], helper.m_buffer.Contents())
      ensures Dealt(h, s, client, goal, outs, helper)
    {
      hide AllDelivered, Packets;
      assert |goal.0| == |goal.0[..|outs|]| == |outs|;
      assert goal.0[..|outs|] == goal.0;
    }

    lemma ServingOn(h: seq<Event>, s: seq<(nat, Bytes)>, client: nat, goal: (seq<Bytes>, Bytes),
                    outs: seq<seq<(nat, Bytes)>>, helper: MsgBusPackageHelper)
      requires helper.Valid() && |outs| <= |goal.0| && AllDelivered(h, client, goal.0, outs)
      requires forall p | p in goal.0 :: |p| >= HEADER_SIZE
      requires history == h + Packets(client, goal.0[..|outs|]) && sent == s + Flat(outs)
      requires var b := helper.m_buffer.Contents(); Advances(Take, b) && Ahead(Take, goal.0[..|outs|], b, goal)
      ensures Serving(h, s, client, goal, outs, helper)
    {
      hide Advances, Ahead, Take, Packets, AllDelivered;
    }
  }

  /** What the next chunk completes, and what is then left to come. */
  lemma NextChunk(ps: seq<Bytes>, b: Bytes, chunks: seq<Bytes>) returns (k: nat, d: (seq<Bytes>, Bytes))
    requires AllPackages(ps) && IsTail(ps, b) && chunks != [] && b + Flat(chunks) == Flat(ps)
    ensures d == Drained(Take, b + chunks[0]) && Readable(b + chunks[0])
    ensures k <= |ps| && d.0 == ps[..k] && AllPackages(ps[k..]) && IsTail(ps[k..], d.1)
    ensures d.1 + Flat(chunks[1..]) == Flat(ps[k..])
  {
    var c, more := chunks[0], Flat(chunks[1..]);
    d := Drained(Take, b + c);
    BusFrames(ps);
    assert Flat(chunks) == c + more;
    assert forall p | p in ps :: |p| >= HEADER_SIZE;
    hide Take, IsTail, IsPackage, Drained, Advances, Frames, Flat;
    Regrouped(b, c, more);
    PrefixOfPrefix(b + c, more, Flat(ps));
    k := DrainPrefix(Take, ps, b + c);
    FlatParts(ps, k);
    Regrouped(Flat(ps[..k]), d.1, more);
    SameAfter(Flat(ps[..k]), d.1 + more, Flat(ps[k..]));
  }

  /** What is left of a stream is shorter than a package. */
  lemma TailIsShort(ps: seq<Bytes>, b: Bytes)
    requires AllPackages(ps) && IsTail(ps, b)
    ensures |b| <= MAX_PKG_SIZE
  {
    assert ps != [] ==> ps[0] in ps;
    hide HeaderOf, ChecksumOf;
  }

  lemma FirstChunk(chunks: seq<Bytes>)
    requires chunks != [] && forall c | c in chunks :: |c| + MAX_PKG_SIZE <= MAX_SIZE
    ensures |chunks[0]| + MAX_PKG_SIZE <= MAX_SIZE
    ensures forall c | c in chunks[1..] :: |c| + MAX_PKG_SIZE <= MAX_SIZE
  {
  }

  lemma DeliveredBoth(h: seq<Event>, client: nat, ps: seq<Bytes>, k: nat, a: seq<seq<(nat, Bytes)>>,
                      b: seq<seq<(nat, Bytes)>>)
    requires k <= |ps| && |a| == k && AllDelivered(h, client, ps[..k], a)
    requires AllDelivered(h + Packets(client, ps[..k]), client, ps[k..], b)
    ensures AllDelivered(h, client, ps, a + b)
  {
    hide Delivered, Packets;
    forall i | 0 <= i < |a + b|
      ensures |ps[i]| >= HEADER_SIZE && Delivered(h + Packets(client, ps[..i]), client, ps[i], (a + b)[i])
    {
      if i < k {
        assert ps[..k][..i] == ps[..i] && ps[..k][i] == ps[i];
      } else {
        PacketsBoth(h, client, ps, k, i);
        assert ps[k..][..i - k] == ps[k..i] && ps[k..][i - k] == ps[i];
      }
    }
  }

  lemma PacketsBoth(h: seq<Event>, client: nat, ps: seq<Bytes>, k: nat, i: nat)
    requires k <= i <= |ps|
    ensures h + Packets(client, ps[..k]) + Packets(client, ps[k..i]) == h + Packets(client, ps[..i])
  {
  }

  /** Draining `b` gets on, and gives packages with whole headers. */
  ghost predicate Readable(b: Bytes) {
    Advances(Take, b) && forall p | p in Drained(Take, b).0 :: |p| >= HEADER_SIZE
  }

  lemma IsNext(goal: (seq<Bytes>, Bytes), i: nat, p: Bytes, rest: Bytes)
    requires i <= |goal.0| && Ahead(Take, goal.0[..i] + [p], rest, goal)
    ensures i < |goal.0| && goal.0[i] == p && p in goal.0 && goal.0[..i] + [p] == goal.0[..i + 1]
  {
    hide Take, Drained;
    assert goal.0 == goal.0[..i] + [p] + Drained(Take, rest).0;
  }

  ghost function Packets(client: nat, pkgs: seq<Bytes>): (r: seq<Event>)
    ensures |r| == |pkgs|
  {
    seq(|pkgs|, i requires 0 <= i < |pkgs| => Packet(client, pkgs[i]))
  }

  /** What goes out for one package that comes after `h`. */
  ghost predicate Delivered(h: seq<Event>, client: nat, pkg: Bytes, out: seq<(nat, Bytes)>)
    requires |pkg| >= HEADER_SIZE
  {
    exists to: seq<nat>, gid: uint32 :: Delivery(h, client, pkg, to, gid, out)
  }

  ghost predicate Delivery(h: seq<Event>, client: nat, pkg: Bytes, to: seq<nat>, gid: uint32, out: seq<(nat, Bytes)>)
    requires |pkg| >= HEADER_SIZE
  {
    && NoRepeats(to) && (forall c :: c in to <==> ShouldGet(h, pkg, c))
    && out == (if Answered(pkg) then [(client, Reply(pkg, gid))] else []) + Each(to, pkg)
  }

  ghost predicate AllDelivered(h: seq<Event>, client: nat, pkgs: seq<Bytes>, outs: seq<seq<(nat, Bytes)>>) {
    && |outs| <= |pkgs|
    && forall i | 0 <= i < |outs| ::
         |pkgs[i]| >= HEADER_SIZE && Delivered(h + Packets(client, pkgs[..i]), client, pkgs[i], outs[i])
  }

  lemma SessionsAllApart(h: seq<Event>)
    ensures forall c, d | SessionOf(h, c).Some? && SessionOf(h, c) == SessionOf(h, d) :: c == d
  {
    forall c, d | SessionOf(h, c).Some? && SessionOf(h, c) == SessionOf(h, d)
      ensures c == d
    {
      SessionsApart(h, c, d);
    }
  }

  lemma SumOf(a: seq<(nat, Bytes)>, b: seq<(nat, Bytes)>, c: seq<(nat, Bytes)>)
    ensures (a + b) + c == a + (b + c)
  {
  }

  lemma NoneDelivered(h: seq<Event>, client: nat, pkgs: seq<Bytes>)
    ensures AllDelivered(h, client, pkgs, []) && h + Packets(client, pkgs[..0]) == h
    ensures forall sent: seq<(nat, Bytes)> :: sent + Flat([]) == sent
  {
  }

  lemma OneMoreDelivered(h: seq<Event>, client: nat, pkgs: seq<Bytes>, outs: seq<seq<(nat, Bytes)>>, to: seq<nat>,
                         gid: uint32,
                         sent: seq<(nat, Bytes)>) returns (more: seq<seq<(nat, Bytes)>>)
    requires AllDelivered(h, client, pkgs, outs) && |outs| < |pkgs| && |pkgs[|outs|]| >= HEADER_SIZE
    requires NoRepeats(to) && forall c :: c in to <==> ShouldGet(h + Packets(client, pkgs[..|outs|]), pkgs[|outs|], c)
    ensures |more| == |outs| + 1 && AllDelivered(h, client, pkgs, more)
    ensures var i := |outs|; var pkg := pkgs[i];
            && sent + Flat(outs) + ((if Answered(pkg) then [(client, Reply(pkg, gid))] else []) + Each(to, pkg))
              == sent + Flat(more)
            && h + Packets(client, pkgs[..i]) + [Packet(client, pkg)] == h + Packets(client, pkgs[..i + 1])
  {
    var i := |outs|;
    var pkg, before := pkgs[i], h + Packets(client, pkgs[..i]);
    var out := (if Answered(pkg) then [(client, Reply(pkg, gid))] else []) + Each(to, pkg);
    hide ShouldGet, Answered, Reply, Each, NoRepeats;
    assert Delivery(before, client, pkg, to, gid, out);
    hide Delivery;
    more := outs + [out];
    assert Delivered(before, client, pkg, out);
    hide Delivered, Packets;
    PacketsNext(h, client, pkgs, i);
    FlatMore(sent, outs, out);
    hide Flat;
  }

  lemma PacketsNext(h: seq<Event>, client: nat, pkgs: seq<Bytes>, i: nat)
    requires i < |pkgs|
    ensures h + Packets(client, pkgs[..i]) + [Packet(client, pkgs[i])] == h + Packets(client, pkgs[..i + 1])
  {
    assert pkgs[..i + 1] == pkgs[..i] + [pkgs[i]];
  }

  lemma FlatMore(sent: seq<(nat, Bytes)>, outs: seq<seq<(nat, Bytes)>>, out: seq<(nat, Bytes)>)
    ensures sent + Flat(outs) + out == sent + Flat(outs + [out])
  {
    FlatSum(outs, [out]);
    FlatOne(out);
    hide Flat;
  }

  /** Registrations and heart beats are answered. */
  ghost predicate Answered(pkg: Bytes)
    requires |pkg| >= HEADER_SIZE
  {
    HeaderOf(pkg).code == REGISTER || HeaderOf(pkg).code == HEART_BEAT
  }

  lemma EachAt(to: seq<nat>, pkg: Bytes, i: nat)
    requires i < |to|
    ensures Each(to, pkg)[i] == (to[i], pkg)
  {
  }

  ghost function Each(to: seq<nat>, pkg: Bytes): (r: seq<(nat, Bytes)>)
    ensures |r| == |to|
  {
    seq(|to|, i requires 0 <= i < |to| => (to[i], pkg))
  }
}
