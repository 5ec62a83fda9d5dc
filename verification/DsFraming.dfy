/** Packets of the data service in a byte stream: found by their magic number, checked by a hash. */
module DsFraming {
  import opened Basics
  import opened Buffers
  import opened Framing

  const HEADER_SIZE: nat := 18
  const MAGIC: uint16 := 0x6666

  type Hash = Bytes -> uint16

  datatype Header = Header(magic: uint16, length: uint32, id: uint32, frameType: uint16, opCode: uint16,
    option: uint16, dataHash: uint16)

  function HeaderBytes(h: Header): (r: Bytes)
    ensures |r| == HEADER_SIZE
  {
    Be16(h.magic) + Be32(h.length) + Be32(h.id) + Be16(h.frameType) + Be16(h.opCode) + Be16(h.option) + Be16(h.dataHash)
  }

  function HeaderAt(b: Bytes, pos: nat): Header
    requires pos + HEADER_SIZE <= |b|
  {
    var h := b[pos..pos + HEADER_SIZE];
    Header(FromBe16(h[..2]), FromBe32(h[2..6]), FromBe32(h[6..10]), FromBe16(h[10..12]), FromBe16(h[12..14]),
      FromBe16(h[14..16]), FromBe16(h[16..18]))
  }

  lemma HeaderBack(h: Header, rest: Bytes)
    ensures HeaderAt(HeaderBytes(h) + rest, 0) == h
  {
    HeaderParts(h);
    assert (HeaderBytes(h) + rest)[0..0 + HEADER_SIZE] == HeaderBytes(h);
    hide HeaderBytes, Be16, Be32, FromBe16, FromBe32;
    Be16Back(h.magic);
    Be32Back(h.length);
    Be32Back(h.id);
    Be16Back(h.frameType);
    Be16Back(h.opCode);
    Be16Back(h.option);
    Be16Back(h.dataHash);
  }

  lemma HeaderParts(h: Header)
    ensures var b := HeaderBytes(h);
            && b[..2] == Be16(h.magic) && b[2..6] == Be32(h.length) && b[6..10] == Be32(h.id)
              && b[10..12] == Be16(h.frameType)
            && b[12..14] == Be16(h.opCode) && b[14..16] == Be16(h.option) && b[16..18] == Be16(h.dataHash)
  {
    hide Be16, Be32;
  }

  /** `HashData`: 0 for no data. */
  function HashOf(crc: Hash, data: Bytes): uint16 {
    if data == [] then 0 else crc(data)
  }

  /** Positions that read as the magic number; the last byte cannot. */
  predicate MagicAt(b: Bytes, i: nat) {
    i + 1 < |b| && FromBe16(b[i..i + 2]) == MAGIC
  }

  /** The first such position from `i` on. */
  ghost function FirstMagic(b: Bytes, i: nat): (pos: Option<nat>)
    ensures pos.None? ==> forall k: nat :: i <= k ==> !MagicAt(b, k)
    ensures pos.Some? ==> i <= pos.value && MagicAt(b, pos.value)
    ensures pos.Some? ==> forall k: nat :: i <= k < pos.value ==> !MagicAt(b, k)
    decreases |b| - i
  {
    if i + 1 >= |b| then None else if MagicAt(b, i) then Some(i) else FirstMagic(b, i + 1)
  }

  lemma FirstMagicIs(b: Bytes, pos: nat)
    requires MagicAt(b, pos) && forall k: nat | k < pos :: !MagicAt(b, k)
    ensures FirstMagic(b, 0) == Some(pos)
  {
  }

  /** A position below 2^32 as an `int32_t`. */
  function AsInt32(i: nat): (r: int)
    ensures 0 <= i < 0x8000_0000 ==> r == i
    ensures 0x8000_0000 <= i < TWO32 ==> r < 0
  {
    if i < 0x8000_0000 then i else i - TWO32
  }

  /** What `getPackage` does with a buffer; `after` is what lies in memory behind it, where the header
      of a magic number near the end is read. */
  ghost function Take(crc: Hash, after: Bytes, buf: Bytes): Taken
    requires |after| >= HEADER_SIZE
  {
    if |buf| < HEADER_SIZE then Wait
    else match FirstMagic(buf, 0)
      case None => Reject([])
      case Some(pos) =>
        if pos >= 0x8000_0000 then Reject([])
        else
          var hdr := HeaderAt(buf + after, pos);
          var length := hdr.length as nat;
          if |buf| - pos < length then Wait
          else if length < HEADER_SIZE then Broken
          else if hdr.dataHash != HashOf(crc, buf[pos + HEADER_SIZE..pos + length]) then Reject(buf[pos + 2..])
          else Package(buf[pos..pos + length], buf[pos + length..])
  }

  ghost predicate IsPacket(crc: Hash, p: Bytes) {
    && |p| >= HEADER_SIZE
    && var h := HeaderAt(p, 0);
    h.magic == MAGIC && h.length as nat == |p| && h.dataHash == HashOf(crc, p[HEADER_SIZE..])
  }

  /** What `generate` makes of a fresh buffer is a packet with the given fields and data. */
  lemma GeneratedIsPacket(crc: Hash, id: uint32, frameType: uint16, opCode: uint16, option: uint16, data: Bytes)
    requires HEADER_SIZE + |data| < TWO32
    ensures var h := Header(MAGIC, (HEADER_SIZE + |data|) as uint32, id, frameType, opCode, option, HashOf(crc, data));
            var p := HeaderBytes(h) + data;
            IsPacket(crc, p) && HeaderAt(p, 0) == h && p[HEADER_SIZE..] == data
  {
    var h := Header(MAGIC, (HEADER_SIZE + |data|) as uint32, id, frameType, opCode, option, HashOf(crc, data));
    HeaderBack(h, data);
    hide HeaderBytes, HeaderAt;
  }

  /** A packet byte by byte; no data hashes to 0. */
  lemma ExamplePacket(crc: Hash)
    ensures HeaderBytes(Header(MAGIC, 18, 0x1_0203, 1, 2, 0x405, HashOf(crc, []))) ==
            [0x66, 0x66, 0, 0, 0, 18, 0, 1, 2, 3, 0, 1, 0, 2, 4, 5, 0, 0]
  {
  }

  /** A packet stands at `pos`, whatever is around it. */
  lemma PacketAt(crc: Hash, g: Bytes, p: Bytes, rest: Bytes, after: Bytes)
    requires IsPacket(crc, p)
    ensures HeaderAt(g + p + rest + after, |g|) == HeaderAt(p, 0) && MagicAt(g + p + rest, |g|)
  {
    var all := g + p + rest + after;
    assert all[|g|..|g| + HEADER_SIZE] == p[0..0 + HEADER_SIZE];
    assert (g + p + rest)[|g|..|g| + 2] == p[0..HEADER_SIZE][..2];
    hide FromBe16, FromBe32;
  }

  /** Behind garbage a packet is found, and exactly it taken, if and only if no earlier position reads
      as the magic number and the garbage is shorter than 2^31 bytes. */
  lemma Resynchronises(crc: Hash, after: Bytes, g: Bytes, p: Bytes, rest: Bytes)
    requires IsPacket(crc, p) && |after| >= HEADER_SIZE
    ensures Take(crc, after, g + p + rest) == Package(p, rest) <==>
              |g| < 0x8000_0000 && forall i: nat | i < |g| :: !MagicAt(g + p + rest, i)
  {
    var buf := g + p + rest;
    PacketAt(crc, g, p, rest, after);
    if forall i: nat | i < |g| :: !MagicAt(buf, i) {
      FirstMagicIs(buf, |g|);
      PacketParts(g, p, rest);
      hide HeaderAt, MagicAt, FirstMagic;
    } else {
      var i: nat :| i < |g| && MagicAt(buf, i);
      TakenFrom(crc, after, buf);
      hide HeaderAt, MagicAt, FirstMagic;
      assert FirstMagic(buf, 0).Some? && FirstMagic(buf, 0).value <= i;
    }
  }

  lemma PacketParts(g: Bytes, p: Bytes, rest: Bytes)
    requires |p| >= HEADER_SIZE
    ensures var buf := g + p + rest;
            && buf[|g|..|g| + |p|] == p && buf[|g| + |p|..] == rest
            && buf[|g| + HEADER_SIZE..|g| + |p|] == p[HEADER_SIZE..]
  {
  }

  /** A package and its rest make up the buffer from the first magic number on. */
  lemma TakenFrom(crc: Hash, after: Bytes, buf: Bytes)
    requires |after| >= HEADER_SIZE
    ensures match Take(crc, after, buf)
            case Package(p, rest) => FirstMagic(buf, 0).Some? && FirstMagic(buf, 0).value + |p| + |rest| == |buf|
            case _ => true
  {
    hide HeaderAt, FirstMagic, HashOf;
  }

  /** Every attempt that returns, rejects or clears makes the buffer smaller. */
  lemma Shrinks(crc: Hash, after: Bytes, buf: Bytes)
    requires |after| >= HEADER_SIZE
    ensures match Take(crc, after, buf)
            case Package(p, rest) => |p| >= HEADER_SIZE && |rest| < |buf|
            case Reject(rest) => |rest| < |buf|
            case _ => true
  {
    hide HeaderAt, FirstMagic, HashOf;
  }

  /** Behind more garbage the packet is found and thrown away with all of the buffer. */
  lemma FarPacket(crc: Hash, after: Bytes, g: Bytes, p: Bytes, rest: Bytes)
    requires IsPacket(crc, p) && |after| >= HEADER_SIZE
    requires |g| >= 0x8000_0000 && forall i: nat | i < |g| :: !MagicAt(g + p + rest, i)
    ensures Take(crc, after, g + p + rest) == Reject([])
  {
  }

  /** A complete packet with the wrong hash costs its magic number and all in front of it, no more. */
  lemma WrongHash(crc: Hash, after: Bytes, g: Bytes, rest: Bytes)
    requires |after| >= HEADER_SIZE && |g| < 0x8000_0000 && |rest| >= 16
    requires forall i: nat | i < |g| :: !MagicAt(g + [0x66, 0x66] + rest, i)
    ensures var buf, h := g + [0x66, 0x66] + rest, HeaderAt([0x66, 0x66] + rest, 0);
            18 <= h.length as nat <= 2 + |rest| && h.dataHash != HashOf(crc, rest[16..h.length as int - 2]) ==>
              Take(crc, after, buf) == Reject(rest)
  {
    var buf, p := g + [0x66, 0x66] + rest, [0x66, 0x66] + rest;
    assert buf[|g|] == 0x66 && buf[|g| + 1] == 0x66;
    assert (buf + after)[|g|..|g| + HEADER_SIZE] == p[0..0 + HEADER_SIZE];
    FirstMagicIs(buf, |g|);
    assert buf[|g| + 2..] == rest;
    var n := HeaderAt(p, 0).length as nat;
    if 18 <= n <= 2 + |rest| {
      assert buf[|g| + HEADER_SIZE..|g| + n] == rest[16..n - 2];
    }
    hide FirstMagic, HashOf;
  }

  /** The hash is taken of bytes outside the buffer if and only if the header found claims less than its own
      size, and the buffer has that much. */
  lemma BrokenIff(crc: Hash, after: Bytes, buf: Bytes)
    requires |after| >= HEADER_SIZE
    ensures Take(crc, after, buf) == Broken <==>
              && |buf| >= HEADER_SIZE && FirstMagic(buf, 0).Some?
              && var pos := FirstMagic(buf, 0).value;
              && pos < 0x8000_0000 && HeaderAt(buf + after, pos).length as nat < HEADER_SIZE
              && HeaderAt(buf + after, pos).length as nat <= |buf| - pos
  {
  }

  /** The magic number and 16 zero bytes are such a buffer. */
  lemma ShortPacket(crc: Hash, after: Bytes)
    requires |after| >= HEADER_SIZE
    ensures Take(crc, after, [0x66, 0x66] + seq(16, _ => 0)) == Broken
  {
  }

  /** Garbage that looks like the magic number together with the packet behind it: a single byte 0x66
      makes the code wait for a packet of more than 0x66000000 bytes. */
  lemma StrayByte(crc: Hash, after: Bytes, p: Bytes)
    requires IsPacket(crc, p) && |p| + 1 < 0x6600_0000 && |after| >= HEADER_SIZE
    ensures Take(crc, after, [0x66] + p) == Wait
  {
    var buf := [0x66] + p;
    MagicBytes(p);
    assert buf[0] == 0x66 && buf[1] == 0x66 && buf[2] == 0x66;
    FirstMagicIs(buf, 0);
    var h := (buf + after)[0..0 + HEADER_SIZE];
    var len := h[2..6];
    assert len[0] == h[2] == 0x66;
    TopByte(len);
    hide FirstMagic;
  }

  lemma TopByte(b: Bytes)
    requires |b| == 4
    ensures FromBe32(b) as int >= b[0] as int * 0x100_0000
  {
    var d0, d1, d2, d3 := b[0] as int, b[1] as int, b[2] as int, b[3] as int;
    assert FromBe32(b) as int == d0 * 0x100_0000 + d1 * 0x1_0000 + d2 * 0x100 + d3;
  }

  lemma MagicBytes(p: Bytes)
    requires |p| >= HEADER_SIZE && HeaderAt(p, 0).magic == MAGIC
    ensures p[0] == 0x66 && p[1] == 0x66
  {
  }

  // ---------------------------------------------------------------- streams

  /** `after` says what lies behind each buffer. */
  ghost function Taking(crc: Hash, after: Bytes -> Bytes): Taker {
    (buf: Bytes) => if |after(buf)| >= HEADER_SIZE then Take(crc, after(buf), buf) else Wait
  }

  ghost predicate Behind(after: Bytes -> Bytes) {
    forall buf: Bytes :: |after(buf)| >= HEADER_SIZE
  }

  lemma PacketFrames(crc: Hash, after: Bytes -> Bytes, p: Bytes)
    requires IsPacket(crc, p) && Behind(after)
    ensures Frames(Taking(crc, after), p)
  {
    var f := Taking(crc, after);
    forall rest: Bytes
      ensures f(p + rest) == Package(p, rest)
    {
      Resynchronises(crc, after(p + rest), [], p, rest);
      assert [] + p + rest == p + rest;
    }
    forall part: Bytes | part < p
      ensures f(part) == Wait
    {
      PartWaits(crc, after(part), p, part);
    }
  }

  lemma PartWaits(crc: Hash, after: Bytes, p: Bytes, part: Bytes)
    requires IsPacket(crc, p) && part < p && |after| >= HEADER_SIZE
    ensures Take(crc, after, part) == Wait
  {
    if |part| >= HEADER_SIZE {
      assert (part + after)[0..0 + HEADER_SIZE] == p[0..0 + HEADER_SIZE];
      MagicBytes(p);
      assert MagicAt(part, 0);
      FirstMagicIs(part, 0);
    }
    hide FirstMagic, FromBe16, FromBe32;
  }

  /** Packets without garbage between them, cut anywhere: the complete ones come out in order, and the
      buffer is the unfinished one. */
  lemma PacketStream(crc: Hash, after: Bytes -> Bytes, ps: seq<Bytes>, chunks: seq<Bytes>) returns (k: nat)
    requires Behind(after) && (forall p | p in ps :: IsPacket(crc, p)) && Flat(chunks) <= Flat(ps)
    ensures var f := Taking(crc, after); Emitted(ps, Flat(chunks), k, Fed(f, [], chunks).0, Fed(f, [], chunks).1)
    ensures Flat(chunks) == Flat(ps) ==> Fed(Taking(crc, after), [], chunks) == (ps, [])
  {
    var f := Taking(crc, after);
    hide IsPacket;
    forall p | p in ps
      ensures Frames(f, p)
    {
      PacketFrames(crc, after, p);
    }
    assert f([]) == Wait;
    NothingYet(f, ps);
    hide Taking, Take, Frames, IsTail, Emitted, Fed;
    assert [] + Flat(chunks) == Flat(chunks);
    k := AnyCut(f, ps, [], chunks);
    if Flat(chunks) == Flat(ps) {
      WholeStream(f, ps, chunks);
    }
  }

  // ---------------------------------------------------------------- the code

  /** The first position that reads as the magic number, as an `int32_t`, or -1. */
  method FindNextMagic(data: Bytes) returns (pos: int)
    requires |data| < TWO32
    ensures pos == match FirstMagic(data, 0) case None => -1 case Some(p) => AsInt32(p)
  {
    if |data| == 0 { return -1; }
    var i := 0;
    while i < |data| - 1
      invariant i <= |data| && FirstMagic(data, 0) == FirstMagic(data, i)
    {
      if FromBe16(data[i..i + 2]) == MAGIC { return AsInt32(i); }
      i := i + 1;
    }
    return -1;
  }

  class DsPacketHelper {
    const m_buffer: Buffer

    ghost predicate Valid()
      reads this, m_buffer, m_buffer.data
    {
      m_buffer.Valid()
    }

    constructor ()
      ensures Valid() && fresh(m_buffer) && m_buffer.Contents() == [] && m_buffer.data == null
    {
      m_buffer := new Buffer();
    }

    method Append(data: Bytes)
      requires Valid() && m_buffer.size + |data| <= MAX_SIZE
      modifies m_buffer, m_buffer.data
      ensures Valid() && m_buffer.Contents() == old(m_buffer.Contents()) + data
      ensures m_buffer.data == old(m_buffer.data) || fresh(m_buffer.data)
    {
      m_buffer.Append(data);
    }

    /** Takes the next packet out of the buffer; `None` when there is none yet or it was bad. */
    method GetPackage(crc: Hash, after: Bytes) returns (pkg: Option<Bytes>)
      requires Valid() && m_buffer.size <= MAX_SIZE && |after| >= HEADER_SIZE
      requires !Take(crc, after, m_buffer.Contents()).Broken?
      modifies m_buffer
      ensures Valid() && (m_buffer.data == old(m_buffer.data) || m_buffer.data == null || fresh(m_buffer.data))
      ensures match Take(crc, after, old(m_buffer.Contents()))
              case Wait => pkg == None && m_buffer.Contents() == old(m_buffer.Contents())
              case Reject(rest) => pkg == None && m_buffer.Contents() == rest
              case Package(p, rest) => pkg == Some(p) && m_buffer.Contents() == rest
              case Broken => false
    {
      if m_buffer.size < HEADER_SIZE { return None; }
      var buf := m_buffer.data[..m_buffer.size];
      var pos := FindNextMagic(buf);
      hide FirstMagic, HeaderAt;
      if pos < 0 {
        m_buffer.Clear();
        return None;
      }
      var hdr := HeaderAt(buf + after, pos);
      var length := hdr.length as nat;
      if m_buffer.size - pos < length { return None; }
      if hdr.dataHash != HashOf(crc, buf[pos + HEADER_SIZE..pos + length]) {
        m_buffer.SetData(buf[pos + 2..]);
        return None;
      }
      m_buffer.SetData(buf[pos + length..]);
      return Some(buf[pos..pos + length]);
    }

    /** What the callback of the client does with a chunk: append it, then take packets until an
        attempt gives none. */
    method OnChunk(crc: Hash, after: Bytes -> Bytes, chunk: Bytes) returns (out: seq<Bytes>)
      requires Valid() && m_buffer.size + |chunk| <= MAX_SIZE && Behind(after)
      requires Advances(Taking(crc, after), m_buffer.Contents() + chunk)
      modifies m_buffer, m_buffer.data
      ensures Valid() && (out, m_buffer.Contents()) == Drained(Taking(crc, after), old(m_buffer.Contents()) + chunk)
      ensures m_buffer.data == old(m_buffer.data) || m_buffer.data == null || fresh(m_buffer.data)
    {
      ghost var f, all := Taking(crc, after), m_buffer.Contents() + chunk;
      Append(chunk);
      out := [];
      ghost var goal := Drained(f, all);
      assert Ahead(f, out, all, goal) by {
        assert out + goal.0 == goal.0;
      }
      hide Drained, Advances, Ahead, Taking;
      var more := true;
      while more
        invariant Valid() && m_buffer.size <= MAX_SIZE
        invariant m_buffer.data == old(m_buffer.data) || m_buffer.data == null || fresh(m_buffer.data)
        invariant if more then Advances(f, m_buffer.Contents()) && Ahead(f, out, m_buffer.Contents(), goal)
                  else goal == (out, m_buffer.Contents())
        decreases more, m_buffer.size
      {
        out, more := Turn(crc, after, out, goal);
      }
    }

    /** One turn of that loop, towards `goal`. */
    method Turn(crc: Hash, after: Bytes -> Bytes, out: seq<Bytes>, ghost goal: (seq<Bytes>, Bytes))
      returns (next: seq<Bytes>, more: bool)
      requires Valid() && m_buffer.size <= MAX_SIZE && Behind(after)
      requires Advances(Taking(crc, after), m_buffer.Contents())
      requires Ahead(Taking(crc, after), out, m_buffer.Contents(), goal)
      modifies m_buffer
      ensures Valid() && (m_buffer.data == old(m_buffer.data) || m_buffer.data == null || fresh(m_buffer.data))
      ensures m_buffer.size <= old(m_buffer.size) && (more ==> m_buffer.size < old(m_buffer.size))
      ensures if more
              then Advances(Taking(crc, after), m_buffer.Contents())
                && Ahead(Taking(crc, after), next, m_buffer.Contents(), goal)
              else goal == (next, m_buffer.Contents())
    {
      ghost var buf := m_buffer.Contents();
      GoOn(Taking(crc, after), out, buf, goal);
      Shrinks(crc, after(buf), buf);
      TakingIs(crc, after, buf);
      hide Take, Advances, Ahead, Taking, Drained;
      var pkg := GetPackage(crc, after(if m_buffer.data == null then [] else m_buffer.data[..m_buffer.size]));
      if pkg.None? {
        return out, false;
      }
      return out + [pkg.value], true;
    }
  }

  lemma TakingIs(crc: Hash, after: Bytes -> Bytes, buf: Bytes)
    requires Behind(after)
    ensures |after(buf)| >= HEADER_SIZE && Taking(crc, after)(buf) == Take(crc, after(buf), buf)
  {
  }

  /** `generate` into `pkg`; the length field takes the size of the buffer, which stays what it was in
      one used before with enough capacity.  The buffer then holds header and data if and only if that was
      the right size, and reads as a packet if and only if the hash takes the bytes that it holds behind
      the header for the data. */
  method Generate(crc: Hash, pkg: Buffer, id: uint32, frameType: uint16, opCode: uint16, option: uint16, data: Bytes)
    requires pkg.Valid() && HEADER_SIZE + |data| <= MAX_SIZE && pkg.size < TWO32
    modifies pkg, pkg.data
    ensures pkg.Valid() && pkg.data != null && pkg.data.Length >= HEADER_SIZE + |data|
    ensures pkg.data == old(pkg.data) || fresh(pkg.data)
    ensures pkg.size == if old(pkg.capacity) >= HEADER_SIZE + |data| then old(pkg.size) else HEADER_SIZE + |data|
    ensures pkg.size < TWO32 && pkg.data[..HEADER_SIZE + |data|] ==
            HeaderBytes(Header(MAGIC, pkg.size as uint32, id, frameType, opCode, option, HashOf(crc, data))) + data
    ensures var h := Header(MAGIC, pkg.size as uint32, id, frameType, opCode, option, HashOf(crc, data));
            pkg.Contents() == HeaderBytes(h) + data <==>
              old(pkg.capacity) < HEADER_SIZE + |data| || old(pkg.size) == HEADER_SIZE + |data|
    ensures IsPacket(crc, pkg.Contents()) <==>
              pkg.size >= HEADER_SIZE && HashOf(crc, pkg.Contents()[HEADER_SIZE..]) == HashOf(crc, data)
    ensures pkg.size == HEADER_SIZE + |data| ==> IsPacket(crc, pkg.Contents()) && pkg.Contents()[HEADER_SIZE..] == data
  {
    var n := HEADER_SIZE + |data|;
    pkg.Alloc(n);
    var h := Header(MAGIC, pkg.size as uint32, id, frameType, opCode, option, HashOf(crc, data));
    hide HeaderBytes, HeaderAt, HashOf;
    Copy(pkg.data, 0, HeaderBytes(h));
    Copy(pkg.data, HEADER_SIZE, data);
    assert pkg.data[..][..n] == HeaderBytes(h) + data;
    ghost var c := pkg.Contents();
    if pkg.size >= HEADER_SIZE {
      assert c[..HEADER_SIZE] == pkg.data[..][..n][..HEADER_SIZE] == HeaderBytes(h);
      assert c == HeaderBytes(h) + c[HEADER_SIZE..];
      HeaderBack(h, c[HEADER_SIZE..]);
    }
    if pkg.size == n {
      assert c == pkg.data[..n];
    }
  }

  /** A long packet and then a short one into the same object: the short one is not what it then holds. */
  method LongThenShort(crc: Hash, id: uint32, frameType: uint16, opCode: uint16, option: uint16, long: Bytes,
                       short: Bytes)
    returns (pkg: Buffer)
    requires |short| < |long| && HEADER_SIZE + |long| <= MAX_SIZE
    ensures pkg.Valid() && pkg.size == HEADER_SIZE + |long|
    ensures pkg.Contents()[HEADER_SIZE..] != short
    ensures IsPacket(crc, pkg.Contents()) <==> HashOf(crc, pkg.Contents()[HEADER_SIZE..]) == HashOf(crc, short)
  {
    pkg := new Buffer();
    hide HeaderBytes, HeaderAt, IsPacket, HashOf;
    Generate(crc, pkg, id, frameType, opCode, option, long);
    assert pkg.size == HEADER_SIZE + |long| <= pkg.capacity;
    Generate(crc, pkg, id, frameType, opCode, option, short);
  }
}
