/** Packages of the message bus in a byte stream: building them, and finding them again however the
    stream is cut. */
module MsgFraming {
  import opened Basics
  import opened Buffers
  import opened Framing

  const HEADER_SIZE: nat := 32
  const MAX_PKG_SIZE: nat := 8192

  datatype Header = Header(length: uint32, id: uint32, from: uint32, target: uint32,
                           code: uint32, msgId: uint32, options: uint32, checksum: uint32)

  /** The header as it lies in memory and on the wire. */
  function HeaderBytes(h: Header): (r: Bytes)
    ensures |r| == HEADER_SIZE
  {
    Be32(h.length) + Be32(h.id) + Be32(h.from) + Be32(h.target) + Be32(h.code) + Be32(h.msgId) + Be32(h.options) +
      Be32(h.checksum)
  }

  function HeaderOf(b: Bytes): Header
    requires |b| >= HEADER_SIZE
  {
    Header(FromBe32(b[..4]), FromBe32(b[4..8]), FromBe32(b[8..12]), FromBe32(b[12..16]),
           FromBe32(b[16..20]), FromBe32(b[20..24]), FromBe32(b[24..28]), FromBe32(b[28..32]))
  }

  lemma HeaderBack(h: Header, rest: Bytes)
    ensures HeaderOf(HeaderBytes(h) + rest) == h
  {
    HeaderParts(h, rest);
    hide HeaderBytes, Be32, FromBe32;
    Be32Back(h.length);
    Be32Back(h.id);
    Be32Back(h.from);
    Be32Back(h.target);
    Be32Back(h.code);
    Be32Back(h.msgId);
    Be32Back(h.options);
    Be32Back(h.checksum);
  }

  lemma HeaderParts(h: Header, rest: Bytes)
    ensures var b := HeaderBytes(h) + rest;
            && b[..4] == Be32(h.length) && b[4..8] == Be32(h.id) && b[8..12] == Be32(h.from)
              && b[12..16] == Be32(h.target)
            && b[16..20] == Be32(h.code) && b[20..24] == Be32(h.msgId) && b[24..28] == Be32(h.options)
            && b[28..32] == Be32(h.checksum)
  {
    hide Be32;
  }

  // ---------------------------------------------------------------- checksum

  /** The sum of the bytes. */
  ghost function Sum(b: Bytes): nat {
    if b == [] then 0 else Sum(b[..|b| - 1]) + b[|b| - 1] as nat
  }

  lemma {:induction false} SumBound(b: Bytes)
    ensures Sum(b) <= 255 * |b|
  {
    if b != [] {
      SumBound(b[..|b| - 1]);
    }
  }

  /** Sum of all header bytes but those of the checksum itself. */
  ghost function ChecksumOf(b: Bytes): uint32
    requires |b| >= HEADER_SIZE
  {
    SumBound(b[..HEADER_SIZE - 4]);
    Sum(b[..HEADER_SIZE - 4]) as uint32
  }

  method GenerateChecksum(b: Bytes) returns (code: uint32)
    requires |b| >= HEADER_SIZE
    ensures code == ChecksumOf(b)
  {
    code := 0;
    var len := HEADER_SIZE - 4;
    for i := 0 to len
      invariant code as nat == Sum(b[..i])
    {
      assert b[..i + 1][..i] == b[..i];
      SumBound(b[..i + 1]);
      code := code + b[i] as uint32;
    }
  }

  // ---------------------------------------------------------------- building a package

  /** A package as `getPackage` accepts it. */
  ghost predicate IsPackage(p: Bytes) {
    && HEADER_SIZE <= |p| <= MAX_PKG_SIZE
    && HeaderOf(p).length as nat == |p| && HeaderOf(p).checksum == ChecksumOf(p)
  }

  /** The header that goes out: its length, id and checksum set. */
  ghost function Stamped(h: Header, pkgLen: uint32, id: uint32): Header {
    var h1 := h.(length := pkgLen, id := if h.id == 0 then id else h.id);
    h1.(checksum := ChecksumOf(HeaderBytes(h1)))
  }

  lemma ChecksumIgnoresItself(h: Header, c: uint32, rest: Bytes)
    ensures ChecksumOf(HeaderBytes(h.(checksum := c)) + rest) == ChecksumOf(HeaderBytes(h))
  {
    var h' := h.(checksum := c);
    assert (HeaderBytes(h') + rest)[..28] == HeaderBytes(h)[..28] by {
      hide Be32;
    }
    hide HeaderBytes, Sum;
  }

  /** What `generate` makes is a package, with the given fields and data. */
  lemma StampedIsPackage(h: Header, id: uint32, data: Bytes)
    requires |data| + HEADER_SIZE <= MAX_PKG_SIZE
    ensures var len := (|data| + HEADER_SIZE) as uint32; var p := HeaderBytes(Stamped(h, len, id)) + data;
            && IsPackage(p) && p[HEADER_SIZE..] == data
            && HeaderOf(p) == Stamped(h, len, id)
  {
    var len := (|data| + HEADER_SIZE) as uint32;
    var h1 := h.(length := len, id := if h.id == 0 then id else h.id);
    HeaderBack(Stamped(h, len, id), data);
    ChecksumIgnoresItself(h1, ChecksumOf(HeaderBytes(h1)), data);
    hide HeaderBytes, HeaderOf, ChecksumOf;
  }

  /** An id of the caller is kept, and only 0 replaced; the other fields stay. */
  lemma StampedFields(h: Header, len: uint32, id: uint32)
    ensures var t := Stamped(h, len, id);
            && t.length == len && t.id == (if h.id != 0 then h.id else id)
            && t.from == h.from && t.target == h.target && t.code == h.code && t.msgId == h.msgId
            && t.options == h.options
  {
  }

  function ByteSum(w: uint32): nat {
    var b := Be32(w);
    b[0] as nat + b[1] as nat + b[2] as nat + b[3] as nat
  }

  /** The checksum of a header: the bytes of its other seven fields. */
  lemma ChecksumAdds(h: Header)
    ensures ChecksumOf(HeaderBytes(h)) as nat ==
            ByteSum(h.length) + ByteSum(h.id) + ByteSum(h.from) + ByteSum(h.target) + ByteSum(h.code) +
            ByteSum(h.msgId) + ByteSum(h.options)
  {
    var b1 := [] + Be32(h.length);
    var b2 := b1 + Be32(h.id);
    var b3 := b2 + Be32(h.from);
    var b4 := b3 + Be32(h.target);
    var b5 := b4 + Be32(h.code);
    var b6 := b5 + Be32(h.msgId);
    var b7 := b6 + Be32(h.options);
    FieldAdds([], h.length);
    FieldAdds(b1, h.id);
    FieldAdds(b2, h.from);
    FieldAdds(b3, h.target);
    FieldAdds(b4, h.code);
    FieldAdds(b5, h.msgId);
    FieldAdds(b6, h.options);
    assert Sum([]) == 0;
    hide Sum, Be32, ByteSum;
    assert HeaderBytes(h)[..HEADER_SIZE - 4] == b7;
  }

  lemma FieldAdds(a: Bytes, w: uint32)
    ensures Sum(a + Be32(w)) == Sum(a) + ByteSum(w)
  {
    var b := Be32(w);
    assert b == [b[0], b[1], b[2], b[3]];
    hide Be32, Sum;
    SumLast(a, b[0]);
    SumLast(a + [b[0]], b[1]);
    SumLast(a + [b[0]] + [b[1]], b[2]);
    SumLast(a + [b[0]] + [b[1]] + [b[2]], b[3]);
    assert a + [b[0]] + [b[1]] + [b[2]] + [b[3]] == a + b;
  }

  lemma SumLast(a: Bytes, x: uint8)
    ensures Sum(a + [x]) == Sum(a) + x as nat
  {
    assert (a + [x])[..|a|] == a;
  }

  // ---------------------------------------------------------------- taking packages out

  /** What `getPackage` does with a buffer. */
  ghost function Take(buf: Bytes): Taken {
    if |buf| < HEADER_SIZE then Wait
    else
      var length := HeaderOf(buf).length as nat;
      if |buf| < length then Wait
      else if length > MAX_PKG_SIZE || HeaderOf(buf).checksum != ChecksumOf(buf) then Reject([])
      else Package(buf[..length], buf[length..])
  }

  /** A header waits for as many bytes as it claims, whatever else is wrong with it; then a wrong checksum,
      or a claim of more than 8192 bytes, throws the whole buffer away. */
  lemma BadFrame(buf: Bytes)
    ensures Take(buf) == Wait <==> |buf| < 32 || |buf| < HeaderOf(buf).length as nat
    ensures Take(buf).Reject? <==> && |buf| >= 32 && |buf| >= HeaderOf(buf).length as nat
                                   && (HeaderOf(buf).length > 8192 || HeaderOf(buf).checksum != ChecksumOf(buf))
    ensures Take(buf).Reject? ==> Take(buf).rest == []
  {
    hide HeaderOf, ChecksumOf;
  }

  lemma TakeWhole(p: Bytes, rest: Bytes)
    requires IsPackage(p)
    ensures Take(p + rest) == Package(p, rest)
  {
    SameHeader(p, p + rest);
    hide HeaderOf, ChecksumOf;
    assert (p + rest)[..|p|] == p && (p + rest)[|p|..] == rest;
  }

  lemma TakePart(p: Bytes, part: Bytes)
    requires IsPackage(p) && part <= p && |part| < |p|
    ensures Take(part) == Wait
  {
    if |part| >= HEADER_SIZE {
      SameHeader(part, p);
    }
    hide HeaderOf, ChecksumOf;
  }

  lemma SameHeader(a: Bytes, b: Bytes)
    requires HEADER_SIZE <= |a| && a <= b
    ensures HeaderOf(b) == HeaderOf(a) && ChecksumOf(b) == ChecksumOf(a)
  {
    assert a[..28] == b[..28];
    assert a[..4] == b[..4] && a[4..8] == b[4..8] && a[8..12] == b[8..12] && a[12..16] == b[12..16];
    assert a[16..20] == b[16..20] && a[20..24] == b[20..24] && a[24..28] == b[24..28] && a[28..32] == b[28..32];
    hide FromBe32, Sum;
  }

  /** So a package is found whenever it is complete, and waited for until then. */
  lemma PackageFrames(p: Bytes)
    requires IsPackage(p)
    ensures Frames(Take, p)
  {
    hide IsPackage, Take;
    forall rest: Bytes
      ensures Take(p + rest) == Package(p, rest)
    {
      TakeWhole(p, rest);
    }
    forall part: Bytes | part < p
      ensures Take(part) == Wait
    {
      TakePart(p, part);
    }
    PackageNotEmpty(p);
  }

  lemma PackageNotEmpty(p: Bytes)
    requires IsPackage(p)
    ensures p != []
  {
  }

  /** A header that claims less than its own size, with the right checksum, is taken for a package of that
      size; the buffer gets shorter if and only if the size is not 0. */
  lemma ShortFrame(buf: Bytes)
    requires |buf| >= HEADER_SIZE > HeaderOf(buf).length as nat && HeaderOf(buf).checksum == ChecksumOf(buf)
    ensures var n := HeaderOf(buf).length as nat;
            Take(buf) == Package(buf[..n], buf[n..]) && (|buf[n..]| < |buf| <==> n > 0)
  {
    hide HeaderOf, ChecksumOf;
  }

  /** 32 zero bytes are such a frame of size 0: taking gives an empty package, again and again. */
  lemma ZeroFrame()
    ensures var buf := seq(HEADER_SIZE, _ => 0); Take(buf) == Package([], buf)
  {
    var buf: Bytes := seq(HEADER_SIZE, _ => 0);
    SumOfZeros(28);
    assert buf[..28] == seq(28, _ => 0);
    hide Sum;
    assert HeaderOf(buf).length == 0 && HeaderOf(buf).checksum == 0 == ChecksumOf(buf);
    assert buf[..0] == [] && buf[0..] == buf;
  }

  lemma {:induction false} SumOfZeros(n: nat)
    ensures Sum(seq(n, _ => 0)) == 0
  {
    if n > 0 {
      var b: Bytes := seq(n, _ => 0);
      assert b[..n - 1] == seq(n - 1, _ => 0) && b[1..] == seq(n - 1, _ => 0);
      SumOfZeros(n - 1);
    }
  }

  ghost predicate AllPackages(ps: seq<Bytes>) {
    forall p | p in ps :: IsPackage(p)
  }

  lemma BusFrames(ps: seq<Bytes>)
    requires AllPackages(ps)
    ensures Packages(Take, ps) && Take([]) == Wait
  {
    hide IsPackage;
    forall p | p in ps
      ensures Frames(Take, p)
    {
      PackageFrames(p);
    }
  }

  /** Any list of packages, concatenated and cut anywhere, drained after each chunk: the complete ones
      come out in order, and the buffer is the unfinished one. */
  lemma BusStream(ps: seq<Bytes>, chunks: seq<Bytes>) returns (k: nat)
    requires AllPackages(ps) && Flat(chunks) <= Flat(ps)
    ensures Emitted(ps, Flat(chunks), k, Fed(Take, [], chunks).0, Fed(Take, [], chunks).1)
    ensures Flat(chunks) == Flat(ps) ==> Fed(Take, [], chunks) == (ps, [])
  {
    BusFrames(ps);
    NothingYet(Take, ps);
    hide Take, Frames, IsTail, Emitted, Fed;
    assert [] + Flat(chunks) == Flat(chunks);
    k := AnyCut(Take, ps, [], chunks);
    if Flat(chunks) == Flat(ps) {
      WholeStream(Take, ps, chunks);
    }
  }

  // ---------------------------------------------------------------- the code

  class MsgBusPackageHelper {
    const m_buffer: Buffer

    ghost predicate Valid()
      reads this, m_buffer, m_buffer.data
    {
      m_buffer.Valid()
    }

    constructor ()
      ensures Valid() && fresh(m_buffer) && m_buffer.Contents() == [] && m_buffer.data == null
    {
      m_buffer := new Buffer();
    }

    method Append(data: Bytes)
      requires Valid() && m_buffer.size + |data| <= MAX_SIZE
      modifies m_buffer, m_buffer.data
      ensures Valid() && m_buffer.Contents() == old(m_buffer.Contents()) + data
      ensures m_buffer.data == old(m_buffer.data) || fresh(m_buffer.data)
    {
      m_buffer.Append(data);
    }

    /** Takes one package out of the buffer, if there is a whole one; a bad one clears the buffer. */
    method GetPackage() returns (pkg: Option<Bytes>)
      requires Valid() && m_buffer.size <= MAX_SIZE
      modifies m_buffer
      ensures Valid() && (m_buffer.data == old(m_buffer.data) || m_buffer.data == null || fresh(m_buffer.data))
      ensures m_buffer.size <= old(m_buffer.size)
      ensures match Take(old(m_buffer.Contents()))
              case Wait => pkg == None && m_buffer.Contents() == old(m_buffer.Contents())
              case Reject(rest) => pkg == None && m_buffer.Contents() == rest
              case Package(p, rest) => pkg == Some(p) && m_buffer.Contents() == rest
              case Broken => false
    {
      if m_buffer.size < HEADER_SIZE { return None; }
      var buf := m_buffer.data[..m_buffer.size];
      var length := HeaderOf(buf).length as nat;
      if m_buffer.size < length { return None; }
      var code := GenerateChecksum(buf);
      if length > MAX_PKG_SIZE || HeaderOf(buf).checksum != code {
        m_buffer.Clear();
        return None;
      }
      hide HeaderOf, ChecksumOf;
      m_buffer.SetData(buf[length..]);
      return Some(buf[..length]);
    }

    /** What the callback of a connection does with a chunk: append it, then take packages out until
        there is none. */
    method OnChunk(chunk: Bytes) returns (out: seq<Bytes>)
      requires Valid() && m_buffer.size + |chunk| <= MAX_SIZE && Advances(Take, m_buffer.Contents() + chunk)
      modifies m_buffer, m_buffer.data
      ensures Valid() && (out, m_buffer.Contents()) == Drained(Take, old(m_buffer.Contents()) + chunk)
      ensures m_buffer.data == old(m_buffer.data) || m_buffer.data == null || fresh(m_buffer.data)
    {
      ghost var all := m_buffer.Contents() + chunk;
      Append(chunk);
      out := [];
      ghost var goal := Drained(Take, all);
      assert Ahead(Take, out, all, goal) by {
        assert out + goal.0 == goal.0;
      }
      var more := true;
      while more
        invariant Valid() && m_buffer.size <= MAX_SIZE
        invariant m_buffer.data == old(m_buffer.data) || m_buffer.data == null || fresh(m_buffer.data)
        invariant if more then Advances(Take, m_buffer.Contents()) && Ahead(Take, out, m_buffer.Contents(), goal)
                  else goal == (out, m_buffer.Contents())
        decreases more, m_buffer.size
      {
        out, more := Turn(out, goal);
      }
    }

    /** One turn of that loop, towards `goal`. */
    method Turn(out: seq<Bytes>, ghost goal: (seq<Bytes>, Bytes)) returns (next: seq<Bytes>, more: bool)
      requires Valid() && m_buffer.size <= MAX_SIZE && Advances(Take, m_buffer.Contents())
      requires Ahead(Take, out, m_buffer.Contents(), goal)
      modifies m_buffer
      ensures Valid() && (m_buffer.data == old(m_buffer.data) || m_buffer.data == null || fresh(m_buffer.data))
      ensures m_buffer.size <= old(m_buffer.size) && (more ==> m_buffer.size < old(m_buffer.size))
      ensures if more then Advances(Take, m_buffer.Contents()) && Ahead(Take, next, m_buffer.Contents(), goal)
              else goal == (next, m_buffer.Contents())
    {
      GoOn(Take, out, m_buffer.Contents(), goal);
      hide Take, Advances, Ahead;
      var pkg := GetPackage();
      if pkg.None? {
        return out, false;
      }
      return out + [pkg.value], true;
    }
  }

  /** Of a package, no other beginning and nothing longer is a package. */
  lemma PackageIff(p: Bytes, c: Bytes)
    requires IsPackage(p) && (c <= p || p <= c)
    ensures IsPackage(c) <==> |c| == |p|
  {
    hide HeaderOf, ChecksumOf;
    if |c| >= HEADER_SIZE {
      if c <= p {
        SameHeader(c, p);
      } else {
        SameHeader(p, c);
      }
    }
    if |c| == |p| {
      assert c == p;
    }
  }

  /** `generate` into `pkg`; `gid` counts the ids handed out.  An object used before with enough capacity
      keeps its old size, and so holds a package if and only if that is the right one. */
  method Generate(pkg: Buffer, header: Header, data: Bytes, gid: uint32) returns (ok: bool, gid': uint32)
    requires pkg.Valid()
    modifies pkg, pkg.data
    ensures pkg.Valid() && ok == (|data| + HEADER_SIZE <= MAX_PKG_SIZE)
    ensures pkg.data == old(pkg.data) || fresh(pkg.data)
    ensures !ok ==> gid' == gid && pkg.Contents() == old(pkg.Contents())
    ensures ok ==> gid' == if header.id == 0 then Next(gid) else gid
    ensures ok ==> var n := |data| + HEADER_SIZE;
            && pkg.data != null && pkg.data.Length >= n
            && pkg.data[..n] == HeaderBytes(Stamped(header, n as uint32, gid')) + data
            && pkg.size == if old(pkg.capacity) >= n then old(pkg.size) else n
    ensures ok ==> var n := |data| + HEADER_SIZE;
            && (IsPackage(pkg.Contents()) <==> old(pkg.capacity) < n || old(pkg.size) == n)
            && (IsPackage(pkg.Contents()) ==> pkg.Contents() == HeaderBytes(Stamped(header, n as uint32, gid')) + data)
  {
    var pkgLen := |data| + HEADER_SIZE;
    if pkgLen > MAX_PKG_SIZE { return false, gid; }
    ok, gid' := true, gid;
    pkg.Alloc(pkgLen);
    gid' := Fill(pkg.data, pkgLen, header, data, gid);
    ghost var p, c := pkg.data[..pkgLen], pkg.Contents();
    hide HeaderBytes, HeaderOf, ChecksumOf, Stamped, IsPackage;
    StampedIsPackage(header, gid', data);
    if pkg.size <= pkgLen {
      assert c == p[..pkg.size];
    } else {
      assert c[..pkgLen] == p;
    }
    PackageIff(p, c);
  }

  /** A long package and then a short one into the same object: what it then holds is no package. */
  method LongThenShort(header: Header, long: Bytes, short: Bytes, gid: uint32) returns (pkg: Buffer)
    requires |short| < |long| && |long| + HEADER_SIZE <= MAX_PKG_SIZE
    ensures pkg.Valid() && !IsPackage(pkg.Contents())
  {
    pkg := new Buffer();
    hide HeaderBytes, Stamped, IsPackage;
    var ok, id := Generate(pkg, header, long, gid);
    assert IsPackage(pkg.Contents()) && pkg.size == |long| + HEADER_SIZE <= pkg.capacity;
    ok, id := Generate(pkg, header, short, id);
  }

  method Fill(dst: array<uint8>, pkgLen: nat, header: Header, data: Bytes, gid: uint32) returns (gid': uint32)
    requires pkgLen == |data| + HEADER_SIZE <= MAX_PKG_SIZE && pkgLen <= dst.Length
    modifies dst
    ensures gid' == if header.id == 0 then Next(gid) else gid
    ensures dst[..pkgLen] == HeaderBytes(Stamped(header, pkgLen as uint32, gid')) + data
  {
    gid' := if header.id == 0 then Next(gid) else gid;
    ghost var h1 := header.(length := pkgLen as uint32);
    ghost var h2 := h1.(id := if header.id == 0 then gid' else header.id);
    ghost var h3 := h2.(checksum := ChecksumOf(HeaderBytes(h2)));
    ChecksumIgnoresItself(h2, h2.checksum, data);
    hide HeaderBytes, ChecksumOf;
    Copy(dst, 0, HeaderBytes(header));
    Copy(dst, HEADER_SIZE, data);
    assert dst[..][..pkgLen] == HeaderBytes(header) + data;
    FieldBytes(header, pkgLen as uint32);
    WriteField(dst, 0, pkgLen as uint32, header, h1, data);
    if header.id == 0 {
      FieldBytes(h1, gid');
      WriteField(dst, 4, gid', h1, h2, data);
    }
    var code := GenerateChecksum(dst[..pkgLen]);
    FieldBytes(h2, code);
    WriteField(dst, 28, code, h2, h3, data);
  }

  /** Writes one field in place. */
  method WriteField(dst: array<uint8>, at: nat, w: uint32, ghost h: Header, ghost h': Header, ghost data: Bytes)
    requires at + 4 <= HEADER_SIZE && HEADER_SIZE + |data| <= dst.Length
    requires dst[..HEADER_SIZE + |data|] == HeaderBytes(h) + data
    requires HeaderBytes(h') == HeaderBytes(h)[..at] + Be32(w) + HeaderBytes(h)[at + 4..]
    modifies dst
    ensures dst[..HEADER_SIZE + |data|] == HeaderBytes(h') + data
  {
    hide HeaderBytes;
    ghost var n, was := HEADER_SIZE + |data|, dst[..];
    Copy(dst, at, Be32(w));
    hide Be32;
    assert was[..at] == HeaderBytes(h)[..at];
    assert was[at + 4..][..n - at - 4] == was[..n][at + 4..] == HeaderBytes(h)[at + 4..] + data;
    assert dst[..][..n] == was[..at] + Be32(w) + was[at + 4..][..n - at - 4];
  }

  lemma FieldBytes(h: Header, w: uint32)
    ensures HeaderBytes(h.(length := w)) == HeaderBytes(h)[..0] + Be32(w) + HeaderBytes(h)[4..]
    ensures HeaderBytes(h.(id := w)) == HeaderBytes(h)[..4] + Be32(w) + HeaderBytes(h)[8..]
    ensures HeaderBytes(h.(checksum := w)) == HeaderBytes(h)[..28] + Be32(w) + HeaderBytes(h)[32..]
  {
    hide Be32;
  }

  /** `++g_id` on 32 bits. */
  function Next(gid: uint32): uint32 {
    if gid == 0xFFFF_FFFF then 0 else gid + 1
  }
}
