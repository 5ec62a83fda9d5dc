/** MD5 as a stream: block buffering, the bit count in two words, and the padding.  The function that
    folds one block into the state stays abstract. */
module Md5 {
  import opened Basics

  datatype State = State(a: uint32, b: uint32, c: uint32, d: uint32)
  type Transform = (State, Bytes) -> State

  const INIT := State(0x67452301, 0xEFCDAB89, 0x98BADCFE, 0x10325476)

  // ---------------------------------------------------------------- RFC 1321

  /** Whole blocks folded into a state, first block first. */
  ghost function Fold(f: Transform, m: Bytes): (s: State)
    requires |m| % 64 == 0
  {
    if m == [] then INIT else f(Fold(f, m[..|m| - 64]), m[|m| - 64..])
  }

  /** The low byte first, as section 2 has it. */
  function WordBytes(w: uint32): (r: Bytes)
    ensures |r| == 4
  {
    var n := w as int;
    [(n % 0x100) as uint8, (n / 0x100 % 0x100) as uint8, (n / 0x1_0000 % 0x100) as uint8, (n / 0x100_0000) as uint8]
  }

  ghost function Low(n: nat): uint32 { (n % TWO32) as uint32 }
  ghost function High(n: nat): uint32 { (n / TWO32 % TWO32) as uint32 }

  function Zeros(n: nat): (r: Bytes)
    ensures |r| == n
  {
    seq(n, i => 0)
  }

  /** Zero bytes after the byte 0x80. */
  function ZeroCount(n: nat): nat { (119 - n % 64) % 64 }

  ghost function Padding(n: nat): (r: Bytes)
    ensures (n + |r| + 8) % 64 == 0
  {
    PaddingLength(n);
    [0x80] + Zeros(ZeroCount(n))
  }

  ghost function LengthBytes(n: nat): (r: Bytes)
    ensures |r| == 8
  {
    WordBytes(Low(8 * n)) + WordBytes(High(8 * n))
  }

  /** Sections 3.1 and 3.2: padding, then the number of bits modulo 2^64. */
  ghost function Padded(m: Bytes): (r: Bytes)
    ensures |r| % 64 == 0
  {
    m + Padding(|m|) + LengthBytes(|m|)
  }

  ghost function Encoded(s: State): (r: Bytes)
    ensures |r| == 16
  {
    WordBytes(s.a) + WordBytes(s.b) + WordBytes(s.c) + WordBytes(s.d)
  }

  ghost function Digest(f: Transform, m: Bytes): Bytes { Encoded(Fold(f, Padded(m))) }

  /** The words that the first block is folded into (section 3.3 of RFC 1321). */
  lemma InitialWords(f: Transform)
    ensures Encoded(Fold(f, [])) == [0x01, 0x23, 0x45, 0x67, 0x89, 0xAB, 0xCD, 0xEF,
                                     0xFE, 0xDC, 0xBA, 0x98, 0x76, 0x54, 0x32, 0x10]
  {
  }

  /** Blocks are folded from the first to the last. */
  lemma TwoBlocks(f: Transform, x: Bytes, y: Bytes)
    requires |x| == |y| == 64
    ensures Fold(f, x + y) == f(f(Fold(f, []), x), y)
  {
    assert (x + y)[..64] == x && (x + y)[64..] == y && x[..0] == [] && x[0..] == x;
  }

  /** The padded form of "abc": a single 1 bit, zeros, and the length in bits, low byte first. */
  lemma PaddedAbc()
    ensures Padded([0x61, 0x62, 0x63]) == [0x61, 0x62, 0x63, 0x80] + Zeros(52) + [24, 0, 0, 0, 0, 0, 0, 0]
  {
    assert LengthBytes(3) == [24, 0, 0, 0] + [0, 0, 0, 0];
  }

  /** A length that needs the second word. */
  lemma LongLength()
    ensures LengthBytes(0x1_2345_6789) == [0x48, 0x3C, 0x2B, 0x1A, 0x09, 0, 0, 0]
  {
  }


  lemma PaddingLength(n: nat)
    ensures (n + 1 + ZeroCount(n)) % 64 == 56
  {
  }

  /** The padding is the shortest that brings the length to 56 modulo 64. */
  lemma PaddingLeast(n: nat, k: nat)
    requires (n + 1 + k) % 64 == 56
    ensures ZeroCount(n) <= k
  {
    assert (n % 64 + 1 + k) % 64 == 56;
  }

  lemma WordBytesBack(v: uint32, w: uint32)
    requires WordBytes(v) == WordBytes(w)
    ensures v == w
  {
    FromBytes(v);
    FromBytes(w);
  }

  lemma FromBytes(w: uint32)
    ensures var r := WordBytes(w);
            w as int == r[0] as int + 0x100 * r[1] as int + 0x1_0000 * r[2] as int + 0x100_0000 * r[3] as int
  {
  }

  /** No two messages of fewer than 2^61 bytes have the same padded form. */
  lemma PaddedInjective(m: Bytes, n: Bytes)
    requires Padded(m) == Padded(n) && 8 * |m| < TWO32 * TWO32 && 8 * |n| < TWO32 * TWO32
    ensures m == n
  {
    PaddedEnds(m);
    PaddedEnds(n);
    hide Padded, LengthBytes;
    LengthBack(|m|, |n|);
  }

  lemma PaddedEnds(m: Bytes)
    ensures var p := Padded(m); |p| >= |m| + 8 && p[..|m|] == m && p[|p| - 8..] == LengthBytes(|m|)
  {
    hide LengthBytes, Padding;
  }

  lemma LengthBack(n: nat, k: nat)
    requires LengthBytes(n) == LengthBytes(k) && 8 * n < TWO32 * TWO32 && 8 * k < TWO32 * TWO32
    ensures n == k
  {
    var a, b := LengthBytes(n), LengthBytes(k);
    hide WordBytes;
    assert a[..4] == WordBytes(Low(8 * n)) && a[4..] == WordBytes(High(8 * n));
    assert b[..4] == WordBytes(Low(8 * k)) && b[4..] == WordBytes(High(8 * k));
    WordBytesBack(Low(8 * n), Low(8 * k));
    WordBytesBack(High(8 * n), High(8 * k));
    hide LengthBytes, Low, High;
    HighLow(8 * n);
    HighLow(8 * k);
  }

  lemma HighLow(x: nat)
    requires x < TWO32 * TWO32
    ensures x == TWO32 * High(x) as int + Low(x) as int
  {
  }

  // ---------------------------------------------------------------- the code

  /** Two words count bits modulo 2^64. */
  lemma CountAdds(c0: uint32, c1: uint32, n: nat, len: nat, d0: nat, carry: nat)
    requires c0 == Low(8 * n) && c1 == High(8 * n) && len < TWO32
    requires d0 == (c0 as int + len * 8 % TWO32) % TWO32
    requires carry == if d0 < len * 8 % TWO32 then 1 else 0
    ensures d0 == Low(8 * (n + len)) as int
    ensures (c1 as int + carry + len / 0x2000_0000) % TWO32 == High(8 * (n + len)) as int
  {
    var q, l := 8 * n / TWO32, len * 8;
    assert 8 * n == TWO32 * q + c0 as int;
    assert l == TWO32 * (len / 0x2000_0000) + l % TWO32;
    var sum := c0 as int + l % TWO32;
    assert 8 * (n + len) == TWO32 * (q + len / 0x2000_0000) + sum;
    assert sum == TWO32 * carry + d0;
    QuotientOf(8 * (n + len), q + len / 0x2000_0000 + carry, d0);
    ModSum(q, carry + len / 0x2000_0000);
  }

  lemma QuotientOf(x: nat, q: nat, r: nat)
    requires x == TWO32 * q + r && r < TWO32
    ensures x / TWO32 == q && x % TWO32 == r
  {
  }

  lemma ModSum(a: nat, b: nat)
    ensures (a % TWO32 + b) % TWO32 == (a + b) % TWO32
  {
  }

  /** Bytes held back after `n` bytes. */
  function Index(n: nat): (i: nat)
    ensures i <= n && i < 64 && (n - i) % 64 == 0
  {
    n % 64
  }

  lemma IndexOfCount(n: nat)
    ensures Low(8 * n) as int / 8 % 64 == Index(n)
  {
    var q, s := n / 0x2000_0000, n % 0x2000_0000;
    assert 8 * n == TWO32 * q + 8 * s;
    QuotientOf(8 * n, q, 8 * s);
    assert n == 64 * (0x80_0000 * q) + s;
    assert n % 64 == s % 64;
    assert 8 * s / 8 == s;
    hide Low;
    LowIs(n, 8 * s);
  }

  lemma LowIs(n: nat, r: nat)
    requires 8 * n % TWO32 == r
    ensures Low(8 * n) as int == r
  {
  }

  /** The part of a message already folded. */
  ghost function Done(m: Bytes): (r: Bytes)
    ensures |r| % 64 == 0
  {
    m[..|m| - Index(|m|)]
  }

  lemma FoldBlock(f: Transform, m: Bytes, block: Bytes)
    requires |m| % 64 == 0 && |block| == 64
    ensures |m + block| % 64 == 0 && Fold(f, m + block) == f(Fold(f, m), block)
  {
    assert (m + block)[..|m|] == m && (m + block)[|m|..] == block;
  }

  /** Folding one more block of the input. */
  lemma NextBlock(f: Transform, done: Bytes, input: Bytes, i0: nat, i: nat)
    requires i0 <= i && i + 64 <= |input| && |done + input[i0..i]| % 64 == 0
    ensures |done + input[i0..i + 64]| % 64 == 0
    ensures Fold(f, done + input[i0..i + 64]) == f(Fold(f, done + input[i0..i]), input[i..i + 64])
  {
    assert done + input[i0..i + 64] == (done + input[i0..i]) + input[i..i + 64];
    FoldBlock(f, done + input[i0..i], input[i..i + 64]);
  }

  lemma NoWrap(i: nat, n: nat)
    requires i <= n < TWO32 - 64
    ensures (i + 64) % TWO32 == i + 64
  {
  }

  class MD5Context {
    const transform: Transform
    var count0: uint32
    var count1: uint32
    var state: State
    const buffer: array<uint8>
    /** Everything fed so far. */
    ghost var message: Bytes

    ghost predicate Counted()
      reads this
    {
      count0 == Low(8 * |message|) && count1 == High(8 * |message|)
    }

    ghost predicate Valid()
      reads this, buffer
    {
      && buffer.Length == 64 && Counted()
      && state == Fold(transform, Done(message))
      && buffer[..Index(|message|)] == message[|message| - Index(|message|)..]
    }

    constructor (transform: Transform)
      ensures Valid() && fresh(buffer) && message == [] && this.transform == transform
    {
      this.transform := transform;
      count0, count1 := 0, 0;
      state := INIT;
      buffer := new uint8[64];
      message := [];
    }

    constructor CopyOf(other: MD5Context)
      requires other.Valid()
      ensures Valid() && fresh(buffer) && message == other.message && transform == other.transform
    {
      transform := other.transform;
      count0, count1 := other.count0, other.count1;
      state := other.state;
      buffer := new uint8[64];
      message := other.message;
      new;
      for k := 0 to 64
        invariant buffer[..k] == other.buffer[..k]
        modifies buffer
      {
        buffer[k] := other.buffer[k];
      }
      assert buffer[..Index(|message|)] == other.buffer[..64][..Index(|message|)] == other.buffer[..Index(|message|)];
    }

    /** Adds the bits of `inputlen` bytes. */
    method Count(inputlen: nat)
      requires inputlen < TWO32 && Counted()
      modifies `count0, `count1
      ensures count0 == Low(8 * (|message| + inputlen)) && count1 == High(8 * (|message| + inputlen))
    {
      var bits := inputlen * 8 % TWO32;
      var c0 := (count0 as int + bits) % TWO32;
      var carry := if c0 < bits then 1 else 0;
      CountAdds(count0, count1, |message|, inputlen, c0, carry);
      count0 := c0 as uint32;
      count1 := ((count1 as int + carry) % TWO32) as uint32;
      ModSum(old(count1) as int + carry, inputlen / 0x2000_0000);
      count1 := ((count1 as int + inputlen / 0x2000_0000) % TWO32) as uint32;
    }

    /** Whole blocks of the input from `i0` on; `done` is what has been folded before. */
    method Blocks(input: Bytes, i0: nat, ghost done: Bytes) returns (i: nat)
      requires i0 <= |input| < TWO32 - 64 && |done| % 64 == 0 && state == Fold(transform, done)
      modifies `state
      ensures i0 <= i <= |input| < i + 64 && |done + input[i0..i]| % 64 == 0
      ensures state == Fold(transform, done + input[i0..i])
    {
      i := i0;
      assert done + input[i0..i] == done;
      hide *;
      NoWrap(i, |input|);
      while (i + 64) % TWO32 <= |input|
        invariant i0 <= i <= |input| && (i + 64) % TWO32 == i + 64
        invariant |done + input[i0..i]| % 64 == 0 && state == Fold(transform, done + input[i0..i])
      {
        NextBlock(transform, done, input, i0, i);
        state := transform(state, input[i..i + 64]);
        i := i + 64;
        NoWrap(i, |input|);
      }
    }

    /** What holds when the bytes up to `m` are in the state and the buffer. */
    ghost predicate Holds(m: Bytes)
      reads `state, buffer
    {
      && buffer.Length == 64
      && state == Fold(transform, Done(m)) && buffer[..Index(|m|)] == m[|m| - Index(|m|)..]
    }

    /** Feeds `input`: the context is as if all bytes so far had come at once. */
    method MD5Update(input: Bytes)
      requires Valid() && |input| < TWO32 - 64
      modifies this, buffer
      ensures Valid() && message == old(message) + input
    {
      hide *;
      ValidMeans();
      ghost var m := message;
      var index := count0 as int / 8 % 64;
      Count(|input|);
      message := m + input;
      MD5Store(input, index, m);
      HoldsValid();
    }

    lemma ValidMeans()
      requires Valid()
      ensures Holds(message) && Counted() && count0 as int / 8 % 64 == Index(|message|)
    {
      IndexOfCount(|message|);
      hide Fold, Low, Done, Index;
    }

    lemma HoldsValid()
      requires Holds(message) && count0 == Low(8 * |message|) && count1 == High(8 * |message|)
      ensures Valid()
    {
    }

    /** Blocks into the state, the rest into the buffer. */
    method MD5Store(input: Bytes, index: nat, ghost m: Bytes)
      requires Holds(m) && index == Index(|m|) && |input| < TWO32 - 64
      modifies `state, buffer
      ensures Holds(m + input)
    {
      hide Holds;
      assert m + input[..0] == m && m + input[..0] + input[0..] == m + input;
      var i, rest := 0, index;
      if |input| >= 64 - index {
        i := Fill(input, index, m);
        rest := 0;
      }
      Rest(input, rest, i, m + input[..i]);
      assert m + input[..i] + input[i..] == m + input;
    }

    /** Completes the block in the buffer and folds it, and the whole blocks that follow. */
    method Fill(input: Bytes, index: nat, ghost m: Bytes) returns (i: nat)
      requires Holds(m) && index == Index(|m|) && 64 - index <= |input| < TWO32 - 64
      modifies `state, buffer
      ensures 64 - index <= i <= |input| < i + 64 && Index(|m + input[..i]|) == 0
      ensures Holds(m + input[..i])
    {
      var partlen := 64 - index;
      ghost var done := Done(m);
      hide Fold;
      Copy(buffer, index, input[..partlen]);
      assert m == done + m[|m| - index..];
      assert buffer[..] == m[|m| - index..] + input[..partlen];
      ghost var next := m + input[..partlen];
      assert next == done + buffer[..];
      FoldBlock(transform, done, buffer[..]);
      state := transform(state, buffer[..]);
      i := Blocks(input, partlen, next);
      WholeDone(m, input, partlen, i);
    }

    /** What is left of the input goes to the buffer. */
    method Rest(input: Bytes, index: nat, i: nat, ghost m: Bytes)
      requires Holds(m) && index == Index(|m|) && i <= |input| && index + |input| - i < 64
      modifies buffer
      ensures Holds(m + input[i..])
    {
      hide Fold;
      Copy(buffer, index, input[i..]);
      MoreHeld(m, input[i..]);
    }

    /** Pads and closes the context. */
    method MD5Final() returns (digest: Bytes)
      requires Valid()
      modifies this, buffer
      ensures digest == Digest(transform, old(message))
    {
      ghost var m := message;
      IndexOfCount(|m|);
      var index := count0 as int / 8 % 64;
      var padlen := if index < 56 then 56 - index else 120 - index;
      PadLength(|m|, padlen);
      var bits := MD5Encode([count0, count1]);
      TwoWords(count0, count1);
      Feed(m, padlen, bits);
      digest := MD5Encode([state.a, state.b, state.c, state.d]);
      FourWords(state);
    }

    /** The two updates of MD5Final. */
    method Feed(ghost m: Bytes, padlen: nat, bits: Bytes)
      requires Valid() && message == m && 1 <= padlen <= 64 && [0x80] + Zeros(padlen - 1) == Padding(|m|)
      requires bits == LengthBytes(|m|)
      modifies this, buffer
      ensures state == Fold(transform, Padded(m))
    {
      hide Fold, LengthBytes, Zeros, ZeroCount, Counted;
      MD5Update([0x80] + Zeros(padlen - 1));
      MD5Update(bits);
      assert message == Padded(m);
      assert Index(|message|) == 0 && Done(message) == message;
    }
  }

  /** A whole number of blocks leaves nothing in the buffer. */
  lemma WholeDone(m: Bytes, input: Bytes, p: nat, i: nat)
    requires p <= i <= |input|
    ensures m + input[..p] + input[p..i] == m + input[..i]
    ensures |m + input[..i]| % 64 == 0 ==> Done(m + input[..i]) == m + input[..i]
  {
  }

  lemma MoreIndex(n: nat, k: nat)
    requires Index(n) + k < 64
    ensures Index(n + k) == Index(n) + k
  {
  }

  /** Fewer bytes than complete a block change only what is held. */
  lemma MoreHeld(m: Bytes, part: Bytes)
    requires Index(|m|) + |part| < 64
    ensures Index(|m + part|) == Index(|m|) + |part| && Done(m + part) == Done(m)
    ensures (m + part)[|m + part| - Index(|m + part|)..] == m[|m| - Index(|m|)..] + part
  {
    MoreIndex(|m|, |part|);
    assert |m + part| - Index(|m + part|) == |m| - Index(|m|) >= 0;
    hide Index;
  }

  lemma PadLength(n: nat, padlen: nat)
    requires padlen == if Index(n) < 56 then 56 - Index(n) else 120 - Index(n)
    ensures 1 <= padlen <= 64 && padlen - 1 == ZeroCount(n)
  {
  }

  lemma TwoWords(v: uint32, w: uint32)
    ensures EncodedWords([v, w]) == WordBytes(v) + WordBytes(w)
  {
    hide WordBytes;
    assert [v, w][..1] == [v] && [v][..0] == [];
    assert EncodedWords([v]) == WordBytes(v);
  }

  lemma FourWords(s: State)
    ensures EncodedWords([s.a, s.b, s.c, s.d]) == Encoded(s)
  {
    hide WordBytes;
    assert [s.a, s.b, s.c, s.d][..3] == [s.a, s.b, s.c] && [s.a, s.b, s.c][..2] == [s.a, s.b];
    TwoWords(s.a, s.b);
    assert EncodedWords([s.a, s.b, s.c]) == EncodedWords([s.a, s.b]) + WordBytes(s.c);
  }

  ghost function EncodedWords(ws: seq<uint32>): (r: Bytes)
    ensures |r| == 4 * |ws|
  {
    if ws == [] then [] else EncodedWords(ws[..|ws| - 1]) + WordBytes(ws[|ws| - 1])
  }

  method MD5Encode(input: seq<uint32>) returns (output: Bytes)
    ensures output == EncodedWords(input)
  {
    var i := 0;
    output := [];
    while i < |input|
      invariant i <= |input| && output == EncodedWords(input[..i])
    {
      assert input[..i + 1][..i] == input[..i];
      output := output + WordBytes(input[i]);
      i := i + 1;
    }
    assert input[..i] == input;
  }

  /** The stream object. */
  class MD5 {
    const m_ctx: MD5Context

    ghost predicate Valid()
      reads this, m_ctx, m_ctx.buffer
    {
      m_ctx.Valid()
    }

    /** All bytes given to `Update`. */
    ghost function Fed(): Bytes
      reads m_ctx
    {
      m_ctx.message
    }

    ghost function F(): Transform { m_ctx.transform }

    constructor (transform: Transform)
      ensures Valid() && fresh(m_ctx) && fresh(m_ctx.buffer) && Fed() == [] && F() == transform
    {
      m_ctx := new MD5Context(transform);
    }

    method Update(buf: Bytes)
      requires Valid() && |buf| < TWO32 - 64
      modifies m_ctx, m_ctx.buffer
      ensures Valid() && Fed() == old(Fed()) + buf
    {
      m_ctx.MD5Update(buf);
    }

    /** Works on a copy: nothing that existed before changes. */
    method Result() returns (digest: Bytes)
      requires Valid()
      ensures digest == Digest(F(), Fed())
    {
      var ctx := new MD5Context.CopyOf(m_ctx);
      digest := ctx.MD5Final();
    }
  }

  ghost function Concat(chunks: seq<Bytes>): Bytes {
    if chunks == [] then [] else Concat(chunks[..|chunks| - 1]) + chunks[|chunks| - 1]
  }

  /** Takes the result `times` times. */
  method Probe(md5: MD5, times: nat)
    requires md5.Valid()
  {
    hide *;
    for j := 0 to times {
      var digest := md5.Result();
    }
  }

  /** Feeds the chunks one by one, taking the result `probe` times after each. */
  method FeedAll(md5: MD5, chunks: seq<Bytes>, probe: nat)
    requires md5.Valid() && AllShort(chunks)
    modifies md5.m_ctx, md5.m_ctx.buffer
    ensures md5.Valid() && md5.Fed() == old(md5.Fed()) + Concat(chunks)
  {
    if chunks != [] {
      var init, last := chunks[..|chunks| - 1], chunks[|chunks| - 1];
      LastOf(chunks, init, last, md5.Fed());
      hide *;
      FeedAll(md5, init, probe);
      md5.Update(last);
      Probe(md5, probe);
    }
  }

  ghost predicate AllShort(chunks: seq<Bytes>) {
    forall i | 0 <= i < |chunks| :: |chunks[i]| < TWO32 - 64
  }

  lemma LastOf(chunks: seq<Bytes>, init: seq<Bytes>, last: Bytes, before: Bytes)
    requires AllShort(chunks) && chunks == init + [last]
    ensures AllShort(init) && |last| < TWO32 - 64
    ensures before + Concat(chunks) == (before + Concat(init)) + last
  {
    assert chunks[..|chunks| - 1] == init && chunks[|init|] == last;
    assert forall i | 0 <= i < |init| :: init[i] == chunks[i];
  }

  /** However a message is cut and however often the result is taken on the way, the digest is that of
      the whole. */
  method DigestOfChunks(transform: Transform, chunks: seq<Bytes>, probe: nat) returns (digest: Bytes)
    requires AllShort(chunks)
    ensures digest == Digest(transform, Concat(chunks))
  {
    hide *;
    var md5 := new MD5(transform);
    FeedAll(md5, chunks, probe);
    assert md5.Fed() == Concat(chunks);
    digest := md5.Result();
  }

  /** The digest of a file, read 1024 bytes at a time; `None` when it cannot be opened. */
  method FileMD5CheckSum(transform: Transform, file: Option<Bytes>) returns (digest: Bytes)
    ensures digest == if file.None? then Zeros(16) else Digest(transform, file.value)
  {
    if file.None? { return Zeros(16); }
    var f := file.value;
    var md5 := new MD5Context(transform);
    var pos, eof := 0, false;
    while !eof
      invariant pos <= |f| && (eof ==> pos == |f|)
      invariant md5.Valid() && md5.message == f[..pos] && md5.transform == transform && fresh(md5) && fresh(md5.buffer)
      decreases !eof, |f| - pos
    {
      var gcount := if |f| - pos < 1024 then |f| - pos else 1024;
      eof := gcount < 1024;
      md5.MD5Update(f[pos..pos + gcount]);
      pos := pos + gcount;
    }
    assert f[..pos] == f;
    digest := md5.MD5Final();
  }
}
