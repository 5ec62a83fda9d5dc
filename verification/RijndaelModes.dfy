/** Block chaining, for any block function: ECB, CBC and CFB over byte strings. */
module RijndaelModes {

  type uint8 = bv8
  type Bytes = seq<uint8>

  datatype Mode = ECB | CBC | CFB

  /** A mode, and whether the result is written over the input. */
  datatype Way = Way(mode: Mode, same: bool)

  /** The output so far and the chain for what follows. */
  datatype Run = Run(out: Bytes, chain: Bytes)

  function XorBytes(a: Bytes, b: Bytes): (r: Bytes)
    requires |a| == |b|
    ensures |r| == |a|
  {
    seq(|a|, i requires 0 <= i < |a| => a[i] ^ b[i])
  }

  function Zeros(n: nat): (z: Bytes)
    ensures |z| == n
  {
    seq(n, _ => 0)
  }

  /** A function on blocks of `bs` bytes. */
  ghost predicate OnBlocks(f: Bytes -> Bytes, bs: nat) {
    forall x: Bytes :: |x| == bs ==> |f(x)| == bs
  }

  ghost predicate Undoes(d: Bytes -> Bytes, e: Bytes -> Bytes, bs: nat) {
    forall x: Bytes :: |x| == bs ==> d(e(x)) == x
  }

  /** `n` bytes are a whole number of blocks. */
  predicate Whole(n: nat, bs: nat)
    requires bs > 0
  {
    n == 0 || (n >= bs && Whole(n - bs, bs))
  }

  /** One block.  In place, a step that reads the input again after the output has been written reads the
      output: what CFB adds to it is the output itself. */
  ghost function EncryptOne(m: Way, e: Bytes -> Bytes, chain: Bytes, x: Bytes): (r: Run)
    requires OnBlocks(e, |x|) && |chain| == |x|
    ensures |r.out| == |r.chain| == |x|
  {
    match m.mode
    case ECB => Run(e(x), chain)
    case CBC => var y := e(XorBytes(chain, x)); Run(y, y)
    case CFB => var y := if m.same then Zeros(|x|) else XorBytes(e(chain), x); Run(y, y)
  }

  /** One block; in place, CBC takes over the plaintext for its chain. */
  ghost function DecryptOne(m: Way, e: Bytes -> Bytes, d: Bytes -> Bytes, chain: Bytes, y: Bytes): (r: Run)
    requires OnBlocks(e, |y|) && OnBlocks(d, |y|) && |chain| == |y|
    ensures |r.out| == |r.chain| == |y|
  {
    match m.mode
    case ECB => Run(d(y), chain)
    case CBC => var x := XorBytes(d(y), chain); Run(x, if m.same then x else y)
    case CFB => if m.same then Run(Zeros(|y|), Zeros(|y|)) else Run(XorBytes(e(chain), y), y)
  }

  ghost function EncryptAll(m: Way, e: Bytes -> Bytes, chain: Bytes, xs: Bytes): (r: Run)
    requires OnBlocks(e, |chain|) && |chain| > 0 && Whole(|xs|, |chain|)
    ensures |r.out| == |xs| && |r.chain| == |chain|
    decreases |xs|
  {
    if xs == [] then Run([], chain)
    else
      var n := |xs| - |chain|;
      var r := EncryptAll(m, e, chain, xs[..n]);
      var last := EncryptOne(m, e, r.chain, xs[n..]);
      Run(r.out + last.out, last.chain)
  }

  ghost function DecryptAll(m: Way, e: Bytes -> Bytes, d: Bytes -> Bytes, chain: Bytes, ys: Bytes): (r: Run)
    requires OnBlocks(e, |chain|) && OnBlocks(d, |chain|) && |chain| > 0 && Whole(|ys|, |chain|)
    ensures |r.out| == |ys| && |r.chain| == |chain|
    decreases |ys|
  {
    if ys == [] then Run([], chain)
    else
      var n := |ys| - |chain|;
      var r := DecryptAll(m, e, d, chain, ys[..n]);
      var last := DecryptOne(m, e, d, r.chain, ys[n..]);
      Run(r.out + last.out, last.chain)
  }

  lemma EncryptLast(m: Way, e: Bytes -> Bytes, chain: Bytes, xs: Bytes, x: Bytes)
    requires OnBlocks(e, |chain|) && |x| == |chain| > 0 && Whole(|xs|, |chain|)
    ensures Whole(|xs + x|, |chain|)
    ensures var r := EncryptAll(m, e, chain, xs); var last := EncryptOne(m, e, r.chain, x);
            EncryptAll(m, e, chain, xs + x) == Run(r.out + last.out, last.chain)
  {
    assert (xs + x)[..|xs|] == xs && (xs + x)[|xs|..] == x;
    hide EncryptOne, OnBlocks;
  }

  lemma DecryptLast(m: Way, e: Bytes -> Bytes, d: Bytes -> Bytes, chain: Bytes, ys: Bytes, y: Bytes)
    requires OnBlocks(e, |chain|) && OnBlocks(d, |chain|) && |y| == |chain| > 0 && Whole(|ys|, |chain|)
    ensures Whole(|ys + y|, |chain|)
    ensures var r := DecryptAll(m, e, d, chain, ys); var last := DecryptOne(m, e, d, r.chain, y);
            DecryptAll(m, e, d, chain, ys + y) == Run(r.out + last.out, last.chain)
  {
    assert (ys + y)[..|ys|] == ys && (ys + y)[|ys|..] == y;
    hide DecryptOne, OnBlocks;
  }

  /** A non-empty whole message is a shorter one and a last block. */
  lemma SplitLast(xs: Bytes, bs: nat) returns (init: Bytes, x: Bytes)
    requires bs > 0 && Whole(|xs|, bs) && xs != []
    ensures xs == init + x && |x| == bs && Whole(|init|, bs)
  {
    init, x := xs[..|xs| - bs], xs[|xs| - bs..];
  }

  lemma XorBack(a: Bytes, b: Bytes)
    requires |a| == |b|
    ensures XorBytes(XorBytes(b, a), b) == a && XorBytes(b, XorBytes(b, a)) == a
  {
    forall i | 0 <= i < |a|
      ensures (b[i] ^ a[i]) ^ b[i] == a[i] && b[i] ^ (b[i] ^ a[i]) == a[i]
    {
      XorBackOne(a[i], b[i]);
    }
  }

  lemma XorBackOne(a: uint8, b: uint8)
    ensures (b ^ a) ^ b == a && b ^ (b ^ a) == a
  {
  }

  /** One block decrypts; CFB needs no inverse of the block function. */
  lemma OneBlockBack(m: Mode, e: Bytes -> Bytes, d: Bytes -> Bytes, chain: Bytes, x: Bytes)
    requires OnBlocks(e, |x|) && OnBlocks(d, |x|) && |chain| == |x|
    requires m.CFB? || Undoes(d, e, |x|)
    ensures var c := EncryptOne(Way(m, false), e, chain, x);
            DecryptOne(Way(m, false), e, d, chain, c.out) == Run(x, c.chain)
  {
    match m
    case ECB =>
    case CBC => XorBack(x, chain);
    case CFB => XorBack(x, e(chain));
  }

  /** From equal chains, decryption undoes encryption and leaves equal chains. */
  lemma {:induction false} ModesRoundTrip(m: Mode, e: Bytes -> Bytes, d: Bytes -> Bytes, chain: Bytes, xs: Bytes)
    requires OnBlocks(e, |chain|) && OnBlocks(d, |chain|) && |chain| > 0 && Whole(|xs|, |chain|)
    requires m.CFB? || Undoes(d, e, |chain|)
    ensures var c := EncryptAll(Way(m, false), e, chain, xs);
            DecryptAll(Way(m, false), e, d, chain, c.out) == Run(xs, c.chain)
    decreases |xs|
  {
    hide EncryptOne, DecryptOne, OnBlocks, Undoes, EncryptAll, DecryptAll, Whole;
    if xs == [] {
      NothingEncrypted(Way(m, false), e, chain);
      NothingDecrypted(Way(m, false), e, d, chain);
    } else {
      var init, x := SplitLast(xs, |chain|);
      var r := EncryptAll(Way(m, false), e, chain, init);
      ModesRoundTrip(m, e, d, chain, init);
      OneBlockBack(m, e, d, r.chain, x);
      EncryptLast(Way(m, false), e, chain, init, x);
      DecryptLast(Way(m, false), e, d, chain, r.out, EncryptOne(Way(m, false), e, r.chain, x).out);
    }
  }

  lemma NothingEncrypted(m: Way, e: Bytes -> Bytes, chain: Bytes)
    requires OnBlocks(e, |chain|) && |chain| > 0
    ensures Whole(0, |chain|) && EncryptAll(m, e, chain, []) == Run([], chain)
  {
  }

  lemma NothingDecrypted(m: Way, e: Bytes -> Bytes, d: Bytes -> Bytes, chain: Bytes)
    requires OnBlocks(e, |chain|) && OnBlocks(d, |chain|) && |chain| > 0
    ensures Whole(0, |chain|) && DecryptAll(m, e, d, chain, []) == Run([], chain)
  {
  }

  lemma {:induction false} WholeSum(a: nat, b: nat, bs: nat)
    requires bs > 0 && Whole(a, bs) && Whole(b, bs)
    ensures Whole(a + b, bs)
  {
    if b > 0 {
      WholeSum(a, b - bs, bs);
    }
  }

  /** Encrypting in two calls is encrypting at once. */
  lemma {:induction false} EncryptInParts(m: Way, e: Bytes -> Bytes, chain: Bytes, a: Bytes, b: Bytes)
    requires OnBlocks(e, |chain|) && |chain| > 0 && Whole(|a|, |chain|) && Whole(|b|, |chain|)
    ensures Whole(|a + b|, |chain|)
    ensures var r := EncryptAll(m, e, chain, a); var s := EncryptAll(m, e, r.chain, b);
            EncryptAll(m, e, chain, a + b) == Run(r.out + s.out, s.chain)
    decreases |b|
  {
    hide OnBlocks, EncryptOne, EncryptAll, Whole;
    WholeSum(|a|, |b|, |chain|);
    if b == [] {
      assert a + b == a;
      NothingEncrypted(m, e, EncryptAll(m, e, chain, a).chain);
      assert EncryptAll(m, e, chain, a).out + [] == EncryptAll(m, e, chain, a).out;
    } else {
      var init, x := SplitLast(b, |chain|);
      EncryptInParts(m, e, chain, a, init);
      assert a + b == (a + init) + x;
      var r := EncryptAll(m, e, chain, a);
      var s := EncryptAll(m, e, r.chain, init);
      EncryptLast(m, e, r.chain, init, x);
      EncryptLast(m, e, chain, a + init, x);
      var last := EncryptOne(m, e, s.chain, x);
      assert (r.out + s.out) + last.out == r.out + (s.out + last.out);
    }
  }

  /** Decrypting in two calls is decrypting at once. */
  lemma {:induction false} DecryptInParts(m: Way, e: Bytes -> Bytes, d: Bytes -> Bytes, chain: Bytes, a: Bytes,
                                          b: Bytes)
    requires OnBlocks(e, |chain|) && OnBlocks(d, |chain|) && |chain| > 0 && Whole(|a|, |chain|) && Whole(|b|, |chain|)
    ensures Whole(|a + b|, |chain|)
    ensures var r := DecryptAll(m, e, d, chain, a); var s := DecryptAll(m, e, d, r.chain, b);
            DecryptAll(m, e, d, chain, a + b) == Run(r.out + s.out, s.chain)
    decreases |b|
  {
    hide OnBlocks, DecryptOne, DecryptAll, Whole;
    WholeSum(|a|, |b|, |chain|);
    if b == [] {
      assert a + b == a;
      NothingDecrypted(m, e, d, DecryptAll(m, e, d, chain, a).chain);
      assert DecryptAll(m, e, d, chain, a).out + [] == DecryptAll(m, e, d, chain, a).out;
    } else {
      var init, x := SplitLast(b, |chain|);
      DecryptInParts(m, e, d, chain, a, init);
      assert a + b == (a + init) + x;
      var r := DecryptAll(m, e, d, chain, a);
      var s := DecryptAll(m, e, d, r.chain, init);
      DecryptLast(m, e, d, r.chain, init, x);
      DecryptLast(m, e, d, chain, a + init, x);
      var last := DecryptOne(m, e, d, s.chain, x);
      assert (r.out + s.out) + last.out == r.out + (s.out + last.out);
    }
  }

  /** Two blocks in each mode (sections 6.1 to 6.3 of NIST SP 800-38A). */
  lemma TwoBlocks(e: Bytes -> Bytes, iv: Bytes, x: Bytes, x': Bytes)
    requires OnBlocks(e, |iv|) && |iv| == |x| == |x'| > 0
    ensures Whole(|x + x'|, |iv|)
    ensures EncryptAll(Way(ECB, false), e, iv, x + x').out == e(x) + e(x')
    ensures var y := e(XorBytes(x, iv));
            EncryptAll(Way(CBC, false), e, iv, x + x').out == y + e(XorBytes(x', y))
    ensures var y := XorBytes(x, e(iv));
            EncryptAll(Way(CFB, false), e, iv, x + x').out == y + XorBytes(x', e(y))
  {
    assert Whole(|x + x'| - |x|, |iv|);
    TwoBlocksIn(ECB, e, iv, x, x');
    TwoBlocksIn(CBC, e, iv, x, x');
    TwoBlocksIn(CFB, e, iv, x, x');
    hide EncryptAll, Whole;
    XorCommutes(x, iv);
    XorCommutes(x, e(iv));
    XorCommutes(x', e(XorBytes(x, iv)));
    XorCommutes(x', e(XorBytes(x, e(iv))));
    hide XorBytes;
  }

  lemma XorCommutes(a: Bytes, b: Bytes)
    requires |a| == |b|
    ensures XorBytes(a, b) == XorBytes(b, a)
  {
  }

  lemma TwoBlocksIn(m: Mode, e: Bytes -> Bytes, iv: Bytes, x: Bytes, x': Bytes)
    requires OnBlocks(e, |iv|) && |iv| == |x| == |x'| > 0 && Whole(|x + x'|, |iv|)
    ensures var one := EncryptOne(Way(m, false), e, iv, x);
            EncryptAll(Way(m, false), e, iv, x + x').out == one.out + EncryptOne(Way(m, false), e, one.chain, x').out
  {
    hide *;
    OneBlock(Way(m, false), e, iv, x);
    EncryptLast(Way(m, false), e, iv, x, x');
  }

  lemma OneBlock(w: Way, e: Bytes -> Bytes, iv: Bytes, x: Bytes)
    requires OnBlocks(e, |iv|) && |iv| == |x| > 0
    ensures Whole(|x|, |iv|) && EncryptAll(w, e, iv, x) == EncryptOne(w, e, iv, x)
  {
    assert Whole(0, |iv|) && x[..0] == [] && x[0..] == x;
    NothingEncrypted(w, e, iv);
    hide EncryptOne, OnBlocks;
  }

  // ---------------------------------------------------------------- in place

  /** Encryption in place is encryption, but for CFB. */
  lemma {:induction false} EncryptInPlace(m: Mode, e: Bytes -> Bytes, chain: Bytes, xs: Bytes)
    requires OnBlocks(e, |chain|) && |chain| > 0 && Whole(|xs|, |chain|) && !m.CFB?
    ensures EncryptAll(Way(m, true), e, chain, xs) == EncryptAll(Way(m, false), e, chain, xs)
    decreases |xs|
  {
    if xs != [] {
      EncryptInPlace(m, e, chain, xs[..|xs| - |chain|]);
      hide OnBlocks, Whole, XorBytes;
    }
  }

  /** In CFB every block becomes zero, so that the result is the right one if and only if that is zero. */
  lemma {:induction false} EncryptCFBInPlace(e: Bytes -> Bytes, chain: Bytes, xs: Bytes)
    requires OnBlocks(e, |chain|) && |chain| > 0 && Whole(|xs|, |chain|)
    ensures EncryptAll(Way(CFB, true), e, chain, xs).out == Zeros(|xs|)
    decreases |xs|
  {
    if xs != [] {
      var n := |xs| - |chain|;
      EncryptCFBInPlace(e, chain, xs[..n]);
      ZerosSum(n, |chain|);
      hide OnBlocks, Whole, XorBytes, Zeros;
    }
  }

  lemma ZerosSum(a: nat, b: nat)
    ensures Zeros(a) + Zeros(b) == Zeros(a + b)
  {
  }

  /** Decryption in place is decryption in ECB. */
  lemma {:induction false} DecryptECBInPlace(e: Bytes -> Bytes, d: Bytes -> Bytes, chain: Bytes, ys: Bytes)
    requires OnBlocks(e, |chain|) && OnBlocks(d, |chain|) && |chain| > 0 && Whole(|ys|, |chain|)
    ensures DecryptAll(Way(ECB, true), e, d, chain, ys) == DecryptAll(Way(ECB, false), e, d, chain, ys)
    decreases |ys|
  {
    if ys != [] {
      DecryptECBInPlace(e, d, chain, ys[..|ys| - |chain|]);
      hide OnBlocks, Whole, XorBytes;
    }
  }

  /** In CFB every block becomes zero, so that a message comes back if and only if it is zero. */
  lemma {:induction false} DecryptCFBInPlace(e: Bytes -> Bytes, d: Bytes -> Bytes, chain: Bytes, ys: Bytes)
    requires OnBlocks(e, |chain|) && OnBlocks(d, |chain|) && |chain| > 0 && Whole(|ys|, |chain|)
    ensures DecryptAll(Way(CFB, true), e, d, chain, ys).out == Zeros(|ys|)
    decreases |ys|
  {
    if ys != [] {
      var n := |ys| - |chain|;
      DecryptCFBInPlace(e, d, chain, ys[..n]);
      ZerosSum(n, |chain|);
      hide OnBlocks, Whole, XorBytes, Zeros;
    }
  }

  /** The chain after CBC is the last block of the output; in place, for decryption too. */
  lemma CBCChain(e: Bytes -> Bytes, d: Bytes -> Bytes, chain: Bytes, xs: Bytes)
    requires OnBlocks(e, |chain|) && OnBlocks(d, |chain|) && |chain| > 0 && Whole(|xs|, |chain|) && xs != []
    ensures var r := EncryptAll(Way(CBC, false), e, chain, xs); r.chain == r.out[|xs| - |chain|..]
    ensures var r := DecryptAll(Way(CBC, true), e, d, chain, xs); r.chain == r.out[|xs| - |chain|..]
  {
    hide OnBlocks, XorBytes;
  }

  lemma XorSame(a: Bytes, b: Bytes, x: Bytes)
    requires |a| == |b| == |x|
    ensures XorBytes(XorBytes(a, x), b) == x <==> a == b
  {
    hide XorBytes;
    if XorBytes(XorBytes(a, x), b) == x {
      forall i | 0 <= i < |a|
        ensures a[i] == b[i]
      {
        XorAt(a, x, b, i);
        XorSameOne(a[i], b[i], x[i]);
      }
    }
    XorBack(x, a);
  }

  lemma XorAt(a: Bytes, x: Bytes, b: Bytes, i: nat)
    requires |a| == |b| == |x| && i < |a|
    ensures XorBytes(XorBytes(a, x), b)[i] == (a[i] ^ x[i]) ^ b[i]
  {
  }

  lemma XorSameOne(a: uint8, b: uint8, x: uint8)
    ensures (a ^ x) ^ b == x ==> a == b
  {
  }

  /** In CBC a message decrypted in place comes back if and only if every block of it but the last is its own
      ciphertext, as where there is but one block. */
  lemma {:induction false} DecryptCBCInPlace(e: Bytes -> Bytes, d: Bytes -> Bytes, chain: Bytes, xs: Bytes)
    requires OnBlocks(e, |chain|) && OnBlocks(d, |chain|) && |chain| > 0 && Whole(|xs|, |chain|)
    requires Undoes(d, e, |chain|)
    ensures var c := EncryptAll(Way(CBC, false), e, chain, xs).out;
            DecryptAll(Way(CBC, true), e, d, chain, c).out == xs <==> OwnCipher(xs, c, |chain|)
    decreases |xs|
  {
    hide OnBlocks, Undoes, EncryptOne, DecryptOne, EncryptAll, DecryptAll, Whole, XorBytes;
    if xs == [] {
      NothingEncrypted(Way(CBC, false), e, chain);
      NothingDecrypted(Way(CBC, true), e, d, chain);
    } else {
      var init, x := SplitLast(xs, |chain|);
      var r := EncryptAll(Way(CBC, false), e, chain, init);
      var y := EncryptOne(Way(CBC, false), e, r.chain, x).out;
      var q := DecryptAll(Way(CBC, true), e, d, chain, r.out);
      DecryptCBCInPlace(e, d, chain, init);
      EncryptLast(Way(CBC, false), e, chain, init, x);
      DecryptLast(Way(CBC, true), e, d, chain, r.out, y);
      var p := DecryptOne(Way(CBC, true), e, d, q.chain, y).out;
      BlockInPlace(e, d, r.chain, q.chain, x);
      SumsEqual(q.out, p, init, x);
      OwnCipherNext(init, x, r.out, y);
      if init != [] {
        CBCChain(e, d, chain, init);
        CBCChain(e, d, chain, r.out);
        LastBlocks(init, r.out, q.out, |chain|);
      } else {
        NothingEncrypted(Way(CBC, false), e, chain);
        NothingDecrypted(Way(CBC, true), e, d, chain);
      }
    }
  }

  /** What a message and its ciphertext must be like to come back in place. */
  predicate Survives(m: Mode, xs: Bytes, c: Bytes, bs: nat) {
    match m
    case ECB => true
    case CBC => OwnCipher(xs, c, bs)
    case CFB => xs == Zeros(|xs|)
  }

  /** When a message comes back that is decrypted in place: always in ECB, and as said in the other modes. */
  lemma BackInPlace(m: Mode, e: Bytes -> Bytes, d: Bytes -> Bytes, chain: Bytes, xs: Bytes)
    requires OnBlocks(e, |chain|) && OnBlocks(d, |chain|) && |chain| > 0 && Whole(|xs|, |chain|)
    requires m.CFB? || Undoes(d, e, |chain|)
    ensures var c := EncryptAll(Way(m, false), e, chain, xs).out;
            DecryptAll(Way(m, true), e, d, chain, c).out == xs <==> Survives(m, xs, c, |chain|)
  {
    var c := EncryptAll(Way(m, false), e, chain, xs).out;
    hide OnBlocks, Undoes, EncryptAll, DecryptAll, Whole, OwnCipher, Zeros;
    match m
    case ECB =>
      DecryptECBInPlace(e, d, chain, c);
      ModesRoundTrip(m, e, d, chain, xs);
    case CBC =>
      DecryptCBCInPlace(e, d, chain, xs);
    case CFB =>
      DecryptCFBInPlace(e, d, chain, c);
  }

  /** All blocks of `xs` but the last are those of `c`. */
  predicate OwnCipher(xs: Bytes, c: Bytes, bs: nat) {
    |c| == |xs| && (|xs| >= bs ==> xs[..|xs| - bs] == c[..|xs| - bs])
  }

  lemma OwnCipherNext(init: Bytes, x: Bytes, c: Bytes, y: Bytes)
    requires |init| == |c| && |x| == |y|
    ensures OwnCipher(init + x, c + y, |x|) <==> init == c
  {
    assert (init + x)[..|init|] == init && (c + y)[..|c|] == c;
  }

  lemma SumsEqual(a: Bytes, b: Bytes, c: Bytes, d: Bytes)
    requires |a| == |c| && |b| == |d|
    ensures a + b == c + d <==> a == c && b == d
  {
    if a + b == c + d {
      assert a == (a + b)[..|a|] == c && b == (a + b)[|a|..] == d;
    }
  }

  /** One block decrypted with chain `q` in the place of `r` is right if and only if they are the same. */
  lemma BlockInPlace(e: Bytes -> Bytes, d: Bytes -> Bytes, r: Bytes, q: Bytes, x: Bytes)
    requires OnBlocks(e, |x|) && OnBlocks(d, |x|) && |r| == |q| == |x| && Undoes(d, e, |x|)
    ensures var y := EncryptOne(Way(CBC, false), e, r, x).out;
            DecryptOne(Way(CBC, true), e, d, q, y).out == x <==> q == r
  {
    XorSame(r, q, x);
    hide XorBytes;
  }

  /** With all blocks but the last the same, the whole is if the last block is. */
  lemma LastBlocks(a: Bytes, c: Bytes, q: Bytes, bs: nat)
    requires |a| == |c| == |q| && 0 < bs <= |a|
    ensures OwnCipher(a, c, bs) && a[|a| - bs..] == c[|a| - bs..] ==> a == c
    ensures a == c ==> OwnCipher(a, c, bs)
    ensures q == a ==> q[|a| - bs..] == a[|a| - bs..]
  {
    var n := |a| - bs;
    assert a == a[..n] + a[n..] && c == c[..n] + c[n..];
  }
}
