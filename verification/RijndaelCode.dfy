/** The cipher object: round keys, chain block and work arrays, updated in place. */
module RijndaelCode {
  import opened RijndaelField
  import opened RijndaelCipher
  import opened RijndaelKeys
  import opened RijndaelModes
  import B = Basics

  /** The exceptions of the source. */
  datatype Error = NoError | EmptyKey | IncorrectKeyLength | IncorrectBlockLength | NotInitialized
    | NotMultipleOfBlockSize

  function Rounds(keylength: nat, blockSize: nat): nat {
    match keylength
    case 16 => if blockSize == 16 then 10 else if blockSize == 24 then 12 else 14
    case 24 => if blockSize != 32 then 12 else 14
    case _ => 14
  }

  predicate Length(n: nat) { n == 16 || n == 24 || n == 32 }

  /** Four bytes make a word, the first one on top. */
  function Pack(x: Bytes): (r: State)
    requires |x| % 4 == 0
    ensures |r| == |x| / 4
  {
    seq(|x| / 4, i requires 0 <= i < |x| / 4 => Word(x[4 * i], x[4 * i + 1], x[4 * i + 2], x[4 * i + 3]))
  }

  function ByteOf(w: Word, k: nat): uint8 {
    if k == 0 then w.b0 else if k == 1 then w.b1 else if k == 2 then w.b2 else w.b3
  }

  function Unpack(t: State): (r: Bytes)
    ensures |r| == 4 * |t|
  {
    seq(4 * |t|, k requires 0 <= k < 4 * |t| => ByteOf(t[k / 4], k % 4))
  }

  lemma UnpackPack(x: Bytes)
    requires |x| % 4 == 0
    ensures Unpack(Pack(x)) == x
  {
  }

  lemma PackUnpack(t: State)
    ensures Pack(Unpack(t)) == t
  {
  }

  ghost function FirstCells(k: array2<Word>, r: nat, n: nat): (row: State)
    requires r < k.Length0 && n <= k.Length1
    reads k
    ensures |row| == n && forall j | 0 <= j < n :: row[j] == k[r, j]
  {
    if n == 0 then [] else FirstCells(k, r, n - 1) + [k[r, n - 1]]
  }

  ghost function FirstRows(k: array2<Word>, rows: nat, n: nat): (ks: seq<State>)
    requires rows <= k.Length0 && n <= k.Length1
    reads k
    ensures |ks| == rows && forall r | 0 <= r < rows :: ks[r] == FirstCells(k, r, n)
  {
    if rows == 0 then [] else FirstRows(k, rows - 1, n) + [FirstCells(k, rows - 1, n)]
  }

  class CRijndael {
    const box: Boxes
    var m_bKeyInit: bool
    const m_Ke: array2<Word>
    const m_Kd: array2<Word>
    var m_keylength: nat
    var m_blockSize: nat
    var m_iROUNDS: nat
    const m_chain0: array<uint8>
    const m_chain: array<uint8>
    const tk: array<Word>
    const a: array<Word>
    const t: array<Word>

    ghost predicate Shapes() {
      && m_Ke.Length0 == m_Kd.Length0 == 15 && m_Ke.Length1 == m_Kd.Length1 == 8 && m_Ke != m_Kd
      && m_chain0.Length == m_chain.Length == 32 && m_chain0 != m_chain
      && tk.Length == a.Length == t.Length == 8 && tk != a && tk != t && a != t
    }

    /** The sizes are those `MakeKey` accepts. */
    ghost predicate Sized()
      reads this
    {
      Length(m_keylength) && Length(m_blockSize) && m_iROUNDS == Rounds(m_keylength, m_blockSize)
    }

    ghost function BC(): (n: nat)
      reads this
      ensures Sized() ==> BlockWords(n) && m_blockSize == 4 * n && 0 < m_iROUNDS < 15
    {
      m_blockSize / 4
    }

    constructor (box: Boxes)
      ensures Shapes() && this.box == box && !m_bKeyInit
      ensures fresh(m_Ke) && fresh(m_Kd) && fresh(m_chain0) && fresh(m_chain) && fresh(tk) && fresh(a) && fresh(t)
    {
      this.box := box;
      m_bKeyInit := false;
      m_Ke, m_Kd := new Word[15, 8], new Word[15, 8];
      m_keylength, m_blockSize, m_iROUNDS := 0, 0, 0;
      m_chain0, m_chain := new uint8[32], new uint8[32];
      tk, a, t := new Word[8], new Word[8], new Word[8];
    }

    // ---------------------------------------------------------------- keys

    /** Words 0 to `n - 1` of the expanded key stand in the encryption keys, row by row, and in the
        decryption keys with the rows in reverse. */
    ghost predicate Stored(key: seq<Word>, n: nat)
      requires Shapes() && Sized() && KeyWords(|key|)
      reads this, m_Ke, m_Kd
    {
      forall r: nat, j: nat | r <= m_iROUNDS && j < BC() && At(r, j, BC()) < n ::
        m_Ke[r, j] == m_Kd[m_iROUNDS - r, j] == Expanded(box.S, key, At(r, j, BC()))
    }

    method StoreWord(i: nat, w: Word, ghost key: seq<Word>)
      requires Shapes() && Sized() && KeyWords(|key|)
      requires i < At(m_iROUNDS + 1, 0, BC()) && Stored(key, i) && w == Expanded(box.S, key, i)
      modifies m_Ke, m_Kd
      ensures Stored(key, i + 1)
    {
      hide Expanded, At, KeyWords;
      var bc := m_blockSize / 4;
      AtOf(i, bc);
      RowInRange(i / bc, i % bc, m_iROUNDS, bc);
      StoreCell(i / bc, i % bc, w, key, i);
    }

    method StoreCell(row: nat, col: nat, w: Word, ghost key: seq<Word>, ghost i: nat)
      requires Shapes() && Sized() && KeyWords(|key|)
      requires row <= m_iROUNDS && col < BC() && At(row, col, BC()) == i
      requires Stored(key, i) && w == Expanded(box.S, key, i)
      modifies m_Ke, m_Kd
      ensures Stored(key, i + 1)
    {
      hide Expanded, At, KeyWords;
      ghost var bc := BC();
      assert bc == 4 || bc == 6 || bc == 8;
      m_Ke[row, col] := w;
      m_Kd[m_iROUNDS - row, col] := w;
      forall r: nat, j: nat | r <= m_iROUNDS && j < bc && At(r, j, bc) < i + 1
        ensures At(r, j, bc) < i || (r == row && j == col)
      {
        AtInverse(r, j, bc);
        AtInverse(row, col, bc);
      }
      hide Sized, BC;
    }

    /** `tk` holds group `r + 1` of the expanded key below `upto`, and group `r` from there on. */
    ghost predicate Evolving(key: seq<Word>, r: nat, upto: nat)
      requires Shapes() && KeyWords(|key|)
      reads tk
    {
      && (forall j: nat | j < upto && j < |key| :: tk[j] == Expanded(box.S, key, At(r + 1, j, |key|)))
      && (forall j: nat | upto <= j < |key| :: tk[j] == Expanded(box.S, key, At(r, j, |key|)))
    }

    method EvolveWord(i: nat, w: Word, ghost key: seq<Word>, ghost r: nat)
      requires Shapes() && KeyWords(|key|) && i < |key| && Evolving(key, r, i)
      requires w == Expanded(box.S, key, At(r + 1, i, |key|))
      modifies tk
      ensures Evolving(key, r, i + 1)
    {
      hide Expanded, At;
      tk[i] := w;
    }

    /** One of the source's `tk[i++] ^= tk[j++]` loops. */
    method ChainWords(first: nat, end: nat, ghost key: seq<Word>, ghost r: nat)
      requires Shapes() && KeyWords(|key|) && 0 < first <= end <= |key| && Evolving(key, r, first)
      requires |key| == 8 ==> end <= 4 || first >= 5
      modifies tk
      ensures Evolving(key, r, end)
    {
      hide Expanded, At, Xor;
      for i := first to end
        invariant Evolving(key, r, i)
      {
        EvolvedWord(box.S, key, r, i);
        EvolveWord(i, Xor(tk[i], tk[i - 1]), key, r);
      }
    }

    /** The round key evolution. */
    method EvolveKey(kc: nat, rconpointer: nat, ghost key: seq<Word>)
      requires Shapes() && KeyWords(|key|) && kc == |key| && Evolving(key, rconpointer, 0)
      requires rconpointer < 30
      modifies tk
      ensures Evolving(key, rconpointer + 1, 0)
    {
      ghost var r := rconpointer;
      hide Expanded, At, Xor, SubWord, RotWord, Rcon;
      EvolvedWord(box.S, key, r, 0);
      EvolveWord(0, Xor(tk[0], Xor(SubWord(box.S, RotWord(tk[kc - 1])), Word(Rcon(rconpointer), 0, 0, 0))), key, r);
      if kc != 8 {
        ChainWords(1, kc, key, r);
      } else {
        ChainWords(1, kc / 2, key, r);
        EvolveMiddle(key, r);
        ChainWords(kc / 2 + 1, kc, key, r);
      }
      EvolvedAll(key, r);
    }

    method EvolveMiddle(ghost key: seq<Word>, ghost r: nat)
      requires Shapes() && |key| == 8 && Evolving(key, r, 4)
      modifies tk
      ensures Evolving(key, r, 5)
    {
      hide Expanded, At, Xor, SubWord;
      EvolvedWord(box.S, key, r, 4);
      EvolveWord(4, Xor(tk[4], SubWord(box.S, tk[3])), key, r);
    }

    lemma EvolvedAll(key: seq<Word>, r: nat)
      requires Shapes() && KeyWords(|key|) && Evolving(key, r, |key|)
      ensures Evolving(key, r + 1, 0)
    {
    }

    /** Copies the words of `tk` into the round keys, as far as they are needed. */
    method CopyWords(kc: nat, t0: nat, count: nat, ghost key: seq<Word>, ghost r: nat) returns (t: nat)
      requires Shapes() && Sized() && KeyWords(|key|) && kc == |key| && Evolving(key, r, 0)
      requires t0 == At(r, 0, kc) <= count == At(m_iROUNDS + 1, 0, BC()) && Stored(key, t0)
      modifies m_Ke, m_Kd
      ensures t <= count && (t < count ==> t == At(r + 1, 0, kc))
      ensures t0 < count ==> t > t0
      ensures Stored(key, t)
    {
      hide Expanded, At, Stored, Sized, BC;
      t := t0;
      var j := 0;
      while j < kc && t < count
        invariant j <= kc && t <= count && t == At(r, j, kc) && Stored(key, t)
        invariant j > 0 ==> t > t0
      {
        StoreWord(t, tk[j], key);
        AtSteps(r, j, kc);
        j, t := j + 1, t + 1;
      }
      AtSteps(r, j, kc);
    }

    /** The round keys in use, row by row. */
    ghost function Rows(k: array2<Word>): (ks: seq<State>)
      requires Shapes() && Sized() && (k == m_Ke || k == m_Kd)
      reads this, k
      ensures Keys(ks, m_iROUNDS, BC())
    {
      FirstRows(k, m_iROUNDS + 1, BC())
    }

    /** What a successful `MakeKey` establishes and everything else keeps. */
    ghost predicate Ready()
      requires Shapes()
      reads this, m_Ke, m_Kd
    {
      m_bKeyInit && Sized() && InverseKeys(Rows(m_Ke), Rows(m_Kd), m_iROUNDS, BC())
    }

    ghost predicate IsExpansion(key: seq<Word>)
      requires Shapes() && Sized() && KeyWords(|key|)
      reads this, m_Ke
    {
      forall r: nat, j: nat | r <= m_iROUNDS && j < BC() :: m_Ke[r, j] == Expanded(box.S, key, At(r, j, BC()))
    }

    method LoadKey(key: Bytes, kc: nat)
      requires Shapes() && KeyWords(kc) && |key| == 4 * kc
      modifies tk
      ensures Evolving(Pack(key), 0, 0)
    {
      for i := 0 to kc
        invariant forall j | 0 <= j < i :: tk[j] == Pack(key)[j]
      {
        tk[i] := Word(key[4 * i], key[4 * i + 1], key[4 * i + 2], key[4 * i + 3]);
      }
      forall j: nat | j < kc
        ensures At(0, j, kc) == j
      {
        AtSteps(0, j, kc);
      }
    }

    method ExpandKey(key: Bytes)
      requires Shapes() && Sized() && |key| == m_keylength
      modifies tk, m_Ke, m_Kd
      ensures KeyWords(|Pack(key)|) && Stored(Pack(key), At(m_iROUNDS + 1, 0, BC()))
    {
      ghost var words := Pack(key);
      var kc := m_keylength / 4;
      assert KeyWords(kc);
      LoadKey(key, kc);
      EvolveAndCopy(kc, (m_iROUNDS + 1) * (m_blockSize / 4), words);
      hide Expanded, Sized, BC, Pack, Evolving, Stored, Rounds, KeyWords;
    }

    method EvolveAndCopy(kc: nat, count: nat, ghost key: seq<Word>)
      requires Shapes() && Sized() && KeyWords(kc) && |key| == kc
      requires count == At(m_iROUNDS + 1, 0, BC()) && Evolving(key, 0, 0)
      modifies tk, m_Ke, m_Kd
      ensures Stored(key, count)
    {
      CountBound(m_iROUNDS + 1, m_blockSize / 4, kc);
      StoredNothing(key);
      hide *;
      var t := CopyWords(kc, 0, count, key, 0);
      var rconpointer := 0;
      while t < count
        invariant t <= count && Stored(key, t) && Evolving(key, rconpointer, 0)
        invariant t < count ==> t == At(rconpointer + 1, 0, kc)
        decreases count - t
      {
        GroupBound(rconpointer + 1, kc, count);
        EvolveKey(kc, rconpointer, key);
        rconpointer := rconpointer + 1;
        t := CopyWords(kc, t, count, key, rconpointer);
      }
    }

    lemma StoredNothing(key: seq<Word>)
      requires Shapes() && Sized() && KeyWords(|key|)
      ensures Stored(key, 0)
    {
    }

    /** The decryption rows, reversed, and inverse-mixed between the first and the last row as far as
        column `col` of row `row`. */
    ghost predicate Reversed(row: nat, col: nat)
      requires Shapes() && Sized()
      reads this, m_Ke, m_Kd
    {
      forall r: nat, j: nat | r <= m_iROUNDS && j < BC() ::
        m_Kd[r, j] == if 0 < r < m_iROUNDS && (r < row || (r == row && j < col))
                      then InvMix(m_Ke[m_iROUNDS - r, j]) else m_Ke[m_iROUNDS - r, j]
    }

    /** Inverse MixColumn over the inner decryption rows; `InvMix` is the sum of the tables U1 to U4. */
    method MixDecryptionRows()
      requires Shapes() && Sized() && Reversed(1, 0)
      modifies m_Kd
      ensures Reversed(m_iROUNDS, 0)
    {
      assert 1 <= m_iROUNDS;
      hide InvMix, Sized;
      for r := 1 to m_iROUNDS
        invariant Reversed(r, 0)
      {
        for j := 0 to m_blockSize / 4
          invariant Reversed(r, j)
        {
          MixCell(r, j);
        }
      }
    }

    method MixCell(r: nat, j: nat)
      requires Shapes() && Sized() && 0 < r < m_iROUNDS && j < BC() && Reversed(r, j)
      modifies m_Kd
      ensures Reversed(r, j + 1)
    {
      hide InvMix;
      var tt := m_Kd[r, j];
      m_Kd[r, j] := InvMix(tt);
    }

    lemma KeysReady()
      requires Shapes() && Sized() && Reversed(m_iROUNDS, 0)
      ensures InverseKeys(Rows(m_Ke), Rows(m_Kd), m_iROUNDS, BC())
    {
      hide InvMix;
      var ke, kd := Rows(m_Ke), Rows(m_Kd);
      forall r | 0 < r < m_iROUNDS
        ensures kd[r] == InvMixRow(ke[m_iROUNDS - r])
      {
      }
    }

    lemma StoredAll(key: seq<Word>)
      requires Shapes() && Sized() && KeyWords(|key|) && Stored(key, At(m_iROUNDS + 1, 0, BC()))
      ensures IsExpansion(key) && Reversed(1, 0)
    {
      hide Expanded, At, InvMix;
      forall r: nat, j: nat | r <= m_iROUNDS && j < BC()
        ensures m_Ke[r, j] == m_Kd[m_iROUNDS - r, j] == Expanded(box.S, key, At(r, j, BC()))
      {
        BeforeEnd(r, j, m_iROUNDS, BC());
      }
      forall r: nat, j: nat | r <= m_iROUNDS && j < BC()
        ensures m_Kd[r, j] == m_Ke[m_iROUNDS - r, j]
      {
        assert m_Ke[m_iROUNDS - r, j] == m_Kd[m_iROUNDS - (m_iROUNDS - r), j];
      }
    }

    method ClearKeys()
      requires Shapes() && Sized()
      modifies m_Ke, m_Kd
    {
      for i := 0 to m_iROUNDS + 1 {
        for j := 0 to m_blockSize / 4 {
          m_Ke[i, j] := Word(0, 0, 0, 0);
          m_Kd[i, j] := Word(0, 0, 0, 0);
        }
      }
    }

    /** Expands the key.  On an error nothing changes. */
    method MakeKey(key: B.Option<Bytes>, chain: Bytes, keylength: nat, blockSize: nat) returns (e: Error)
      requires Shapes() && (Length(blockSize) ==> |chain| == blockSize)
      requires key.Some? && Length(keylength) ==> |key.value| == keylength
      modifies this, m_Ke, m_Kd, m_chain0, m_chain, tk
      ensures e == if key.None? then EmptyKey else if !Length(keylength) then IncorrectKeyLength
                   else if !Length(blockSize) then IncorrectBlockLength else NoError
      ensures e != NoError ==> unchanged(this, m_Ke, m_Kd, m_chain0, m_chain, tk)
      ensures e == NoError ==> m_bKeyInit && Ready() && m_keylength == keylength && m_blockSize == blockSize
      ensures e == NoError ==> m_chain[..blockSize] == m_chain0[..blockSize] == chain
      ensures e == NoError ==> KeyWords(|Pack(key.value)|) && IsExpansion(Pack(key.value))
    {
      if key.None? { return EmptyKey; }
      if !Length(keylength) { return IncorrectKeyLength; }
      if !Length(blockSize) { return IncorrectBlockLength; }
      m_keylength := keylength;
      m_blockSize := blockSize;
      m_iROUNDS := Rounds(keylength, blockSize);
      LoadChain(chain);
      MakeRoundKeys(key.value);
      m_bKeyInit := true;
      return NoError;
    }

    method LoadChain(chain: Bytes)
      requires Shapes() && |chain| <= 32
      modifies m_chain0, m_chain
      ensures m_chain[..|chain|] == m_chain0[..|chain|] == chain
    {
      for i := 0 to |chain|
        invariant m_chain0[..i] == m_chain[..i] == chain[..i]
      {
        m_chain0[i] := chain[i];
        m_chain[i] := chain[i];
      }
    }

    method MakeRoundKeys(key: Bytes)
      requires Shapes() && Sized() && |key| == m_keylength
      modifies m_Ke, m_Kd, tk
      ensures InverseKeys(Rows(m_Ke), Rows(m_Kd), m_iROUNDS, BC())
      ensures KeyWords(|Pack(key)|) && IsExpansion(Pack(key))
    {
      assert |key| % 4 == 0;
      hide Expanded, Stored, Reversed, IsExpansion, Pack, At, InverseKeys, Rows, Rounds, Sized, BC;
      ClearKeys();
      ExpandKey(key);
      StoredAll(Pack(key));
      MixDecryptionRows();
      KeysReady();
    }

    // ---------------------------------------------------------------- one block

    // The tables of the source.
    function T1(x: uint8): Word { C1(box.S(x)) }
    function T2(x: uint8): Word { C2(box.S(x)) }
    function T3(x: uint8): Word { C3(box.S(x)) }
    function T4(x: uint8): Word { C4(box.S(x)) }
    function T5(x: uint8): Word { U1(box.Si(x)) }
    function T6(x: uint8): Word { U2(box.Si(x)) }
    function T7(x: uint8): Word { U3(box.Si(x)) }
    function T8(x: uint8): Word { U4(box.Si(x)) }

    lemma EncTables(w: Word)
      ensures Xor(Xor(Xor(T1(w.b0), T2(w.b1)), T3(w.b2)), T4(w.b3)) == Mix(SubWord(box.S, w))
    {
      hide C1, C2, C3, C4, Xor;
    }

    lemma DecTables(w: Word)
      ensures Xor(Xor(Xor(T5(w.b0), T6(w.b1)), T7(w.b2)), T8(w.b3)) == InvMix(SubWord(box.Si, w))
    {
      hide U1, U2, U3, U4, Xor;
    }

    /** The sizes fit the arrays: what the block functions need. */
    ghost predicate Fit()
      reads this
    {
      Shapes() && Sized()
    }

    lemma SomeRounds()
      requires Fit()
      ensures Shapes() && 0 < m_iROUNDS < 15 && 16 <= m_blockSize == 4 * BC() && BC() <= 8 == t.Length == a.Length
    {
    }

    /** What holds between calls. */
    ghost predicate Valid()
      reads this, m_Ke, m_Kd
    {
      Shapes() && (m_bKeyInit ==> Ready())
    }

    /** The block function and its inverse, on byte strings. */
    ghost function EncBytes(x: Bytes): (y: Bytes)
      requires Fit() && |x| == m_blockSize
      reads this, m_Ke
      ensures |y| == m_blockSize
    {
      Unpack(Cipher(box, Rows(m_Ke), m_iROUNDS, Pack(x)))
    }

    ghost function DecBytes(y: Bytes): (x: Bytes)
      requires Fit() && |y| == m_blockSize
      reads this, m_Kd
      ensures |x| == m_blockSize
    {
      Unpack(InvCipher(box, Rows(m_Kd), m_iROUNDS, Pack(y)))
    }

    /** Decrypting a block undoes encrypting it, for every key and block size. */
    lemma BlockRoundTrip(x: Bytes)
      requires Valid() && m_bKeyInit && |x| == m_blockSize && box.Inverse()
      ensures DecBytes(EncBytes(x)) == x
    {
      hide Pack, Unpack, Cipher, InvCipher, InverseKeys, Rows;
      PackUnpack(Cipher(box, Rows(m_Ke), m_iROUNDS, Pack(x)));
      InverseCipher(box, Rows(m_Ke), Rows(m_Kd), m_iROUNDS, Pack(x));
      UnpackPack(x);
    }

    // ---------------------------------------------------------------- bytes in and out

    ghost predicate Keyed(k: array2<Word>) {
      k == m_Ke || k == m_Kd
    }

    lemma BothKeyed()
      ensures Keyed(m_Ke) && Keyed(m_Kd)
    {
    }

    /** The block, as words, plus the first row of keys. */
    ghost function First(k: array2<Word>, x: Bytes): (s: State)
      requires Fit() && Keyed(k) && |x| == m_blockSize
      reads this, k
      ensures |s| == BC()
    {
      XorRow(Pack(x), Rows(k)[0])
    }

    lemma FirstWord(k: array2<Word>, x: Bytes, i: nat)
      requires Fit() && Keyed(k) && |x| == m_blockSize && i < BC()
      ensures First(k, x)[i] == Xor(Word(x[4 * i], x[4 * i + 1], x[4 * i + 2], x[4 * i + 3]), k[0, i])
    {
      hide Xor;
    }

    method LoadBlock(inp: array<uint8>, off: nat, k: array2<Word>)
      requires Fit() && Keyed(k) && off + m_blockSize <= inp.Length
      modifies t
      ensures t[..BC()] == First(k, old(inp[off..off + m_blockSize]))
    {
      ghost var x := inp[off..off + m_blockSize];
      SomeRounds();
      assert (t as object) != inp;
      ghost var s := First(k, x);
      assert k.Length0 == 15 && k.Length1 == 8 && |s| == BC();
      hide Xor, First, Fit, Keyed, BC;
      for i := 0 to m_blockSize / 4
        invariant t[..i] == s[..i]
        modifies t
      {
        FirstWord(k, x, i);
        assert x[4 * i] == inp[off + 4 * i] && x[4 * i + 1] == inp[off + 4 * i + 1];
        assert x[4 * i + 2] == inp[off + 4 * i + 2] && x[4 * i + 3] == inp[off + 4 * i + 3];
        assert s[..i + 1] == s[..i] + [s[i]];
        t[i] := Xor(Word(inp[off + 4 * i], inp[off + 4 * i + 1], inp[off + 4 * i + 2], inp[off + 4 * i + 3]), k[0, i]);
      }
    }

    method LoadFour(inp: array<uint8>, off: nat, k: array2<Word>) returns (t0: Word, t1: Word, t2: Word, t3: Word)
      requires Fit() && BC() == 4 && m_blockSize == 16 && Keyed(k) && off + 16 <= inp.Length
      ensures [t0, t1, t2, t3] == First(k, inp[off..off + 16])
    {
      ghost var x := inp[off..off + 16];
      FirstWord(k, x, 0);
      FirstWord(k, x, 1);
      FirstWord(k, x, 2);
      FirstWord(k, x, 3);
      hide Xor, First, Fit, BC;
      t0 := Xor(Word(inp[off], inp[off + 1], inp[off + 2], inp[off + 3]), k[0, 0]);
      t1 := Xor(Word(inp[off + 4], inp[off + 5], inp[off + 6], inp[off + 7]), k[0, 1]);
      t2 := Xor(Word(inp[off + 8], inp[off + 9], inp[off + 10], inp[off + 11]), k[0, 2]);
      t3 := Xor(Word(inp[off + 12], inp[off + 13], inp[off + 14], inp[off + 15]), k[0, 3]);
    }

    /** The first `i` columns of `y` have been written to the result, from `at` on. */
    ghost predicate Written(result: array<uint8>, at: nat, y: State, i: nat, before: Bytes)
      requires i <= |y| && at + 4 * |y| <= |before|
      reads result
    {
      result[..] == before[..at] + Unpack(y[..i]) + before[at + 4 * i..]
    }

    /** Column `i` of the last round goes to four bytes of the result. */
    method StoreColumn(result: array<uint8>, at: nat, w: Word, ghost y: State, i: nat, ghost before: Bytes)
      requires i < |y| && at + 4 * |y| <= |before| == result.Length && w == y[i] && Written(result, at, y, i, before)
      modifies result
      ensures Written(result, at, y, i + 1, before)
    {
      ghost var was := result[..];
      StoreWord4(result, at + 4 * i, w);
      ColumnWritten(before, at, y, i, was);
      hide Unpack;
    }

    method StoreWord4(result: array<uint8>, j: nat, w: Word)
      requires j + 4 <= result.Length
      modifies result
      ensures result[..] == old(result[..j]) + [w.b0, w.b1, w.b2, w.b3] + old(result[j + 4..])
    {
      result[j] := w.b0;
      result[j + 1] := w.b1;
      result[j + 2] := w.b2;
      result[j + 3] := w.b3;
    }

    lemma WrittenEnds(result: array<uint8>, at: nat, y: State, before: Bytes)
      requires at + 4 * |y| <= |before| && result[..] == before
      ensures Written(result, at, y, 0, before)
    {
    }

    lemma WrittenAll(result: array<uint8>, at: nat, y: State, before: Bytes)
      requires at + 4 * |y| <= |before| && Written(result, at, y, |y|, before)
      ensures result[..] == Put(before, at, Unpack(y))
    {
      assert y[..|y|] == y;
    }

    method CopyState(n: nat)
      requires Shapes() && n <= 8
      modifies t
      ensures t[..n] == a[..n]
    {
      for i := 0 to n
        invariant t[..i] == a[..i]
      {
        t[i] := a[i];
      }
    }

    // ---------------------------------------------------------------- encryption of one block

    /** One inner round on a state, and the last one. */
    ghost function EncRound(r: nat, s: State): (s': State)
      requires Fit() && |s| == BC() && r <= m_iROUNDS
      reads this, m_Ke
      ensures |s'| == |s|
    {
      XorRow(MixRow(SubShift(box.S, EncOffsets(BC()), s)), Rows(m_Ke)[r])
    }

    ghost function EncLast(s: State): (y: State)
      requires Fit() && |s| == BC()
      reads this, m_Ke
      ensures |y| == |s|
    {
      XorRow(SubShift(box.S, EncOffsets(BC()), s), Rows(m_Ke)[m_iROUNDS])
    }

    ghost predicate EncProgress(x: Bytes, r: nat, s: State)
      requires Fit() && |x| == m_blockSize
      reads this, m_Ke
      ensures EncProgress(x, r, s) ==> |s| == BC()
    {
      r < m_iROUNDS && |Pack(x)| == BC() && s == Enciphered(box, Rows(m_Ke), m_iROUNDS, Pack(x), r)
    }

    lemma EncStarts(x: Bytes)
      requires Fit() && |x| == m_blockSize
      ensures EncProgress(x, 0, First(m_Ke, x))
    {
      hide XorRow, Rows, Pack;
    }

    lemma EncSteps(x: Bytes, r: nat, s: State)
      requires Fit() && |x| == m_blockSize && 0 < r < m_iROUNDS && EncProgress(x, r - 1, s)
      ensures EncProgress(x, r, EncRound(r, s))
    {
      hide XorRow, SubShift, MixRow, Rows, EncOffsets, Pack;
    }

    lemma EncEnds(x: Bytes, s: State)
      requires Fit() && |x| == m_blockSize && EncProgress(x, m_iROUNDS - 1, s)
      ensures EncBytes(x) == Unpack(EncLast(s))
    {
      hide XorRow, SubShift, Rows, EncOffsets, Pack, Unpack;
    }

    /** One column of a round, by the tables. */
    method EncryptColumn(x: Word, k: Word) returns (w: Word)
      ensures w == Xor(Mix(SubWord(box.S, x)), k)
    {
      EncTables(x);
      hide Xor, Mix, SubWord, T1, T2, T3, T4, T5, T6, T7, T8;
      w := Xor(Xor(Xor(Xor(T1(x.b0), T2(x.b1)), T3(x.b2)), T4(x.b3)), k);
    }

    /** A round, column by column. */
    lemma EncRoundIs(r: nat, s: State, y: State)
      requires Fit() && r <= m_iROUNDS && |s| == |y| == BC()
      requires forall j | 0 <= j < |y| :: y[j] == Xor(Mix(ShiftedColumn(box.S, EncOffsets(BC()), s, j)), m_Ke[r, j])
      ensures y == EncRound(r, s)
    {
      hide Xor, Mix, ShiftedColumn, EncOffsets;
    }

    method EncryptRound(r: nat)
      requires Fit() && r <= m_iROUNDS
      modifies a, t
      ensures t[..BC()] == EncRound(r, old(t[..BC()]))
    {
      hide Xor, Mix, Wrap, EncOffsets;
      var bc := m_blockSize / 4;
      var o := EncOffsets(bc);
      ghost var t0 := t[..bc];
      for i := 0 to bc
        invariant forall j | 0 <= j < i :: a[j] == Xor(Mix(ShiftedColumn(box.S, o, t0, j)), m_Ke[r, j])
        modifies a
      {
        var w := Word(t[i].b0, t[Wrap(i, o.s1, bc)].b1, t[Wrap(i, o.s2, bc)].b2, t[Wrap(i, o.s3, bc)].b3);
        a[i] := EncryptColumn(w, m_Ke[r, i]);
      }
      ghost var y := a[..bc];
      CopyState(bc);
      hide ShiftedColumn;
      EncRoundIs(r, t0, y);
    }

    /** The last round: no mixing, bytes out. */
    method LastEncryptRound(result: array<uint8>, at: nat)
      requires Fit() && at + m_blockSize <= result.Length
      modifies result
      ensures result[..] == Put(old(result[..]), at, Unpack(EncLast(t[..BC()])))
    {
      hide Xor, Wrap, EncOffsets;
      var bc := m_blockSize / 4;
      var o := EncOffsets(bc);
      ghost var y, before := EncLast(t[..bc]), result[..];
      WrittenEnds(result, at, y, before);
      hide Written;
      for i := 0 to bc
        invariant Written(result, at, y, i, before)
      {
        var k := m_Ke[m_iROUNDS, i];
        var w := Word(box.S(t[i].b0), box.S(t[Wrap(i, o.s1, bc)].b1), box.S(t[Wrap(i, o.s2, bc)].b2),
          box.S(t[Wrap(i, o.s3, bc)].b3));
        StoreColumn(result, at, Xor(w, k), y, i, before);
      }
      WrittenAll(result, at, y, before);
    }

    method EncryptRounds(inp: array<uint8>, off: nat)
      requires Fit() && off + m_blockSize <= inp.Length
      modifies t, a
      ensures EncProgress(old(inp[off..off + m_blockSize]), m_iROUNDS - 1, t[..BC()])
    {
      hide *;
      ghost var x := inp[off..off + m_blockSize];
      SomeRounds();
      BothKeyed();
      LoadBlock(inp, off, m_Ke);
      EncStarts(x);
      for r := 1 to m_iROUNDS
        invariant EncProgress(x, r - 1, t[..BC()])
      {
        EncSteps(x, r, t[..BC()]);
        EncryptRound(r);
      }
    }

    /** The loops over a block of any size. */
    method EncryptWords(inp: array<uint8>, off: nat, result: array<uint8>, at: nat)
      requires Fit()
      requires off + m_blockSize <= inp.Length && at + m_blockSize <= result.Length
      modifies t, a, result
      ensures result[..] == Put(old(result[..]), at, EncBytes(old(Cut(inp, off))))
    {
      SomeRounds();
      hide *;
      WordArrays(result);
      ghost var x := Cut(inp, off);
      EncryptRounds(inp, off);
      EncEnds(x, t[..BC()]);
      LastEncryptRound(result, at);
    }

    /** The four words whose bytes meet in column `i`. */
    function EncDiagonal(t0: Word, t1: Word, t2: Word, t3: Word, i: nat): Word {
      if i == 0 then Word(box.S(t0.b0), box.S(t1.b1), box.S(t2.b2), box.S(t3.b3))
      else if i == 1 then Word(box.S(t1.b0), box.S(t2.b1), box.S(t3.b2), box.S(t0.b3))
      else if i == 2 then Word(box.S(t2.b0), box.S(t3.b1), box.S(t0.b2), box.S(t1.b3))
      else Word(box.S(t3.b0), box.S(t0.b1), box.S(t1.b2), box.S(t2.b3))
    }

    lemma EncColumn(t0: Word, t1: Word, t2: Word, t3: Word, i: nat)
      requires i < 4
      ensures SubShift(box.S, EncOffsets(4), [t0, t1, t2, t3])[i] == EncDiagonal(t0, t1, t2, t3, i)
    {
      WrapIs(4, i, 1);
      WrapIs(4, i, 2);
      WrapIs(4, i, 3);
      hide Wrap;
    }

    /** Column `i` of an inner round. */
    lemma EncRoundColumn(r: nat, s: State, i: nat)
      requires Fit() && BC() == 4 && r <= m_iROUNDS && |s| == 4 && i < 4
      ensures EncRound(r, s)[i] == Xor(Mix(SubShift(box.S, EncOffsets(4), s)[i]), m_Ke[r, i])
    {
      hide Xor, Mix, SubShift, EncOffsets;
    }

    lemma EncLastColumn(s: State, i: nat)
      requires Fit() && BC() == 4 && |s| == 4 && i < 4
      ensures EncLast(s)[i] == Xor(SubShift(box.S, EncOffsets(4), s)[i], m_Ke[m_iROUNDS, i])
    {
      hide Xor, SubShift, EncOffsets;
    }

    method DefEncryptColumn(x: Word, r: nat, ghost s: State, i: nat) returns (w: Word)
      requires Fit() && BC() == 4 && r <= m_iROUNDS && |s| == 4 && i < 4
      requires SubShift(box.S, EncOffsets(4), s)[i] == SubWord(box.S, x)
      ensures w == EncRound(r, s)[i]
    {
      EncRoundColumn(r, s, i);
      hide Xor, Mix, SubShift, EncOffsets, EncRound, SubWord;
      w := EncryptColumn(x, m_Ke[r, i]);
    }

    method DefEncryptRound(t0: Word, t1: Word, t2: Word, t3: Word, r: nat)
      returns (a0: Word, a1: Word, a2: Word, a3: Word)
      requires Fit() && BC() == 4 && r <= m_iROUNDS
      ensures [a0, a1, a2, a3] == EncRound(r, [t0, t1, t2, t3])
    {
      ghost var s := [t0, t1, t2, t3];
      hide SubShift, EncOffsets, EncRound, Fit, BC;
      EncColumn(t0, t1, t2, t3, 0);
      a0 := DefEncryptColumn(Word(t0.b0, t1.b1, t2.b2, t3.b3), r, s, 0);
      EncColumn(t0, t1, t2, t3, 1);
      a1 := DefEncryptColumn(Word(t1.b0, t2.b1, t3.b2, t0.b3), r, s, 1);
      EncColumn(t0, t1, t2, t3, 2);
      a2 := DefEncryptColumn(Word(t2.b0, t3.b1, t0.b2, t1.b3), r, s, 2);
      EncColumn(t0, t1, t2, t3, 3);
      a3 := DefEncryptColumn(Word(t3.b0, t0.b1, t1.b2, t2.b3), r, s, 3);
    }

    method LastDefEncryptRound(t0: Word, t1: Word, t2: Word, t3: Word, result: array<uint8>, at: nat)
      requires Fit() && BC() == 4 && at + m_blockSize <= result.Length
      modifies result
      ensures result[..] == Put(old(result[..]), at, Unpack(EncLast([t0, t1, t2, t3])))
    {
      ghost var s, before := [t0, t1, t2, t3], result[..];
      ghost var y := EncLast(s);
      WrittenEnds(result, at, y, before);
      hide Xor, SubShift, EncOffsets, Written, Put, Unpack, EncLast;
      EncColumn(t0, t1, t2, t3, 0);
      EncLastColumn(s, 0);
      StoreColumn(result, at, Xor(Word(box.S(t0.b0), box.S(t1.b1), box.S(t2.b2), box.S(t3.b3)), m_Ke[m_iROUNDS, 0]),
        y, 0, before);
      EncColumn(t0, t1, t2, t3, 1);
      EncLastColumn(s, 1);
      StoreColumn(result, at, Xor(Word(box.S(t1.b0), box.S(t2.b1), box.S(t3.b2), box.S(t0.b3)), m_Ke[m_iROUNDS, 1]),
        y, 1, before);
      EncColumn(t0, t1, t2, t3, 2);
      EncLastColumn(s, 2);
      StoreColumn(result, at, Xor(Word(box.S(t2.b0), box.S(t3.b1), box.S(t0.b2), box.S(t1.b3)), m_Ke[m_iROUNDS, 2]),
        y, 2, before);
      EncColumn(t0, t1, t2, t3, 3);
      EncLastColumn(s, 3);
      StoreColumn(result, at, Xor(Word(box.S(t3.b0), box.S(t0.b1), box.S(t1.b2), box.S(t2.b3)), m_Ke[m_iROUNDS, 3]),
        y, 3, before);
      WrittenAll(result, at, y, before);
    }

    method DefEncryptRounds(inp: array<uint8>, off: nat) returns (t0: Word, t1: Word, t2: Word, t3: Word)
      requires Fit() && BC() == 4 && m_blockSize == 16 && off + 16 <= inp.Length
      ensures EncProgress(inp[off..off + 16], m_iROUNDS - 1, [t0, t1, t2, t3])
    {
      SomeRounds();
      hide Fit, EncProgress, BC, First, EncRound;
      ghost var x := inp[off..off + 16];
      t0, t1, t2, t3 := LoadFour(inp, off, m_Ke);
      EncStarts(x);
      for r := 1 to m_iROUNDS
        invariant EncProgress(x, r - 1, [t0, t1, t2, t3])
      {
        EncSteps(x, r, [t0, t1, t2, t3]);
        t0, t1, t2, t3 := DefEncryptRound(t0, t1, t2, t3, r);
      }
    }

    /** The unrolled form for four-word blocks. */
    method DefEncryptBlock(inp: array<uint8>, off: nat, result: array<uint8>, at: nat)
      requires Fit() && m_blockSize == 16
      requires off + 16 <= inp.Length && at + 16 <= result.Length
      modifies result
      ensures result[..] == Put(old(result[..]), at, EncBytes(old(inp[off..off + 16])))
    {
      SomeRounds();
      assert BC() == 4;
      hide *;
      ghost var x := inp[off..off + 16];
      var t0, t1, t2, t3 := DefEncryptRounds(inp, off);
      EncEnds(x, [t0, t1, t2, t3]);
      LastDefEncryptRound(t0, t1, t2, t3, result, at);
    }

    /** Input and result may be the same bytes: the block is read before anything is written. */
    method EncryptBlock(inp: array<uint8>, off: nat, result: array<uint8>, at: nat) returns (e: Error)
      requires Valid()
      requires m_bKeyInit ==> off + m_blockSize <= inp.Length && at + m_blockSize <= result.Length
      modifies t, a, result
      ensures e == if m_bKeyInit then NoError else NotInitialized
      ensures e != NoError ==> unchanged(t, a, result)
      ensures e == NoError ==>
                Fit() && result[..] == Put(old(result[..]), at, EncBytes(old(inp[off..off + m_blockSize])))
    {
      if !m_bKeyInit { return NotInitialized; }
      assert Fit();
      hide *;
      EncryptAnyBlock(inp, off, result, at);
      return NoError;
    }

    method EncryptAnyBlock(inp: array<uint8>, off: nat, result: array<uint8>, at: nat)
      requires Fit()
      requires off + m_blockSize <= inp.Length && at + m_blockSize <= result.Length
      modifies t, a, result
      ensures result[..] == Put(old(result[..]), at, EncBytes(old(inp[off..off + m_blockSize])))
    {
      hide *;
      if m_blockSize == 16 {
        DefEncryptBlock(inp, off, result, at);
      } else {
        EncryptWords(inp, off, result, at);
      }
    }

    // ---------------------------------------------------------------- decryption of one block

    /** One inner round on a state, and the last one. */
    ghost function DecRound(r: nat, s: State): (s': State)
      requires Fit() && |s| == BC() && r <= m_iROUNDS
      reads this, m_Kd
      ensures |s'| == |s|
    {
      XorRow(InvMixRow(SubShift(box.Si, DecOffsets(BC()), s)), Rows(m_Kd)[r])
    }

    ghost function DecLast(s: State): (y: State)
      requires Fit() && |s| == BC()
      reads this, m_Kd
      ensures |y| == |s|
    {
      XorRow(SubShift(box.Si, DecOffsets(BC()), s), Rows(m_Kd)[m_iROUNDS])
    }

    ghost predicate DecProgress(x: Bytes, r: nat, s: State)
      requires Fit() && |x| == m_blockSize
      reads this, m_Kd
      ensures DecProgress(x, r, s) ==> |s| == BC()
    {
      r < m_iROUNDS && |Pack(x)| == BC() && s == Deciphered(box, Rows(m_Kd), m_iROUNDS, Pack(x), r)
    }

    lemma DecStarts(x: Bytes)
      requires Fit() && |x| == m_blockSize
      ensures DecProgress(x, 0, First(m_Kd, x))
    {
      hide XorRow, Rows, Pack;
    }

    lemma DecSteps(x: Bytes, r: nat, s: State)
      requires Fit() && |x| == m_blockSize && 0 < r < m_iROUNDS && DecProgress(x, r - 1, s)
      ensures DecProgress(x, r, DecRound(r, s))
    {
      hide XorRow, SubShift, InvMixRow, Rows, DecOffsets, Pack;
    }

    lemma DecEnds(x: Bytes, s: State)
      requires Fit() && |x| == m_blockSize && DecProgress(x, m_iROUNDS - 1, s)
      ensures DecBytes(x) == Unpack(DecLast(s))
    {
      hide XorRow, SubShift, Rows, DecOffsets, Pack, Unpack;
    }

    /** One column of a round, by the tables. */
    method DecryptColumn(x: Word, k: Word) returns (w: Word)
      ensures w == Xor(InvMix(SubWord(box.Si, x)), k)
    {
      DecTables(x);
      hide Xor, InvMix, SubWord, T1, T2, T3, T4, T5, T6, T7, T8;
      w := Xor(Xor(Xor(Xor(T5(x.b0), T6(x.b1)), T7(x.b2)), T8(x.b3)), k);
    }

    /** A round, column by column. */
    lemma DecRoundIs(r: nat, s: State, y: State)
      requires Fit() && r <= m_iROUNDS && |s| == |y| == BC()
      requires forall j | 0 <= j < |y| :: y[j] == Xor(InvMix(ShiftedColumn(box.Si, DecOffsets(BC()), s, j)), m_Kd[r, j])
      ensures y == DecRound(r, s)
    {
      hide Xor, InvMix, ShiftedColumn, DecOffsets;
    }

    method DecryptRound(r: nat)
      requires Fit() && r <= m_iROUNDS
      modifies a, t
      ensures t[..BC()] == DecRound(r, old(t[..BC()]))
    {
      hide Xor, InvMix, Wrap, DecOffsets;
      var bc := m_blockSize / 4;
      var o := DecOffsets(bc);
      ghost var t0 := t[..bc];
      for i := 0 to bc
        invariant forall j | 0 <= j < i :: a[j] == Xor(InvMix(ShiftedColumn(box.Si, o, t0, j)), m_Kd[r, j])
        modifies a
      {
        var w := Word(t[i].b0, t[Wrap(i, o.s1, bc)].b1, t[Wrap(i, o.s2, bc)].b2, t[Wrap(i, o.s3, bc)].b3);
        a[i] := DecryptColumn(w, m_Kd[r, i]);
      }
      ghost var y := a[..bc];
      CopyState(bc);
      hide ShiftedColumn;
      DecRoundIs(r, t0, y);
    }

    /** The last round: no mixing, bytes out. */
    method LastDecryptRound(result: array<uint8>, at: nat)
      requires Fit() && at + m_blockSize <= result.Length
      modifies result
      ensures result[..] == Put(old(result[..]), at, Unpack(DecLast(t[..BC()])))
    {
      hide Xor, Wrap, DecOffsets;
      var bc := m_blockSize / 4;
      var o := DecOffsets(bc);
      ghost var y, before := DecLast(t[..bc]), result[..];
      WrittenEnds(result, at, y, before);
      hide Written;
      for i := 0 to bc
        invariant Written(result, at, y, i, before)
      {
        var k := m_Kd[m_iROUNDS, i];
        var w := Word(box.Si(t[i].b0), box.Si(t[Wrap(i, o.s1, bc)].b1), box.Si(t[Wrap(i, o.s2, bc)].b2),
          box.Si(t[Wrap(i, o.s3, bc)].b3));
        StoreColumn(result, at, Xor(w, k), y, i, before);
      }
      WrittenAll(result, at, y, before);
    }

    method DecryptRounds(inp: array<uint8>, off: nat)
      requires Fit() && off + m_blockSize <= inp.Length
      modifies t, a
      ensures DecProgress(old(inp[off..off + m_blockSize]), m_iROUNDS - 1, t[..BC()])
    {
      hide *;
      ghost var x := inp[off..off + m_blockSize];
      SomeRounds();
      BothKeyed();
      LoadBlock(inp, off, m_Kd);
      DecStarts(x);
      for r := 1 to m_iROUNDS
        invariant DecProgress(x, r - 1, t[..BC()])
      {
        DecSteps(x, r, t[..BC()]);
        DecryptRound(r);
      }
    }

    /** The loops over a block of any size. */
    method DecryptWords(inp: array<uint8>, off: nat, result: array<uint8>, at: nat)
      requires Fit()
      requires off + m_blockSize <= inp.Length && at + m_blockSize <= result.Length
      modifies t, a, result
      ensures result[..] == Put(old(result[..]), at, DecBytes(old(Cut(inp, off))))
    {
      SomeRounds();
      hide *;
      WordArrays(result);
      ghost var x := Cut(inp, off);
      DecryptRounds(inp, off);
      DecEnds(x, t[..BC()]);
      LastDecryptRound(result, at);
    }

    /** The four words whose bytes meet in column `i`. */
    function DecDiagonal(t0: Word, t1: Word, t2: Word, t3: Word, i: nat): Word {
      if i == 0 then Word(box.Si(t0.b0), box.Si(t3.b1), box.Si(t2.b2), box.Si(t1.b3))
      else if i == 1 then Word(box.Si(t1.b0), box.Si(t0.b1), box.Si(t3.b2), box.Si(t2.b3))
      else if i == 2 then Word(box.Si(t2.b0), box.Si(t1.b1), box.Si(t0.b2), box.Si(t3.b3))
      else Word(box.Si(t3.b0), box.Si(t2.b1), box.Si(t1.b2), box.Si(t0.b3))
    }

    lemma DecColumn(t0: Word, t1: Word, t2: Word, t3: Word, i: nat)
      requires i < 4
      ensures SubShift(box.Si, DecOffsets(4), [t0, t1, t2, t3])[i] == DecDiagonal(t0, t1, t2, t3, i)
    {
      WrapIs(4, i, 1);
      WrapIs(4, i, 2);
      WrapIs(4, i, 3);
      hide Wrap;
    }

    /** Column `i` of an inner round. */
    lemma DecRoundColumn(r: nat, s: State, i: nat)
      requires Fit() && BC() == 4 && r <= m_iROUNDS && |s| == 4 && i < 4
      ensures DecRound(r, s)[i] == Xor(InvMix(SubShift(box.Si, DecOffsets(4), s)[i]), m_Kd[r, i])
    {
      hide Xor, InvMix, SubShift, DecOffsets;
    }

    lemma DecLastColumn(s: State, i: nat)
      requires Fit() && BC() == 4 && |s| == 4 && i < 4
      ensures DecLast(s)[i] == Xor(SubShift(box.Si, DecOffsets(4), s)[i], m_Kd[m_iROUNDS, i])
    {
      hide Xor, SubShift, DecOffsets;
    }

    method DefDecryptColumn(x: Word, r: nat, ghost s: State, i: nat) returns (w: Word)
      requires Fit() && BC() == 4 && r <= m_iROUNDS && |s| == 4 && i < 4
      requires SubShift(box.Si, DecOffsets(4), s)[i] == SubWord(box.Si, x)
      ensures w == DecRound(r, s)[i]
    {
      DecRoundColumn(r, s, i);
      hide Xor, InvMix, SubShift, DecOffsets, DecRound, SubWord;
      w := DecryptColumn(x, m_Kd[r, i]);
    }

    method DefDecryptRound(t0: Word, t1: Word, t2: Word, t3: Word, r: nat)
      returns (a0: Word, a1: Word, a2: Word, a3: Word)
      requires Fit() && BC() == 4 && r <= m_iROUNDS
      ensures [a0, a1, a2, a3] == DecRound(r, [t0, t1, t2, t3])
    {
      ghost var s := [t0, t1, t2, t3];
      hide SubShift, DecOffsets, DecRound, Fit, BC;
      DecColumn(t0, t1, t2, t3, 0);
      a0 := DefDecryptColumn(Word(t0.b0, t3.b1, t2.b2, t1.b3), r, s, 0);
      DecColumn(t0, t1, t2, t3, 1);
      a1 := DefDecryptColumn(Word(t1.b0, t0.b1, t3.b2, t2.b3), r, s, 1);
      DecColumn(t0, t1, t2, t3, 2);
      a2 := DefDecryptColumn(Word(t2.b0, t1.b1, t0.b2, t3.b3), r, s, 2);
      DecColumn(t0, t1, t2, t3, 3);
      a3 := DefDecryptColumn(Word(t3.b0, t2.b1, t1.b2, t0.b3), r, s, 3);
    }

    method LastDefDecryptRound(t0: Word, t1: Word, t2: Word, t3: Word, result: array<uint8>, at: nat)
      requires Fit() && BC() == 4 && at + m_blockSize <= result.Length
      modifies result
      ensures result[..] == Put(old(result[..]), at, Unpack(DecLast([t0, t1, t2, t3])))
    {
      ghost var s, before := [t0, t1, t2, t3], result[..];
      ghost var y := DecLast(s);
      WrittenEnds(result, at, y, before);
      hide Xor, SubShift, DecOffsets, Written, Put, Unpack, DecLast;
      DecColumn(t0, t1, t2, t3, 0);
      DecLastColumn(s, 0);
      StoreColumn(result, at, Xor(Word(box.Si(t0.b0), box.Si(t3.b1), box.Si(t2.b2), box.Si(t1.b3)),
        m_Kd[m_iROUNDS, 0]), y, 0, before);
      DecColumn(t0, t1, t2, t3, 1);
      DecLastColumn(s, 1);
      StoreColumn(result, at, Xor(Word(box.Si(t1.b0), box.Si(t0.b1), box.Si(t3.b2), box.Si(t2.b3)),
        m_Kd[m_iROUNDS, 1]), y, 1, before);
      DecColumn(t0, t1, t2, t3, 2);
      DecLastColumn(s, 2);
      StoreColumn(result, at, Xor(Word(box.Si(t2.b0), box.Si(t1.b1), box.Si(t0.b2), box.Si(t3.b3)),
        m_Kd[m_iROUNDS, 2]), y, 2, before);
      DecColumn(t0, t1, t2, t3, 3);
      DecLastColumn(s, 3);
      StoreColumn(result, at, Xor(Word(box.Si(t3.b0), box.Si(t2.b1), box.Si(t1.b2), box.Si(t0.b3)),
        m_Kd[m_iROUNDS, 3]), y, 3, before);
      WrittenAll(result, at, y, before);
    }

    method DefDecryptRounds(inp: array<uint8>, off: nat) returns (t0: Word, t1: Word, t2: Word, t3: Word)
      requires Fit() && BC() == 4 && m_blockSize == 16 && off + 16 <= inp.Length
      ensures DecProgress(inp[off..off + 16], m_iROUNDS - 1, [t0, t1, t2, t3])
    {
      SomeRounds();
      hide Fit, DecProgress, BC, First, DecRound;
      ghost var x := inp[off..off + 16];
      t0, t1, t2, t3 := LoadFour(inp, off, m_Kd);
      DecStarts(x);
      for r := 1 to m_iROUNDS
        invariant DecProgress(x, r - 1, [t0, t1, t2, t3])
      {
        DecSteps(x, r, [t0, t1, t2, t3]);
        t0, t1, t2, t3 := DefDecryptRound(t0, t1, t2, t3, r);
      }
    }

    /** The unrolled form for four-word blocks. */
    method DefDecryptBlock(inp: array<uint8>, off: nat, result: array<uint8>, at: nat)
      requires Fit() && m_blockSize == 16
      requires off + 16 <= inp.Length && at + 16 <= result.Length
      modifies result
      ensures result[..] == Put(old(result[..]), at, DecBytes(old(inp[off..off + 16])))
    {
      SomeRounds();
      assert BC() == 4;
      hide *;
      ghost var x := inp[off..off + 16];
      var t0, t1, t2, t3 := DefDecryptRounds(inp, off);
      DecEnds(x, [t0, t1, t2, t3]);
      LastDefDecryptRound(t0, t1, t2, t3, result, at);
    }

    /** Input and result may be the same bytes: the block is read before anything is written. */
    method DecryptBlock(inp: array<uint8>, off: nat, result: array<uint8>, at: nat) returns (e: Error)
      requires Valid()
      requires m_bKeyInit ==> off + m_blockSize <= inp.Length && at + m_blockSize <= result.Length
      modifies t, a, result
      ensures e == if m_bKeyInit then NoError else NotInitialized
      ensures e != NoError ==> unchanged(t, a, result)
      ensures e == NoError ==>
                Fit() && result[..] == Put(old(result[..]), at, DecBytes(old(inp[off..off + m_blockSize])))
    {
      if !m_bKeyInit { return NotInitialized; }
      assert Fit();
      hide *;
      DecryptAnyBlock(inp, off, result, at);
      return NoError;
    }

    method DecryptAnyBlock(inp: array<uint8>, off: nat, result: array<uint8>, at: nat)
      requires Fit()
      requires off + m_blockSize <= inp.Length && at + m_blockSize <= result.Length
      modifies t, a, result
      ensures result[..] == Put(old(result[..]), at, DecBytes(old(inp[off..off + m_blockSize])))
    {
      hide *;
      if m_blockSize == 16 {
        DefDecryptBlock(inp, off, result, at);
      } else {
        DecryptWords(inp, off, result, at);
      }
    }

    // ---------------------------------------------------------------- modes

    /** The block functions as values. */
    ghost function Enc(): (f: Bytes -> Bytes)
      requires Fit()
      reads this, m_Ke
      ensures OnBlocks(f, m_blockSize)
    {
      CipherOn(box, Rows(m_Ke), m_iROUNDS, m_blockSize)
    }

    lemma EncIs(x: Bytes)
      requires Fit() && |x| == m_blockSize
      ensures Enc()(x) == EncBytes(x)
    {
      hide Rows, Pack, Unpack, Cipher, InvCipher;
    }

    ghost function Dec(): (f: Bytes -> Bytes)
      requires Fit()
      reads this, m_Kd
      ensures OnBlocks(f, m_blockSize)
    {
      InvCipherOn(box, Rows(m_Kd), m_iROUNDS, m_blockSize)
    }

    lemma DecIs(x: Bytes)
      requires Fit() && |x| == m_blockSize
      ensures Dec()(x) == DecBytes(x)
    {
      hide Rows, Pack, Unpack, Cipher, InvCipher;
    }

    /** The chain block in use. */
    ghost function Chain(): (c: Bytes)
      requires Fit()
      reads this, m_chain
      ensures |c| == m_blockSize
    {
      m_chain[..m_blockSize]
    }

    /** From equal chains, decrypting undoes encrypting and leaves equal chains: for every key, block
        size, mode and whole number of blocks; in CFB for any table in the place of the box. */
    lemma MessageRoundTrip(mode: Mode, x: Bytes)
      requires Valid() && m_bKeyInit && Whole(|x|, m_blockSize) && (mode.CFB? || box.Inverse())
      ensures var c := EncryptAll(Way(mode, false), Enc(), Chain(), x);
              DecryptAll(Way(mode, false), Enc(), Dec(), Chain(), c.out) == Run(x, c.chain)
    {
      hide *;
      Sizes();
      if !mode.CFB? {
        DecUndoesEnc();
      }
      ModesRoundTrip(mode, Enc(), Dec(), Chain(), x);
    }

    /** When it comes back that is decrypted over its own ciphertext. */
    lemma MessageInPlace(mode: Mode, x: Bytes)
      requires Valid() && m_bKeyInit && Whole(|x|, m_blockSize) && (mode.CFB? || box.Inverse())
      ensures var c := EncryptAll(Way(mode, false), Enc(), Chain(), x).out;
              DecryptAll(Way(mode, true), Enc(), Dec(), Chain(), c).out == x <==> Survives(mode, x, c, m_blockSize)
    {
      hide *;
      Sizes();
      if !mode.CFB? {
        DecUndoesEnc();
      }
      BackInPlace(mode, Enc(), Dec(), Chain(), x);
    }

    lemma Sizes()
      requires Valid() && m_bKeyInit
      ensures Fit() && |Chain()| == m_blockSize > 0
    {
      hide InverseKeys, Rows;
    }

    lemma DecUndoesEnc()
      requires Valid() && m_bKeyInit && box.Inverse()
      ensures Fit() && Undoes(Dec(), Enc(), m_blockSize)
    {
      Sizes();
      hide Valid, Boxes.Inverse, Fit, Enc, Dec, EncBytes, DecBytes;
      forall x: Bytes | |x| == m_blockSize
        ensures Dec()(Enc()(x)) == x
      {
        EncIs(x);
        DecIs(EncBytes(x));
        BlockRoundTrip(x);
      }
    }

    lemma ChainFits()
      requires Fit()
      ensures Shapes() && 16 <= m_blockSize <= 32 == m_chain.Length == m_chain0.Length && m_chain != m_chain0
    {
    }

    /** The block of `b` at `off`. */
    ghost function Cut(b: array<uint8>, off: nat): (x: Bytes)
      requires Fit() && off + m_blockSize <= b.Length
      reads this, b
      ensures |x| == m_blockSize && x == b[off..off + m_blockSize]
    {
      b[off..off + m_blockSize]
    }

    /** The two places may be the same, but may not overlap in part. */
    method XorInto(buff: array<uint8>, at: nat, chain: array<uint8>, off: nat)
      requires Fit() && (buff != chain || at == off) && at + m_blockSize <= buff.Length
      requires off + m_blockSize <= chain.Length
      modifies buff
      ensures buff[..] == Put(old(buff[..]), at, XorBytes(old(Cut(buff, at)), old(Cut(chain, off))))
    {
      ghost var was, c := buff[..], Cut(chain, off);
      XoredNone(was, at, c);
      hide *;
      for i := 0 to m_blockSize
        invariant buff[..] == XoredUpTo(was, at, c, i)
        invariant forall k | i <= k < m_blockSize :: chain[off + k] == c[k]
        modifies buff
      {
        XoredNext(was, at, c, i);
        assert buff[at + i] == buff[..][at + i];
        buff[at + i] := buff[at + i] ^ chain[off + i];
      }
      AllXored(was, at, c);
    }

    method CopyChain(from: array<uint8>, off: nat)
      requires Fit() && from != m_chain && off + m_blockSize <= from.Length
      modifies m_chain
      ensures m_chain[..] == Put(old(m_chain[..]), 0, Cut(from, off))
    {
      ghost var was, x := m_chain[..], Cut(from, off);
      ChainFits();
      hide *;
      for i := 0 to m_blockSize
        invariant m_chain[..] == x[..i] + was[i..]
      {
        m_chain[i] := from[off + i];
        StoredNext(x, was, i);
      }
      PutFront(was, x);
    }

    method ResetChain()
      requires Shapes() && m_blockSize <= 32
      modifies m_chain
      ensures m_chain[..] == Put(old(m_chain[..]), 0, m_chain0[..m_blockSize])
    {
      ghost var was, x := m_chain[..], m_chain0[..m_blockSize];
      for i := 0 to m_blockSize
        invariant m_chain[..] == x[..i] + was[i..]
      {
        m_chain[i] := m_chain0[i];
        StoredNext(x, was, i);
      }
      PutFront(was, x);
    }

    /** One block in a mode, with the chain `c`. */
    ghost function EncTurn(w: Way, c: Bytes, x: Bytes): (one: Run)
      requires Fit() && |c| == |x| == m_blockSize
      reads this, m_Ke
      ensures |one.out| == |one.chain| == m_blockSize
    {
      match w.mode
      case ECB => Run(EncBytes(x), c)
      case CBC => Run(EncBytes(XorBytes(c, x)), EncBytes(XorBytes(c, x)))
      case CFB => var y := if w.same then Zeros(|x|) else XorBytes(EncBytes(c), x); Run(y, y)
    }

    ghost function DecTurn(w: Way, c: Bytes, y: Bytes): (one: Run)
      requires Fit() && |c| == |y| == m_blockSize
      reads this, m_Ke, m_Kd
      ensures |one.out| == |one.chain| == m_blockSize
    {
      match w.mode
      case ECB => Run(DecBytes(y), c)
      case CBC => var x := XorBytes(DecBytes(y), c); Run(x, if w.same then x else y)
      case CFB => if w.same then Run(Zeros(|y|), Zeros(|y|)) else Run(XorBytes(EncBytes(c), y), y)
    }

    lemma ECBTurns(same: bool, c: Bytes, x: Bytes)
      requires Fit() && |c| == |x| == m_blockSize
      ensures EncTurn(Way(ECB, same), c, x) == Run(EncBytes(x), c)
      ensures DecTurn(Way(ECB, same), c, x) == Run(DecBytes(x), c)
    {
      hide EncBytes, DecBytes, Fit;
    }

    lemma CBCTurns(same: bool, c: Bytes, x: Bytes)
      requires Fit() && |c| == |x| == m_blockSize
      ensures EncTurn(Way(CBC, same), c, x) == Run(EncBytes(XorBytes(c, x)), EncBytes(XorBytes(c, x)))
      ensures var y := XorBytes(DecBytes(x), c); DecTurn(Way(CBC, same), c, x) == Run(y, if same then y else x)
    {
      hide EncBytes, DecBytes, Fit, XorBytes;
    }

    lemma CFBTurns(same: bool, c: Bytes, x: Bytes)
      requires Fit() && |c| == |x| == m_blockSize
      ensures var y := if same then Zeros(|x|) else XorBytes(EncBytes(c), x);
              && EncTurn(Way(CFB, same), c, x) == Run(y, y)
              && DecTurn(Way(CFB, same), c, x) == Run(y, if same then y else x)
    {
      hide EncBytes, DecBytes, Fit, XorBytes, Zeros;
    }

    lemma EncTurnIs(w: Way, c: Bytes, x: Bytes)
      requires Fit() && |c| == |x| == m_blockSize
      ensures EncTurn(w, c, x) == EncryptOne(w, Enc(), c, x)
    {
      hide Enc, EncBytes, Fit, OnBlocks, XorBytes;
      EncIs(x);
      EncIs(c);
      EncIs(XorBytes(c, x));
    }

    lemma DecTurnIs(w: Way, c: Bytes, y: Bytes)
      requires Fit() && |c| == |y| == m_blockSize
      ensures DecTurn(w, c, y) == DecryptOne(w, Enc(), Dec(), c, y)
    {
      hide Enc, EncBytes, Dec, DecBytes, Fit, OnBlocks, XorBytes;
      EncIs(c);
      DecIs(y);
    }

    /** A block at `pos` of both arrays; the chain is neither of them. */
    ghost predicate Placed(inp: array<uint8>, result: array<uint8>, pos: nat)
      reads this
    {
      && Fit() && m_chain != inp && m_chain != result
      && pos + m_blockSize <= inp.Length && pos + m_blockSize <= result.Length
    }

    lemma AllApart(inp: array<uint8>, result: array<uint8>, pos: nat)
      requires Placed(inp, result, pos)
      ensures Fit() && m_chain != inp && m_chain != result
      ensures pos + m_blockSize <= inp.Length && pos + m_blockSize <= result.Length
      ensures 16 <= m_blockSize <= 32 == m_chain.Length && Chain() == m_chain[..m_blockSize] == m_chain[0..m_blockSize]
      ensures (t as object) != inp && (a as object) != inp && (t as object) != result && (a as object) != result
      ensures (t as object) != m_chain && (a as object) != m_chain
    {
    }

    method EncryptECB(inp: array<uint8>, result: array<uint8>, pos: nat, ghost one: Run, ghost r1: Bytes,
                      ghost c1: Bytes)
      requires Placed(inp, result, pos) && one == EncTurn(Way(ECB, inp == result), Chain(), inp[pos..pos + m_blockSize])
      requires r1 == Put(result[..], pos, one.out) && c1 == Put(m_chain[..], 0, one.chain)
      modifies m_chain, t, a, result
      ensures result[..] == r1 && m_chain[..] == c1
    {
      hide *;
      AllApart(inp, result, pos);
      ghost var x, c, r, c0 := inp[pos..pos + m_blockSize], Chain(), result[..], m_chain[..];
      ECBTurns(inp == result, c, x);
      EncryptAnyBlock(inp, pos, result, pos);
      assert m_chain[..] == c0;
      PutSame(c0, m_blockSize);
    }

    method EncryptCBC(inp: array<uint8>, result: array<uint8>, pos: nat, ghost one: Run, ghost r1: Bytes,
                      ghost c1: Bytes)
      requires Placed(inp, result, pos) && one == EncTurn(Way(CBC, inp == result), Chain(), inp[pos..pos + m_blockSize])
      requires r1 == Put(result[..], pos, one.out) && c1 == Put(m_chain[..], 0, one.chain)
      modifies m_chain, t, a, result
      ensures result[..] == r1 && m_chain[..] == c1
    {
      hide *;
      AllApart(inp, result, pos);
      ghost var x, c, r, c0 := inp[pos..pos + m_blockSize], Chain(), result[..], m_chain[..];
      CBCTurns(inp == result, c, x);
      XorInto(m_chain, 0, inp, pos);
      PutRead(c0, 0, XorBytes(c, x));
      EncryptAnyBlock(m_chain, 0, result, pos);
      PutRead(r, pos, one.out);
      CopyChain(result, pos);
      PutPut(c0, 0, XorBytes(c, x), one.out);
    }

    method EncryptCFB(inp: array<uint8>, result: array<uint8>, pos: nat, ghost one: Run, ghost r1: Bytes,
                      ghost c1: Bytes)
      requires Placed(inp, result, pos) && one == EncTurn(Way(CFB, inp == result), Chain(), inp[pos..pos + m_blockSize])
      requires r1 == Put(result[..], pos, one.out) && c1 == Put(m_chain[..], 0, one.chain)
      modifies m_chain, t, a, result
      ensures result[..] == r1 && m_chain[..] == c1
    {
      hide *;
      AllApart(inp, result, pos);
      ghost var x, c, r, c0 := inp[pos..pos + m_blockSize], Chain(), result[..], m_chain[..];
      CFBTurns(inp == result, c, x);
      EncryptAnyBlock(m_chain, 0, result, pos);
      PutRead(r, pos, EncBytes(c));
      XorInto(result, pos, inp, pos);
      XorItself(EncBytes(c));
      PutPut(r, pos, EncBytes(c), one.out);
      PutRead(r, pos, one.out);
      CopyChain(result, pos);
    }

    method DecryptECB(inp: array<uint8>, result: array<uint8>, pos: nat, ghost one: Run, ghost r1: Bytes,
                      ghost c1: Bytes)
      requires Placed(inp, result, pos) && one == DecTurn(Way(ECB, inp == result), Chain(), inp[pos..pos + m_blockSize])
      requires r1 == Put(result[..], pos, one.out) && c1 == Put(m_chain[..], 0, one.chain)
      modifies m_chain, t, a, result
      ensures result[..] == r1 && m_chain[..] == c1
    {
      hide *;
      AllApart(inp, result, pos);
      ghost var x, c, r, c0 := inp[pos..pos + m_blockSize], Chain(), result[..], m_chain[..];
      ECBTurns(inp == result, c, x);
      DecryptAnyBlock(inp, pos, result, pos);
      assert m_chain[..] == c0;
      PutSame(c0, m_blockSize);
    }

    method DecryptCBC(inp: array<uint8>, result: array<uint8>, pos: nat, ghost one: Run, ghost r1: Bytes,
                      ghost c1: Bytes)
      requires Placed(inp, result, pos) && one == DecTurn(Way(CBC, inp == result), Chain(), inp[pos..pos + m_blockSize])
      requires r1 == Put(result[..], pos, one.out) && c1 == Put(m_chain[..], 0, one.chain)
      modifies m_chain, t, a, result
      ensures result[..] == r1 && m_chain[..] == c1
    {
      hide *;
      AllApart(inp, result, pos);
      ghost var x, c, r, c0 := inp[pos..pos + m_blockSize], Chain(), result[..], m_chain[..];
      CBCTurns(inp == result, c, x);
      DecryptAnyBlock(inp, pos, result, pos);
      PutRead(r, pos, DecBytes(x));
      XorInto(result, pos, m_chain, 0);
      PutPut(r, pos, DecBytes(x), one.out);
      PutRead(r, pos, one.out);
      CopyChain(inp, pos);
    }

    method DecryptCFB(inp: array<uint8>, result: array<uint8>, pos: nat, ghost one: Run, ghost r1: Bytes,
                      ghost c1: Bytes)
      requires Placed(inp, result, pos) && one == DecTurn(Way(CFB, inp == result), Chain(), inp[pos..pos + m_blockSize])
      requires r1 == Put(result[..], pos, one.out) && c1 == Put(m_chain[..], 0, one.chain)
      modifies m_chain, t, a, result
      ensures result[..] == r1 && m_chain[..] == c1
    {
      hide *;
      AllApart(inp, result, pos);
      ghost var x, c, r, c0 := inp[pos..pos + m_blockSize], Chain(), result[..], m_chain[..];
      CFBTurns(inp == result, c, x);
      EncryptAnyBlock(m_chain, 0, result, pos);
      PutRead(r, pos, EncBytes(c));
      XorInto(result, pos, inp, pos);
      XorItself(EncBytes(c));
      PutPut(r, pos, EncBytes(c), one.out);
      PutRead(r, pos, one.out);
      CopyChain(inp, pos);
    }

    lemma PlacedNext(inp: array<uint8>, result: array<uint8>, pos: nat)
      requires Placed(inp, result, 0) && pos + m_blockSize <= inp.Length && pos + m_blockSize <= result.Length
      ensures Placed(inp, result, pos)
    {
    }

    lemma PlacedFirst(inp: array<uint8>, result: array<uint8>, n: nat)
      requires Fit() && m_chain != inp && m_chain != result
      requires m_blockSize <= n <= inp.Length && n <= result.Length
      ensures Placed(inp, result, 0)
    {
    }

    /** What `Encrypt` and `Decrypt` answer to `n` bytes. */
    ghost function Refusal(n: nat): (e: Error)
      requires Valid()
      reads this, m_Ke, m_Kd
      ensures e == NoError ==> Fit()
    {
      if !m_bKeyInit then NotInitialized
      else if n == 0 || n % m_blockSize != 0 then NotMultipleOfBlockSize else NoError
    }

    lemma RefusalIs(n: nat)
      requires Valid()
      ensures m_bKeyInit ==> m_blockSize > 0
      ensures Refusal(n) == if !m_bKeyInit then NotInitialized
                            else if n == 0 || n % m_blockSize != 0 then NotMultipleOfBlockSize else NoError
    {
    }

    /** One turn of the loop of Encrypt. */
    method EncryptAt(inp: array<uint8>, result: array<uint8>, pos: nat, mode: Mode, ghost next: nat,
                     ghost e: Bytes -> Bytes, ghost c0: Bytes, ghost r0: Bytes, ghost x: Bytes)
      requires Placed(inp, result, pos) && next == pos + m_blockSize <= |x| <= inp.Length && Rest(inp, pos, x)
      requires e == Enc()
      requires EncSoFar(Way(mode, inp == result), e, c0, r0, x, m_blockSize, pos, m_chain[..], result[..])
      modifies m_chain, t, a, result
      ensures Rest(inp, next, x)
      ensures EncSoFar(Way(mode, inp == result), e, c0, r0, x, m_blockSize, next, m_chain[..], result[..])
    {
      hide *;
      AllApart(inp, result, pos);
      ghost var c, block := Chain(), inp[pos..pos + m_blockSize];
      ghost var was := inp[..];
      RestMeans(inp, pos, m_blockSize, x);
      ghost var one := EncTurn(Way(mode, inp == result), c, block);
      EncTurnIs(Way(mode, inp == result), c, block);
      assert m_chain[..][..m_blockSize] == c;
      EncSoFarNext(Way(mode, inp == result), e, c0, r0, x, m_blockSize, pos, m_chain[..], result[..], one);
      EncryptNext(inp, result, pos, mode, one, Put(result[..], pos, one.out), Put(m_chain[..], 0, one.chain));
      RestNext(inp, was, pos, one.out, x);
    }

    method EncryptNext(inp: array<uint8>, result: array<uint8>, pos: nat, mode: Mode, ghost one: Run, ghost r1: Bytes,
                       ghost c1: Bytes)
      requires Placed(inp, result, pos)
      requires one == EncTurn(Way(mode, inp == result), Chain(), inp[pos..pos + m_blockSize])
      requires r1 == Put(result[..], pos, one.out) && c1 == Put(m_chain[..], 0, one.chain)
      modifies m_chain, t, a, result
      ensures result[..] == r1 && m_chain[..] == c1
    {
      hide *;
      match mode
      case CBC => EncryptCBC(inp, result, pos, one, r1, c1);
      case CFB => EncryptCFB(inp, result, pos, one, r1, c1);
      case ECB => EncryptECB(inp, result, pos, one, r1, c1);
    }

    /** The loops of Encrypt; the mode is the same in every turn. */
    method EncryptBlocks(inp: array<uint8>, result: array<uint8>, n: nat, mode: Mode)
      requires Placed(inp, result, 0) && n % m_blockSize == 0 && m_blockSize <= n <= inp.Length && n <= result.Length
      modifies m_chain, t, a, result
      ensures Fit()
      ensures EncSoFar(Way(mode, inp == result), Enc(), old(m_chain[..]), old(result[..]), old(inp[..n]),
                       m_blockSize, n, m_chain[..], result[..])
    {
      hide *;
      AllApart(inp, result, 0);
      ghost var c0, r0, x, e := m_chain[..], result[..], inp[..n], Enc();
      RestStarts(inp, n);
      EncSoFarStarts(Way(mode, inp == result), e, c0, r0, x, m_blockSize);
      var pos := 0;
      BlocksDone(n, m_blockSize);
      for i := 0 to n / m_blockSize
        invariant pos == i * m_blockSize && Rest(inp, pos, x)
        invariant EncSoFar(Way(mode, inp == result), e, c0, r0, x, m_blockSize, pos, m_chain[..], result[..])
      {
        BlockFits(i, n, m_blockSize);
        PlacedNext(inp, result, pos);
        EncryptAt(inp, result, pos, mode, pos + m_blockSize, e, c0, r0, x);
        pos := pos + m_blockSize;
      }
    }

    method Encrypt(inp: array<uint8>, result: array<uint8>, n: nat, mode: Mode) returns (e: Error)
      requires Valid() && m_chain != inp && m_chain != result
      requires m_bKeyInit ==> n <= inp.Length && n <= result.Length
      modifies m_chain, t, a, result
      ensures e == Refusal(n)
      ensures e != NoError ==> unchanged(m_chain, t, a, result)
      ensures e == NoError ==> m_bKeyInit && Fit()
      ensures e == NoError ==>
              EncSoFar(Way(mode, inp == result), Enc(), old(m_chain[..]), old(result[..]), old(inp[..n]),
                       m_blockSize, n, m_chain[..], result[..])
    {
      hide *;
      RefusalIs(n);
      if !m_bKeyInit { return NotInitialized; }
      if n == 0 || n % m_blockSize != 0 { return NotMultipleOfBlockSize; }
      EnoughForOne(n, m_blockSize);
      PlacedFirst(inp, result, n);
      EncryptBlocks(inp, result, n, mode);
      return NoError;
    }

    /** One turn of the loop of Decrypt. */
    method DecryptAt(inp: array<uint8>, result: array<uint8>, pos: nat, mode: Mode, ghost next: nat,
                     ghost e: Bytes -> Bytes, ghost d: Bytes -> Bytes, ghost c0: Bytes, ghost r0: Bytes, ghost x: Bytes)
      requires Placed(inp, result, pos) && next == pos + m_blockSize <= |x| <= inp.Length && Rest(inp, pos, x)
      requires e == Enc() && d == Dec()
      requires DecSoFar(Way(mode, inp == result), e, d, c0, r0, x, m_blockSize, pos, m_chain[..], result[..])
      modifies m_chain, t, a, result
      ensures Rest(inp, next, x)
      ensures DecSoFar(Way(mode, inp == result), e, d, c0, r0, x, m_blockSize, next, m_chain[..], result[..])
    {
      hide *;
      AllApart(inp, result, pos);
      ghost var c, block := Chain(), inp[pos..pos + m_blockSize];
      ghost var was := inp[..];
      RestMeans(inp, pos, m_blockSize, x);
      ghost var one := DecTurn(Way(mode, inp == result), c, block);
      DecTurnIs(Way(mode, inp == result), c, block);
      assert m_chain[..][..m_blockSize] == c;
      DecSoFarNext(Way(mode, inp == result), e, d, c0, r0, x, m_blockSize, pos, m_chain[..], result[..], one);
      DecryptNext(inp, result, pos, mode, one, Put(result[..], pos, one.out), Put(m_chain[..], 0, one.chain));
      RestNext(inp, was, pos, one.out, x);
    }

    method DecryptNext(inp: array<uint8>, result: array<uint8>, pos: nat, mode: Mode, ghost one: Run, ghost r1: Bytes,
                       ghost c1: Bytes)
      requires Placed(inp, result, pos)
      requires one == DecTurn(Way(mode, inp == result), Chain(), inp[pos..pos + m_blockSize])
      requires r1 == Put(result[..], pos, one.out) && c1 == Put(m_chain[..], 0, one.chain)
      modifies m_chain, t, a, result
      ensures result[..] == r1 && m_chain[..] == c1
    {
      hide *;
      match mode
      case CBC => DecryptCBC(inp, result, pos, one, r1, c1);
      case CFB => DecryptCFB(inp, result, pos, one, r1, c1);
      case ECB => DecryptECB(inp, result, pos, one, r1, c1);
    }

    /** The loops of Decrypt; the mode is the same in every turn. */
    method DecryptBlocks(inp: array<uint8>, result: array<uint8>, n: nat, mode: Mode)
      requires Placed(inp, result, 0) && n % m_blockSize == 0 && m_blockSize <= n <= inp.Length && n <= result.Length
      modifies m_chain, t, a, result
      ensures Fit()
      ensures DecSoFar(Way(mode, inp == result), Enc(), Dec(), old(m_chain[..]), old(result[..]), old(inp[..n]),
                       m_blockSize, n, m_chain[..], result[..])
    {
      hide *;
      AllApart(inp, result, 0);
      ghost var c0, r0, x, e, d := m_chain[..], result[..], inp[..n], Enc(), Dec();
      RestStarts(inp, n);
      DecSoFarStarts(Way(mode, inp == result), e, d, c0, r0, x, m_blockSize);
      var pos := 0;
      BlocksDone(n, m_blockSize);
      for i := 0 to n / m_blockSize
        invariant pos == i * m_blockSize && Rest(inp, pos, x)
        invariant DecSoFar(Way(mode, inp == result), e, d, c0, r0, x, m_blockSize, pos, m_chain[..], result[..])
      {
        BlockFits(i, n, m_blockSize);
        PlacedNext(inp, result, pos);
        DecryptAt(inp, result, pos, mode, pos + m_blockSize, e, d, c0, r0, x);
        pos := pos + m_blockSize;
      }
    }

    method Decrypt(inp: array<uint8>, result: array<uint8>, n: nat, mode: Mode) returns (e: Error)
      requires Valid() && m_chain != inp && m_chain != result
      requires m_bKeyInit ==> n <= inp.Length && n <= result.Length
      modifies m_chain, t, a, result
      ensures e == Refusal(n)
      ensures e != NoError ==> unchanged(m_chain, t, a, result)
      ensures e == NoError ==> m_bKeyInit && Fit()
      ensures e == NoError ==>
              DecSoFar(Way(mode, inp == result), Enc(), Dec(), old(m_chain[..]), old(result[..]), old(inp[..n]),
                       m_blockSize, n, m_chain[..], result[..])
    {
      hide *;
      RefusalIs(n);
      if !m_bKeyInit { return NotInitialized; }
      if n == 0 || n % m_blockSize != 0 { return NotMultipleOfBlockSize; }
      EnoughForOne(n, m_blockSize);
      PlacedFirst(inp, result, n);
      DecryptBlocks(inp, result, n, mode);
      return NoError;
    }

    /** `Encrypt`, said of the whole message. */
    method EncryptWhole(inp: array<uint8>, result: array<uint8>, n: nat, mode: Mode, ghost chain: Bytes)
      returns (e: Error)
      requires Started(chain) && m_chain !in {inp, result} && n <= inp.Length && n <= result.Length
      modifies m_chain, t, a, result
      ensures e == if n == 0 || n % |chain| != 0 then NotMultipleOfBlockSize else NoError
      ensures Fit()
      ensures e == NoError ==> Begins(result, Encrypted(Way(mode, inp == result), Enc(), chain, old(inp[..n])))
    {
      hide *;
      ghost var x, c0, r0 := inp[..n], m_chain[..], result[..];
      StartedMeans(chain, n);
      e := Encrypt(inp, result, n, mode);
      if e == NoError {
        EncDone(Way(mode, inp == result), Enc(), c0, r0, x, m_blockSize, m_chain[..], result[..]);
        BeginsWith(result, n);
      }
    }

    /** `Decrypt`, said of the whole message. */
    method DecryptWhole(inp: array<uint8>, result: array<uint8>, n: nat, mode: Mode, ghost chain: Bytes)
      returns (e: Error)
      requires Started(chain) && m_chain !in {inp, result} && n <= inp.Length && n <= result.Length
      modifies m_chain, t, a, result
      ensures e == if n == 0 || n % |chain| != 0 then NotMultipleOfBlockSize else NoError
      ensures Fit()
      ensures e == NoError ==> Begins(result, Decrypted(Way(mode, inp == result), Enc(), Dec(), chain, old(inp[..n])))
    {
      hide *;
      ghost var x, c0, r0 := inp[..n], m_chain[..], result[..];
      StartedMeans(chain, n);
      e := Decrypt(inp, result, n, mode);
      if e == NoError {
        DecDone(Way(mode, inp == result), Enc(), Dec(), c0, r0, x, m_blockSize, m_chain[..], result[..]);
        BeginsWith(result, n);
      }
    }

    /** Encryption, and back. */
    method BothWays(plain: array<uint8>, secret: array<uint8>, back: array<uint8>, n: nat, mode: Mode,
                    ghost chain: Bytes)
      returns (e: Error)
      requires Started(chain) && Initial(chain) && (mode.CFB? || box.Inverse())
      requires plain != secret && secret != back && n <= plain.Length && n <= secret.Length && n <= back.Length
      requires {m_chain, m_chain0} !! {plain, secret, back}
      modifies m_chain, t, a, secret, back
      ensures e == if n == 0 || n % |chain| != 0 then NotMultipleOfBlockSize else NoError
      ensures e == NoError ==> Begins(back, old(plain[..n]))
    {
      hide *;
      ghost var x := plain[..n];
      StartedMeans(chain, n);
      WordArrays(m_chain0);
      e := EncryptWhole(plain, secret, n, mode, chain);
      if e != NoError { return; }
      e := BackAgain(secret, back, n, mode, chain, x);
    }

    ghost predicate Initial(chain: Bytes)
      reads this, m_chain0
    {
      |chain| <= m_chain0.Length && m_chain0[..|chain|] == chain
    }

    lemma InitialMeans(chain: Bytes)
      requires Initial(chain)
      ensures |chain| <= m_chain0.Length && m_chain0[..|chain|] == chain
    {
    }

    /** The chain reset, and what encryption gave of `x` decrypted. */
    method BackAgain(secret: array<uint8>, back: array<uint8>, n: nat, mode: Mode, ghost chain: Bytes, ghost x: Bytes)
      returns (e: Error)
      requires Valid() && m_bKeyInit && Fit() && |chain| == m_blockSize && Initial(chain)
      requires (mode.CFB? || box.Inverse())
      requires Begins(secret, Encrypted(Way(mode, false), Enc(), chain, x)) && n == |x| <= back.Length
      requires n != 0 && n % |chain| == 0 && secret != back && {m_chain, m_chain0} !! {secret, back}
      modifies m_chain, t, a, back
      ensures e == NoError && Begins(back, x)
    {
      hide *;
      ghost var y, c := Encrypted(Way(mode, false), Enc(), chain, x), m_chain[..];
      BlocksUndone();
      ChainFits();
      InitialMeans(chain);
      BeginsMeans(secret, y);
      ResetChain();
      PutStart(c, chain);
      RestartMeans(chain);
      e := DecryptWhole(secret, back, n, mode, chain);
      RoundTripOf(mode, Enc(), Dec(), chain, x);
    }

    lemma RestartMeans(chain: Bytes)
      requires Valid() && m_bKeyInit && m_chain[..][..m_blockSize] == chain
      ensures Started(chain)
    {
    }

    /** Keys are made and the chain is `chain`. */
    ghost predicate Started(chain: Bytes)
      reads this, m_Ke, m_Kd, m_chain
    {
      Valid() && m_bKeyInit && m_chain[..m_blockSize] == chain
    }

    lemma StartedMeans(chain: Bytes, n: nat)
      requires Started(chain)
      ensures Valid() && Shapes() && m_bKeyInit && Fit() && |chain| == m_blockSize && 16 <= m_blockSize <= 32
      ensures m_chain[..][..m_blockSize] == chain
      ensures Refusal(n) == if n == 0 || n % |chain| != 0 then NotMultipleOfBlockSize else NoError
    {
    }

    lemma KeyMade(chain: Bytes)
      requires Shapes() && m_bKeyInit && Ready() && m_chain[..m_blockSize] == m_chain0[..m_blockSize] == chain
      ensures Started(chain) && Initial(chain)
    {
    }

    lemma BlocksUndone()
      requires Valid() && m_bKeyInit
      ensures Fit() && (box.Inverse() ==> Undoes(Dec(), Enc(), m_blockSize))
    {
      Sizes();
      hide *;
      if box.Inverse() {
        DecUndoesEnc();
      }
    }

    /** The arrays of words are no arrays of bytes. */
    lemma WordArrays(x: array<uint8>)
      requires Shapes()
      ensures (m_Ke as object) != x && (m_Kd as object) != x && (this as object) != x && m_chain0.Length == 32
      ensures x.Length != 8 ==> (t as object) != x && (a as object) != x && (tk as object) != x
    {
    }
  }

  /** `b` begins with `x`. */
  ghost predicate Begins(b: array<uint8>, x: Bytes)
    reads b
  {
    |x| <= b.Length && b[..|x|] == x
  }

  lemma BeginsMeans(b: array<uint8>, x: Bytes)
    requires Begins(b, x)
    ensures |x| <= b.Length && b[..|x|] == x
  {
  }

  lemma BeginsWith(b: array<uint8>, n: nat)
    requires n <= b.Length
    ensures Begins(b, b[..][..n]) && |b[..][..n]| == n
  {
  }

  /** A key, a message encrypted, the chain reset, and the message decrypted: it is back, and refused only
      if it is empty or no whole number of blocks. */
  method ThereAndBack(cipher: CRijndael, key: Bytes, chain: Bytes, mode: Mode, plain: array<uint8>, n: nat,
                      secret: array<uint8>, back: array<uint8>) returns (e: Error)
    requires cipher.Shapes() && Length(|key|) && Length(|chain|) && (mode.CFB? || cipher.box.Inverse())
    requires plain != secret && secret != back && n <= plain.Length && n <= secret.Length && n <= back.Length
    requires {cipher.m_chain, cipher.m_chain0} !! {plain, secret, back}
    modifies cipher, cipher.m_Ke, cipher.m_Kd, cipher.m_chain0, cipher.m_chain, cipher.tk, cipher.t, cipher.a
    modifies secret, back
    ensures e == if n == 0 || n % |chain| != 0 then NotMultipleOfBlockSize else NoError
    ensures e == NoError ==> Begins(back, old(plain[..n]))
  {
    ghost var x := plain[..n];
    cipher.WordArrays(plain);
    AtLeastOne(n, |chain|);
    hide *;
    e := cipher.MakeKey(B.Some(key), chain, |key|, |chain|);
    assert |chain| <= n ==> plain[..n] == x;
    cipher.KeyMade(chain);
    e := cipher.BothWays(plain, secret, back, n, mode, chain);
  }

  lemma AtLeastOne(n: nat, bs: nat)
    requires Length(bs)
    ensures 16 <= bs && (n != 0 && n % bs == 0 ==> bs <= n)
  {
  }

  /** The output of a whole message; the message itself where its length is none. */
  ghost function Encrypted(m: Way, e: Bytes -> Bytes, chain: Bytes, x: Bytes): (y: Bytes)
    ensures |y| == |x|
  {
    if |chain| > 0 && OnBlocks(e, |chain|) && Whole(|x|, |chain|) then EncryptAll(m, e, chain, x).out else x
  }

  ghost function Decrypted(m: Way, e: Bytes -> Bytes, d: Bytes -> Bytes, chain: Bytes, y: Bytes): (x: Bytes)
    ensures |x| == |y|
  {
    if |chain| > 0 && OnBlocks(e, |chain|) && OnBlocks(d, |chain|) && Whole(|y|, |chain|)
    then DecryptAll(m, e, d, chain, y).out else y
  }

  lemma EncDone(m: Way, e: Bytes -> Bytes, c0: Bytes, r0: Bytes, x: Bytes, bs: nat, c: Bytes, r: Bytes)
    requires EncSoFar(m, e, c0, r0, x, bs, |x|, c, r)
    ensures Whole(|x|, bs) && r[..|x|] == Encrypted(m, e, c0[..bs], x)
  {
    assert x[..|x|] == x;
    var all := EncryptAll(m, e, c0[..bs], x);
    PutStart(r0, all.out);
    hide Put, EncryptAll, OnBlocks, Whole;
  }

  lemma DecDone(m: Way, e: Bytes -> Bytes, d: Bytes -> Bytes, c0: Bytes, r0: Bytes, y: Bytes, bs: nat, c: Bytes,
                r: Bytes)
    requires DecSoFar(m, e, d, c0, r0, y, bs, |y|, c, r)
    ensures r[..|y|] == Decrypted(m, e, d, c0[..bs], y)
  {
    assert y[..|y|] == y;
    var all := DecryptAll(m, e, d, c0[..bs], y);
    PutStart(r0, all.out);
    hide Put, DecryptAll, OnBlocks, Whole;
  }

  lemma RoundTripOf(m: Mode, e: Bytes -> Bytes, d: Bytes -> Bytes, chain: Bytes, x: Bytes)
    requires |chain| > 0 && OnBlocks(e, |chain|) && OnBlocks(d, |chain|) && (m.CFB? || Undoes(d, e, |chain|))
    ensures Decrypted(Way(m, false), e, d, chain, Encrypted(Way(m, false), e, chain, x)) == x
  {
    if Whole(|x|, |chain|) {
      ModesRoundTrip(m, e, d, chain, x);
    }
    hide EncryptAll, DecryptAll, OnBlocks, Whole, Undoes;
  }

  /** `before` with `y` written over it at `at`. */
  ghost function Put(before: Bytes, at: nat, y: Bytes): (r: Bytes)
    requires at + |y| <= |before|
    ensures |r| == |before|
  {
    before[..at] + y + before[at + |y|..]
  }

  ghost function CipherOn(b: Boxes, ks: seq<State>, rounds: nat, bs: nat): (f: Bytes -> Bytes)
    requires bs % 4 == 0 && Keys(ks, rounds, bs / 4)
    ensures OnBlocks(f, bs)
    ensures forall x: Bytes | |x| == bs :: f(x) == Unpack(Cipher(b, ks, rounds, Pack(x)))
  {
    (x: Bytes) => if |x| == bs then Unpack(Cipher(b, ks, rounds, Pack(x))) else x
  }

  ghost function InvCipherOn(b: Boxes, ks: seq<State>, rounds: nat, bs: nat): (f: Bytes -> Bytes)
    requires bs % 4 == 0 && Keys(ks, rounds, bs / 4)
    ensures OnBlocks(f, bs)
    ensures forall x: Bytes | |x| == bs :: f(x) == Unpack(InvCipher(b, ks, rounds, Pack(x)))
  {
    (x: Bytes) => if |x| == bs then Unpack(InvCipher(b, ks, rounds, Pack(x))) else x
  }

  /** Column `i` of `y` joins the earlier ones. */
  lemma ColumnWritten(before: Bytes, at: nat, y: State, i: nat, was: Bytes)
    requires i < |y| && at + 4 * |y| <= |before| && was == before[..at] + Unpack(y[..i]) + before[at + 4 * i..]
    ensures var j := at + 4 * i;
            was[..j] + [y[i].b0, y[i].b1, y[i].b2, y[i].b3] + was[j + 4..] ==
            before[..at] + Unpack(y[..i + 1]) + before[at + 4 * (i + 1)..]
  {
    UnpackNext(y, i);
    hide Unpack;
    var j := at + 4 * i;
    assert was[..j] == before[..at] + Unpack(y[..i]);
    assert was[j + 4..] == before[j + 4..];
  }

  ghost function XoredUpTo(b: Bytes, at: nat, c: Bytes, i: nat): (r: Bytes)
    requires i <= |c| && at + |c| <= |b|
    ensures |r| == |b|
  {
    seq(|b|, k requires 0 <= k < |b| => if at <= k < at + i then b[k] ^ c[k - at] else b[k])
  }

  lemma XoredNone(b: Bytes, at: nat, c: Bytes)
    requires at + |c| <= |b|
    ensures XoredUpTo(b, at, c, 0) == b
  {
  }

  lemma XoredNext(b: Bytes, at: nat, c: Bytes, i: nat)
    requires i < |c| && at + |c| <= |b|
    ensures var r := XoredUpTo(b, at, c, i);
            r[at + i] == b[at + i] && XoredUpTo(b, at, c, i + 1) == r[at + i := b[at + i] ^ c[i]]
  {
  }

  lemma AllXored(b: Bytes, at: nat, c: Bytes)
    requires at + |c| <= |b|
    ensures XoredUpTo(b, at, c, |c|) == Put(b, at, XorBytes(b[at..at + |c|], c))
  {
  }

  lemma XorItself(y: Bytes)
    ensures XorBytes(y, y) == Zeros(|y|)
  {
    forall i | 0 <= i < |y|
      ensures y[i] ^ y[i] == 0
    {
    }
  }

  lemma PutRead(b: Bytes, at: nat, y: Bytes)
    requires at + |y| <= |b|
    ensures Put(b, at, y)[at..at + |y|] == y
  {
  }

  /** From `pos` on, `b` holds what `x` holds. */
  ghost predicate Rest(b: array<uint8>, pos: nat, x: Bytes)
    reads b
  {
    pos <= |x| <= b.Length && b[pos..|x|] == x[pos..]
  }

  lemma RestStarts(b: array<uint8>, n: nat)
    requires n <= b.Length
    ensures Rest(b, 0, b[..n])
  {
  }

  lemma RestMeans(b: array<uint8>, pos: nat, k: nat, x: Bytes)
    requires Rest(b, pos, x) && pos + k <= |x|
    ensures b[pos..pos + k] == x[pos..pos + k] && b[..][pos..|x|] == x[pos..]
  {
    assert b[pos..|x|][..k] == b[pos..pos + k];
  }

  /** Writing a block leaves what stands behind it. */
  lemma RestNext(b: array<uint8>, was: Bytes, pos: nat, y: Bytes, x: Bytes)
    requires pos + |y| <= |x| <= |was| == b.Length && was[pos..|x|] == x[pos..]
    requires b[..] == was || b[..] == Put(was, pos, y)
    ensures Rest(b, pos + |y|, x)
  {
    var k := pos + |y|;
    assert was[pos..|x|][|y|..] == was[k..|x|] && x[pos..][|y|..] == x[k..];
    assert Put(was, pos, y)[k..|x|] == was[k..|x|];
    assert b[k..|x|] == b[..][k..|x|];
  }

  lemma StoredNext(x: Bytes, was: Bytes, i: nat)
    requires i < |x| <= |was|
    ensures (x[..i] + was[i..])[i := x[i]] == x[..i + 1] + was[i + 1..]
  {
  }

  lemma PutFront(was: Bytes, x: Bytes)
    requires |x| <= |was|
    ensures x[..|x|] + was[|x|..] == Put(was, 0, x)
  {
  }

  lemma PutStart(b: Bytes, y: Bytes)
    requires |y| <= |b|
    ensures Put(b, 0, y)[..|y|] == y
  {
  }

  lemma PutSame(b: Bytes, n: nat)
    requires n <= |b|
    ensures Put(b, 0, b[..n]) == b
  {
  }

  lemma PutPut(b: Bytes, at: nat, y: Bytes, z: Bytes)
    requires at + |y| <= |b| && |y| == |z|
    ensures Put(Put(b, at, y), at, z) == Put(b, at, z)
  {
  }

  lemma PutNext(b: Bytes, y: Bytes, z: Bytes)
    requires |y| + |z| <= |b|
    ensures Put(Put(b, 0, y), |y|, z) == Put(b, 0, y + z)
  {
  }

  /** With `pos` bytes of `x` done from chain `c0` and output `r0`, the chain is `c` and the output `r`. */
  ghost predicate EncSoFar(m: Way, e: Bytes -> Bytes, c0: Bytes, r0: Bytes, x: Bytes, bs: nat, pos: nat, c: Bytes,
                           r: Bytes)
    ensures EncSoFar(m, e, c0, r0, x, bs, pos, c, r) ==> 0 < bs <= |c0| == |c| && pos <= |x| <= |r0| == |r|
  {
    && 0 < bs <= |c0| && pos <= |x| <= |r0| && OnBlocks(e, bs) && Whole(pos, bs)
    && var all := EncryptAll(m, e, c0[..bs], x[..pos]);
    c == Put(c0, 0, all.chain) && r == Put(r0, 0, all.out)
  }

  lemma EncSoFarStarts(m: Way, e: Bytes -> Bytes, c0: Bytes, r0: Bytes, x: Bytes, bs: nat)
    requires 0 < bs <= |c0| && |x| <= |r0| && OnBlocks(e, bs)
    ensures EncSoFar(m, e, c0, r0, x, bs, 0, c0, r0)
  {
    hide OnBlocks;
    PutSame(c0, bs);
    PutSame(r0, 0);
    assert x[..0] == [] && r0[..0] == [];
    hide Put;
  }

  lemma EncSoFarMeans(m: Way, e: Bytes -> Bytes, c0: Bytes, r0: Bytes, x: Bytes, bs: nat, pos: nat,
                    c: Bytes, r: Bytes) returns (all: Run)
    requires EncSoFar(m, e, c0, r0, x, bs, pos, c, r)
    ensures 0 < bs <= |c0| && pos <= |x| <= |r0| && OnBlocks(e, bs) && Whole(pos, bs)
    ensures all == EncryptAll(m, e, c0[..bs], x[..pos]) && |all.out| == pos && |all.chain| == bs
    ensures c == Put(c0, 0, all.chain) && r == Put(r0, 0, all.out)
  {
    all := EncryptAll(m, e, c0[..bs], x[..pos]);
    hide OnBlocks, Put, Whole, EncryptAll;
  }

  lemma EncSoFarNext(m: Way, e: Bytes -> Bytes, c0: Bytes, r0: Bytes, x: Bytes, bs: nat, pos: nat, c: Bytes, r: Bytes,
                     one: Run)
    requires EncSoFar(m, e, c0, r0, x, bs, pos, c, r) && OnBlocks(e, bs) && pos + bs <= |x|
    requires one == EncryptOne(m, e, c[..bs], x[pos..pos + bs])
    ensures EncSoFar(m, e, c0, r0, x, bs, pos + bs, Put(c, 0, one.chain), Put(r, pos, one.out))
  {
    var block := x[pos..pos + bs];
    var all := EncSoFarMeans(m, e, c0, r0, x, bs, pos, c, r);
    hide OnBlocks, EncryptAll, EncryptOne, Put, Whole;
    PutStart(c0, all.chain);
    EncryptLast(m, e, c0[..bs], x[..pos], block);
    NextBlock(x, pos, bs);
    PutPut(c0, 0, all.chain, one.chain);
    PutNext(r0, all.out, one.out);
  }

  /** With `pos` bytes of `x` done from chain `c0` and output `r0`, the chain is `c` and the output `r`. */
  ghost predicate DecSoFar(m: Way, e: Bytes -> Bytes, d: Bytes -> Bytes, c0: Bytes, r0: Bytes, x: Bytes, bs: nat,
                           pos: nat, c: Bytes, r: Bytes)
    ensures DecSoFar(m, e, d, c0, r0, x, bs, pos, c, r) ==> 0 < bs <= |c0| == |c| && pos <= |x| <= |r0| == |r|
  {
    && 0 < bs <= |c0| && pos <= |x| <= |r0| && OnBlocks(e, bs) && OnBlocks(d, bs) && Whole(pos, bs)
    && var all := DecryptAll(m, e, d, c0[..bs], x[..pos]);
    c == Put(c0, 0, all.chain) && r == Put(r0, 0, all.out)
  }

  lemma DecSoFarStarts(m: Way, e: Bytes -> Bytes, d: Bytes -> Bytes, c0: Bytes, r0: Bytes, x: Bytes, bs: nat)
    requires 0 < bs <= |c0| && |x| <= |r0| && OnBlocks(e, bs) && OnBlocks(d, bs)
    ensures DecSoFar(m, e, d, c0, r0, x, bs, 0, c0, r0)
  {
    hide OnBlocks;
    PutSame(c0, bs);
    PutSame(r0, 0);
    assert x[..0] == [] && r0[..0] == [];
    hide Put;
  }

  lemma DecSoFarMeans(m: Way, e: Bytes -> Bytes, d: Bytes -> Bytes, c0: Bytes, r0: Bytes, x: Bytes, bs: nat, pos: nat,
                    c: Bytes, r: Bytes) returns (all: Run)
    requires DecSoFar(m, e, d, c0, r0, x, bs, pos, c, r)
    ensures 0 < bs <= |c0| && pos <= |x| <= |r0| && OnBlocks(e, bs) && OnBlocks(d, bs) && Whole(pos, bs)
    ensures all == DecryptAll(m, e, d, c0[..bs], x[..pos]) && |all.out| == pos && |all.chain| == bs
    ensures c == Put(c0, 0, all.chain) && r == Put(r0, 0, all.out)
  {
    all := DecryptAll(m, e, d, c0[..bs], x[..pos]);
    hide OnBlocks, Put, Whole, DecryptAll;
  }

  lemma DecSoFarNext(m: Way, e: Bytes -> Bytes, d: Bytes -> Bytes, c0: Bytes, r0: Bytes, x: Bytes, bs: nat, pos: nat,
                     c: Bytes, r: Bytes, one: Run)
    requires DecSoFar(m, e, d, c0, r0, x, bs, pos, c, r) && OnBlocks(e, bs) && OnBlocks(d, bs) && pos + bs <= |x|
    requires one == DecryptOne(m, e, d, c[..bs], x[pos..pos + bs])
    ensures DecSoFar(m, e, d, c0, r0, x, bs, pos + bs, Put(c, 0, one.chain), Put(r, pos, one.out))
  {
    var block := x[pos..pos + bs];
    var all := DecSoFarMeans(m, e, d, c0, r0, x, bs, pos, c, r);
    hide OnBlocks, DecryptAll, DecryptOne, Put, Whole;
    PutStart(c0, all.chain);
    DecryptLast(m, e, d, c0[..bs], x[..pos], block);
    NextBlock(x, pos, bs);
    PutPut(c0, 0, all.chain, one.chain);
    PutNext(r0, all.out, one.out);
  }

  lemma NextBlock(x: Bytes, pos: nat, bs: nat)
    requires pos + bs <= |x|
    ensures x[..pos + bs] == x[..pos] + x[pos..pos + bs]
  {
  }

  lemma EnoughForOne(n: nat, bs: nat)
    requires bs > 0 && n > 0 && n % bs == 0
    ensures bs <= n
  {
  }

  lemma BlocksDone(n: nat, bs: nat)
    requires bs > 0 && n % bs == 0
    ensures n / bs * bs == n
  {
  }

  lemma BlockFits(i: nat, n: nat, bs: nat)
    requires bs > 0 && n % bs == 0 && i < n / bs
    ensures i * bs >= 0 && (i + 1) * bs == i * bs + bs <= n
  {
    MulMonotonic(i + 1, n / bs, bs);
  }

  lemma UnpackNext(y: State, i: nat)
    requires i < |y|
    ensures Unpack(y[..i + 1]) == Unpack(y[..i]) + [y[i].b0, y[i].b1, y[i].b2, y[i].b3]
  {
  }

  lemma BeforeEnd(r: nat, j: nat, rounds: nat, n: nat)
    requires r <= rounds && j < n
    ensures At(r, j, n) < At(rounds + 1, 0, n)
  {
    MulMonotonic(r + 1, rounds + 1, n);
  }

  lemma CountBound(rows: nat, bc: nat, kc: nat)
    requires BlockWords(bc) && KeyWords(kc) && 0 < rows <= 15
    ensures At(0, 0, kc) == 0 < At(rows, 0, bc) <= At(30, 0, kc)
  {
    assert At(30, 0, kc) >= 120;
    RowsBound(rows, bc);
    hide At;
    assert At(0, 0, kc) == 0 by { AtSteps(0, 0, kc); }
  }

  lemma RowsBound(rows: nat, bc: nat)
    requires BlockWords(bc) && 0 < rows <= 15
    ensures 0 < At(rows, 0, bc) <= 120
  {
    MulMonotonic(rows, 15, bc);
    MulMonotonic(1, rows, bc);
  }

  lemma GroupBound(r: nat, kc: nat, count: nat)
    requires KeyWords(kc) && At(r, 0, kc) < count <= At(30, 0, kc)
    ensures r < 30
  {
    MulMonotonic(30, r, kc);
  }

  lemma RowInRange(r: nat, j: nat, rounds: nat, n: nat)
    requires At(r, j, n) < At(rounds + 1, 0, n)
    ensures r <= rounds
  {
    MulMonotonic(rounds + 1, r, n);
  }

  lemma MulMonotonic(a: nat, b: nat, n: nat)
    ensures a <= b ==> a * n <= b * n
  {
  }
}
