/** Bytes as elements of GF(2^8), and 32-bit words as four of them, most significant first. */
module RijndaelField {

  type uint8 = bv8

  datatype Word = Word(b0: uint8, b1: uint8, b2: uint8, b3: uint8)

  function Add(a: uint8, b: uint8): uint8 { a ^ b }

  function Xor(v: Word, w: Word): Word {
    Word(Add(v.b0, w.b0), Add(v.b1, w.b1), Add(v.b2, w.b2), Add(v.b3, w.b3))
  }

  /** Multiplication by x, modulo x^8 + x^4 + x^3 + x + 1. */
  function X2(a: uint8): uint8 {
    Add(Twice(a), Carry(a))
  }

  function Twice(a: uint8): uint8 { a << 1 }

  function Carry(a: uint8): uint8 {
    if a & 0x80 != 0 then 0x1b else 0
  }

  function X3(a: uint8): uint8 { Add(X2(a), a) }
  function X8(a: uint8): uint8 { X2(X2(X2(a))) }
  function X9(a: uint8): uint8 { Add(X8(a), a) }
  function X11(a: uint8): uint8 { Add(X9(a), X2(a)) }
  function X13(a: uint8): uint8 { Add(X9(a), X2(X2(a))) }
  function X14(a: uint8): uint8 { Add(X8(a), Add(X2(X2(a)), X2(a))) }

  // The columns of MixColumn and of its inverse; the latter are the tables U1 to U4.
  function C1(a: uint8): Word { Word(X2(a), a, a, X3(a)) }
  function C2(a: uint8): Word { Word(X3(a), X2(a), a, a) }
  function C3(a: uint8): Word { Word(a, X3(a), X2(a), a) }
  function C4(a: uint8): Word { Word(a, a, X3(a), X2(a)) }
  function U1(a: uint8): Word { Word(X14(a), X9(a), X13(a), X11(a)) }
  function U2(a: uint8): Word { Word(X11(a), X14(a), X9(a), X13(a)) }
  function U3(a: uint8): Word { Word(X13(a), X11(a), X14(a), X9(a)) }
  function U4(a: uint8): Word { Word(X9(a), X13(a), X11(a), X14(a)) }

  function Mix(w: Word): Word {
    Xor(Xor(Xor(C1(w.b0), C2(w.b1)), C3(w.b2)), C4(w.b3))
  }

  function InvMix(w: Word): Word {
    Xor(Xor(Xor(U1(w.b0), U2(w.b1)), U3(w.b2)), U4(w.b3))
  }

  lemma AddLaws(a: uint8, b: uint8, c: uint8)
    ensures Add(a, b) == Add(b, a)
    ensures Add(Add(a, b), c) == Add(a, Add(b, c))
  {
  }

  lemma CarryLinear(a: uint8, b: uint8)
    ensures Carry(Add(a, b)) == Add(Carry(a), Carry(b))
  {
    assert (a ^ b) & 0x80 == (a & 0x80) ^ (b & 0x80);
    if a & 0x80 != 0 {
      assert a & 0x80 == 0x80;
    }
    if b & 0x80 != 0 {
      assert b & 0x80 == 0x80;
    }
  }

  lemma TwiceLinear(a: uint8, b: uint8)
    ensures Twice(Add(a, b)) == Add(Twice(a), Twice(b))
  {
  }

  lemma X2Linear(a: uint8, b: uint8)
    ensures X2(Add(a, b)) == Add(X2(a), X2(b))
  {
    CarryLinear(a, b);
    TwiceLinear(a, b);
    Regroup(Twice(a), Twice(b), Carry(a), Carry(b));
    hide Carry, Add, Twice;
  }

  lemma Regroup(a: uint8, b: uint8, c: uint8, d: uint8)
    ensures Add(Add(a, b), Add(c, d)) == Add(Add(a, c), Add(b, d))
  {
    AddLaws(a, b, Add(c, d));
    AddLaws(b, c, d);
    AddLaws(c, b, d);
    AddLaws(a, c, Add(b, d));
    hide Add;
  }

  lemma X8Linear(a: uint8, b: uint8)
    ensures X2(X2(Add(a, b))) == Add(X2(X2(a)), X2(X2(b)))
    ensures X8(Add(a, b)) == Add(X8(a), X8(b))
  {
    hide X2, Add;
    X2Linear(a, b);
    X2Linear(X2(a), X2(b));
    X2Linear(X2(X2(a)), X2(X2(b)));
  }

  lemma MultiplesLinear(a: uint8, b: uint8)
    ensures X9(Add(a, b)) == Add(X9(a), X9(b))
    ensures X11(Add(a, b)) == Add(X11(a), X11(b))
    ensures X13(Add(a, b)) == Add(X13(a), X13(b))
    ensures X14(Add(a, b)) == Add(X14(a), X14(b))
  {
    hide X2, X8, Add;
    X2Linear(a, b);
    X8Linear(a, b);
    var a2, b2, a4, b4 := X2(a), X2(b), X2(X2(a)), X2(X2(b));
    Regroup(X8(a), X8(b), a, b);
    Regroup(X9(a), X9(b), a2, b2);
    Regroup(X9(a), X9(b), a4, b4);
    Regroup(a4, b4, a2, b2);
    Regroup(X8(a), X8(b), Add(a4, a2), Add(b4, b2));
  }

  // Cancellation in the four sums of the matrix product, over the powers of x times one byte.
  lemma Cancel0(a: uint8, a2: uint8, a4: uint8, a8: uint8, a16: uint8)
    ensures Add(Add(Add(Add(a16, Add(a8, a4)), Add(Add(a8, a), a2)), Add(Add(a8, a), a4)),
            Add(Add(a16, a2), Add(a8, a))) == a
  {
    calc {
      Add(Add(Add(Add(a16, Add(a8, a4)), Add(Add(a8, a), a2)), Add(Add(a8, a), a4)), Add(Add(a16, a2), Add(a8, a)));
      ((a16 ^ (a8 ^ a4)) ^ ((a8 ^ a) ^ a2) ^ ((a8 ^ a) ^ a4)) ^ ((a16 ^ a2) ^ (a8 ^ a));
      a;
    }
  }

  lemma Cancel1(a: uint8, a2: uint8, a4: uint8, a8: uint8, a16: uint8)
    ensures Add(Add(Add(Add(a16, a2), Add(a8, Add(a4, a2))), Add(Add(a8, a), a2)),
            Add(Add(Add(a16, a2), a8), Add(Add(a8, a), a4))) == 0
  {
    calc {
      Add(Add(Add(Add(a16, a2), Add(a8, Add(a4, a2))), Add(Add(a8, a), a2)),
        Add(Add(Add(a16, a2), a8), Add(Add(a8, a), a4)));
      ((a16 ^ a2) ^ (a8 ^ (a4 ^ a2)) ^ ((a8 ^ a) ^ a2)) ^ (((a16 ^ a2) ^ a8) ^ ((a8 ^ a) ^ a4));
      0;
    }
  }

  lemma Cancel2(a: uint8, a2: uint8, a4: uint8, a8: uint8, a16: uint8)
    ensures Add(Add(Add(Add(Add(a16, a2), a8), Add(a8, a)), Add(a8, Add(a4, a2))),
            Add(Add(Add(a16, a2), a4), Add(Add(a8, a), a2))) == 0
  {
    calc {
      Add(Add(Add(Add(Add(a16, a2), a8), Add(a8, a)), Add(a8, Add(a4, a2))),
        Add(Add(Add(a16, a2), a4), Add(Add(a8, a), a2)));
      (((a16 ^ a2) ^ a8) ^ (a8 ^ a) ^ (a8 ^ (a4 ^ a2))) ^ (((a16 ^ a2) ^ a4) ^ ((a8 ^ a) ^ a2));
      0;
    }
  }

  lemma Cancel3(a: uint8, a2: uint8, a4: uint8, a8: uint8, a16: uint8)
    ensures Add(Add(Add(Add(Add(a16, a2), a4), Add(Add(a8, a), a4)), Add(a8, a)),
            Add(Add(a16, Add(a8, a4)), Add(a8, Add(a4, a2)))) == 0
  {
    calc {
      Add(Add(Add(Add(Add(a16, a2), a4), Add(Add(a8, a), a4)), Add(a8, a)),
        Add(Add(a16, Add(a8, a4)), Add(a8, Add(a4, a2))));
      (((a16 ^ a2) ^ a4) ^ ((a8 ^ a) ^ a4) ^ (a8 ^ a)) ^ ((a16 ^ (a8 ^ a4)) ^ (a8 ^ (a4 ^ a2)));
      0;
    }
  }

  /** The inverse columns undo the columns, entry by entry of the matrix product. */
  lemma ColumnProducts(a: uint8)
    ensures Add(Add(Add(X14(X2(a)), X11(a)), X13(a)), X9(X3(a))) == a
    ensures Add(Add(Add(X9(X2(a)), X14(a)), X11(a)), X13(X3(a))) == 0
    ensures Add(Add(Add(X13(X2(a)), X9(a)), X14(a)), X11(X3(a))) == 0
    ensures Add(Add(Add(X11(X2(a)), X13(a)), X9(a)), X14(X3(a))) == 0
  {
    hide X2, Add;
    MultiplesLinear(X2(a), a);
    var a2, a4, a8, a16 := X2(a), X2(X2(a)), X8(a), X8(X2(a));
    Cancel0(a, a2, a4, a8, a16);
    Cancel1(a, a2, a4, a8, a16);
    Cancel2(a, a2, a4, a8, a16);
    Cancel3(a, a2, a4, a8, a16);
  }

  // ---------------------------------------------------------------- columns

  function Add4(a: uint8, b: uint8, c: uint8, d: uint8): uint8 {
    Add(Add(Add(a, b), c), d)
  }

  lemma Rotate4(a: uint8, b: uint8, c: uint8, d: uint8)
    ensures Add4(a, b, c, d) == Add4(b, c, d, a)
  {
    AddLaws(a, b, c);
    AddLaws(a, Add(b, c), d);
    AddLaws(a, Add(Add(b, c), d), 0);
    hide Add;
  }

  lemma Regroup4(a: uint8, a': uint8, b: uint8, b': uint8, c: uint8, c': uint8, d: uint8, d': uint8)
    ensures Add4(Add(a, a'), Add(b, b'), Add(c, c'), Add(d, d')) == Add(Add4(a, b, c, d), Add4(a', b', c', d'))
  {
    hide Add;
    Regroup(a, a', b, b');
    Regroup(Add(a, b), Add(a', b'), c, c');
    Regroup(Add(Add(a, b), c), Add(Add(a', b'), c'), d, d');
  }

  lemma InvMixBytes(w: Word)
    ensures InvMix(w) == Word(Add4(X14(w.b0), X11(w.b1), X13(w.b2), X9(w.b3)),
                              Add4(X9(w.b0), X14(w.b1), X11(w.b2), X13(w.b3)),
                              Add4(X13(w.b0), X9(w.b1), X14(w.b2), X11(w.b3)),
                              Add4(X11(w.b0), X13(w.b1), X9(w.b2), X14(w.b3)))
  {
    hide Add, X9, X11, X13, X14;
  }

  lemma InvMixLinear(v: Word, w: Word)
    ensures InvMix(Xor(v, w)) == Xor(InvMix(v), InvMix(w))
  {
    hide Add, X9, X11, X13, X14, InvMix, Add4;
    InvMixBytes(v);
    InvMixBytes(w);
    InvMixBytes(Xor(v, w));
    MultiplesLinear(v.b0, w.b0);
    MultiplesLinear(v.b1, w.b1);
    MultiplesLinear(v.b2, w.b2);
    MultiplesLinear(v.b3, w.b3);
    Regroup4(X14(v.b0), X14(w.b0), X11(v.b1), X11(w.b1), X13(v.b2), X13(w.b2), X9(v.b3), X9(w.b3));
    Regroup4(X9(v.b0), X9(w.b0), X14(v.b1), X14(w.b1), X11(v.b2), X11(w.b2), X13(v.b3), X13(w.b3));
    Regroup4(X13(v.b0), X13(w.b0), X9(v.b1), X9(w.b1), X14(v.b2), X14(w.b2), X11(v.b3), X11(w.b3));
    Regroup4(X11(v.b0), X11(w.b0), X13(v.b1), X13(w.b1), X9(v.b2), X9(w.b2), X14(v.b3), X14(w.b3));
  }

  /** A column of the matrix and its inverse. */
  lemma InvMixOfColumns(a: uint8)
    ensures InvMix(C1(a)) == Word(a, 0, 0, 0) && InvMix(C2(a)) == Word(0, a, 0, 0)
    ensures InvMix(C3(a)) == Word(0, 0, a, 0) && InvMix(C4(a)) == Word(0, 0, 0, a)
  {
    hide Add, X2, X3, X9, X11, X13, X14, InvMix;
    InvMixBytes(C1(a));
    InvMixBytes(C2(a));
    InvMixBytes(C3(a));
    InvMixBytes(C4(a));
    ColumnProducts(a);
    var a2, a3 := X2(a), X3(a);
    assert Add4(X14(a2), X11(a), X13(a), X9(a3)) == a && Add4(X9(a2), X14(a), X11(a), X13(a3)) == 0
      && Add4(X13(a2), X9(a), X14(a), X11(a3)) == 0 && Add4(X11(a2), X13(a), X9(a), X14(a3)) == 0;
    hide Add4;
    Rotations4(X14(a2), X11(a), X13(a), X9(a3));
    Rotations4(X9(a2), X14(a), X11(a), X13(a3));
    Rotations4(X13(a2), X9(a), X14(a), X11(a3));
    Rotations4(X11(a2), X13(a), X9(a), X14(a3));
  }

  lemma Rotations4(a: uint8, b: uint8, c: uint8, d: uint8)
    ensures Add4(a, b, c, d) == Add4(b, c, d, a) == Add4(c, d, a, b) == Add4(d, a, b, c)
  {
    hide Add4;
    Rotate4(a, b, c, d);
    Rotate4(b, c, d, a);
    Rotate4(c, d, a, b);
  }

  lemma AddZero(a: uint8)
    ensures Add(a, 0) == a && Add(0, a) == a
  {
  }

  lemma InvMixOfMix(w: Word)
    ensures InvMix(Mix(w)) == w
  {
    hide Add, C1, C2, C3, C4, InvMix;
    InvMixLinear(Xor(Xor(C1(w.b0), C2(w.b1)), C3(w.b2)), C4(w.b3));
    InvMixLinear(Xor(C1(w.b0), C2(w.b1)), C3(w.b2));
    InvMixLinear(C1(w.b0), C2(w.b1));
    InvMixOfColumns(w.b0);
    InvMixOfColumns(w.b1);
    InvMixOfColumns(w.b2);
    InvMixOfColumns(w.b3);
    AddZero(0);
    AddZero(w.b0);
    AddZero(w.b1);
    AddZero(w.b2);
    AddZero(w.b3);
  }

  lemma AddSelf(a: uint8, b: uint8)
    ensures Add(Add(a, b), b) == a && Add(b, Add(b, a)) == a
  {
  }

  lemma XorSelf(v: Word, w: Word)
    ensures Xor(Xor(v, w), w) == v
  {
    hide Add;
    AddSelf(v.b0, w.b0);
    AddSelf(v.b1, w.b1);
    AddSelf(v.b2, w.b2);
    AddSelf(v.b3, w.b3);
  }
}

/** The cipher and its equivalent inverse, on states of 4, 6 or 8 words. */
module RijndaelCipher {
  import opened RijndaelField

  /** The substitution box and its inverse. */
  datatype Boxes = Boxes(S: uint8 -> uint8, Si: uint8 -> uint8)
  {
    ghost predicate Inverse() {
      forall x :: Si(S(x)) == x
    }
  }

  type State = seq<Word>

  /** Row offsets for encryption (0) and decryption (1): `sm_shifts`. */
  datatype Offsets = Offsets(s1: nat, s2: nat, s3: nat)

  function EncOffsets(bc: nat): Offsets {
    if bc == 4 then Offsets(1, 2, 3) else if bc == 6 then Offsets(1, 2, 3) else Offsets(1, 3, 4)
  }

  function DecOffsets(bc: nat): Offsets {
    if bc == 4 then Offsets(3, 2, 1) else if bc == 6 then Offsets(5, 4, 3) else Offsets(7, 5, 4)
  }

  predicate BlockWords(bc: nat) { bc == 4 || bc == 6 || bc == 8 }

  function Wrap(i: nat, s: nat, bc: nat): (j: nat)
    requires bc > 0
    ensures j < bc
  {
    (i + s) % bc
  }

  /** Column `i` after substituting every byte and shifting the rows. */
  function ShiftedColumn(box: uint8 -> uint8, o: Offsets, t: State, i: nat): Word
    requires i < |t|
  {
    Word(box(t[i].b0), box(t[Wrap(i, o.s1, |t|)].b1), box(t[Wrap(i, o.s2, |t|)].b2), box(t[Wrap(i, o.s3, |t|)].b3))
  }

  function SubShift(box: uint8 -> uint8, o: Offsets, t: State): (r: State)
    ensures |r| == |t|
  {
    seq(|t|, i requires 0 <= i < |t| => ShiftedColumn(box, o, t, i))
  }

  function XorRow(t: State, k: State): (r: State)
    requires |t| == |k|
    ensures |r| == |t|
  {
    seq(|t|, i requires 0 <= i < |t| => Xor(t[i], k[i]))
  }

  function MixRow(t: State): (r: State)
    ensures |r| == |t|
  {
    seq(|t|, i requires 0 <= i < |t| => Mix(t[i]))
  }

  function InvMixRow(t: State): (r: State)
    ensures |r| == |t|
  {
    seq(|t|, i requires 0 <= i < |t| => InvMix(t[i]))
  }

  /** Round keys: one row for each round and one more. */
  ghost predicate Keys(ke: seq<State>, rounds: nat, bc: nat) {
    |ke| == rounds + 1 && rounds > 0 && forall r | 0 <= r <= rounds :: |ke[r]| == bc
  }

  /** The state after `r` rounds of encryption. */
  ghost function Enciphered(b: Boxes, ke: seq<State>, rounds: nat, x: State, r: nat): (t: State)
    requires Keys(ke, rounds, |x|) && r < rounds
    ensures |t| == |x|
    decreases r
  {
    if r == 0 then XorRow(x, ke[0])
    else XorRow(MixRow(SubShift(b.S, EncOffsets(|x|), Enciphered(b, ke, rounds, x, r - 1))), ke[r])
  }

  ghost function Cipher(b: Boxes, ke: seq<State>, rounds: nat, x: State): (y: State)
    requires Keys(ke, rounds, |x|)
    ensures |y| == |x|
  {
    XorRow(SubShift(b.S, EncOffsets(|x|), Enciphered(b, ke, rounds, x, rounds - 1)), ke[rounds])
  }

  ghost function Deciphered(b: Boxes, kd: seq<State>, rounds: nat, y: State, r: nat): (t: State)
    requires Keys(kd, rounds, |y|) && r < rounds
    ensures |t| == |y|
    decreases r
  {
    if r == 0 then XorRow(y, kd[0])
    else XorRow(InvMixRow(SubShift(b.Si, DecOffsets(|y|), Deciphered(b, kd, rounds, y, r - 1))), kd[r])
  }

  ghost function InvCipher(b: Boxes, kd: seq<State>, rounds: nat, y: State): (x: State)
    requires Keys(kd, rounds, |y|)
    ensures |x| == |y|
  {
    XorRow(SubShift(b.Si, DecOffsets(|y|), Deciphered(b, kd, rounds, y, rounds - 1)), kd[rounds])
  }

  /** The decryption keys: the encryption keys in reverse, inverse-mixed in between. */
  ghost predicate InverseKeys(ke: seq<State>, kd: seq<State>, rounds: nat, bc: nat) {
    && Keys(ke, rounds, bc) && Keys(kd, rounds, bc)
    && kd[0] == ke[rounds] && kd[rounds] == ke[0]
    && forall r | 0 < r < rounds :: kd[r] == InvMixRow(ke[rounds - r])
  }

  lemma WrapIs(bc: nat, i: nat, s: nat)
    requires BlockWords(bc) && i < bc && s <= bc
    ensures Wrap(i, s, bc) == if i + s < bc then i + s else i + s - bc
  {
    if bc == 4 {
    } else if bc == 6 {
    } else {
    }
  }

  lemma WrapAround(bc: nat, i: nat, d: nat, e: nat)
    requires BlockWords(bc) && i < bc && d + e == bc
    ensures Wrap(Wrap(i, d, bc), e, bc) == i
  {
    hide Wrap;
    WrapIs(bc, i, d);
    WrapIs(bc, Wrap(i, d, bc), e);
  }

  lemma ShiftBack(bc: nat, i: nat)
    requires BlockWords(bc) && i < bc
    ensures var e, d := EncOffsets(bc), DecOffsets(bc);
            && Wrap(Wrap(i, d.s1, bc), e.s1, bc) == i && Wrap(Wrap(i, d.s2, bc), e.s2, bc) == i
            && Wrap(Wrap(i, d.s3, bc), e.s3, bc) == i
  {
    var e, d := EncOffsets(bc), DecOffsets(bc);
    hide Wrap;
    WrapAround(bc, i, d.s1, e.s1);
    WrapAround(bc, i, d.s2, e.s2);
    WrapAround(bc, i, d.s3, e.s3);
  }

  lemma SubShiftBack(b: Boxes, t: State)
    requires b.Inverse() && BlockWords(|t|)
    ensures SubShift(b.Si, DecOffsets(|t|), SubShift(b.S, EncOffsets(|t|), t)) == t
  {
    forall i | 0 <= i < |t|
      ensures ShiftedColumn(b.Si, DecOffsets(|t|), SubShift(b.S, EncOffsets(|t|), t), i) == t[i]
    {
      ColumnBack(b, t, i);
    }
  }

  lemma ColumnBack(b: Boxes, t: State, i: nat)
    requires b.Inverse() && BlockWords(|t|) && i < |t|
    ensures ShiftedColumn(b.Si, DecOffsets(|t|), SubShift(b.S, EncOffsets(|t|), t), i) == t[i]
  {
    hide EncOffsets, DecOffsets, Wrap;
    ShiftBack(|t|, i);
  }

  lemma XorRowBack(t: State, k: State)
    requires |t| == |k|
    ensures XorRow(XorRow(t, k), k) == t
  {
    forall i | 0 <= i < |t| {
      XorSelf(t[i], k[i]);
    }
  }

  lemma InvMixRowOfSum(t: State, k: State)
    requires |t| == |k|
    ensures InvMixRow(XorRow(MixRow(t), k)) == XorRow(t, InvMixRow(k))
  {
    hide Xor, InvMix, Mix;
    forall i | 0 <= i < |t|
      ensures InvMix(Xor(Mix(t[i]), k[i])) == Xor(t[i], InvMix(k[i]))
    {
      InvMixLinear(Mix(t[i]), k[i]);
      InvMixOfMix(t[i]);
    }
  }

  /** After `r` rounds of decryption the state is what encryption had, substituted and shifted,
      with `rounds - 1 - r` rounds done. */
  lemma {:induction false} DecipherRetraces(b: Boxes, ke: seq<State>, kd: seq<State>, rounds: nat, x: State, r: nat)
    requires b.Inverse() && BlockWords(|x|) && InverseKeys(ke, kd, rounds, |x|) && r < rounds
    ensures Deciphered(b, kd, rounds, Cipher(b, ke, rounds, x), r) ==
            SubShift(b.S, EncOffsets(|x|), Enciphered(b, ke, rounds, x, rounds - 1 - r))
    decreases r
  {
    hide SubShift, XorRow, MixRow, InvMixRow, EncOffsets, DecOffsets;
    var t := SubShift(b.S, EncOffsets(|x|), Enciphered(b, ke, rounds, x, rounds - 1 - r));
    if r == 0 {
      XorRowBack(t, ke[rounds]);
    } else {
      DecipherRetraces(b, ke, kd, rounds, x, r - 1);
      SubShiftBack(b, Enciphered(b, ke, rounds, x, rounds - r));
      InvMixRowOfSum(t, ke[rounds - r]);
      XorRowBack(t, kd[r]);
    }
  }

  /** The inverse cipher undoes the cipher. */
  lemma InverseCipher(b: Boxes, ke: seq<State>, kd: seq<State>, rounds: nat, x: State)
    requires b.Inverse() && BlockWords(|x|) && InverseKeys(ke, kd, rounds, |x|)
    ensures InvCipher(b, kd, rounds, Cipher(b, ke, rounds, x)) == x
  {
    hide SubShift, XorRow, EncOffsets, DecOffsets;
    DecipherRetraces(b, ke, kd, rounds, x, rounds - 1);
    SubShiftBack(b, Enciphered(b, ke, rounds, x, 0));
    XorRowBack(x, ke[0]);
  }
}
