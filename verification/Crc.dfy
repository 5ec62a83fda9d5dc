/** Bit vectors over GF(2), most significant bit first, and the CRC as polynomial division. */
module CrcDivision {

  type Bits = seq<bool>

  function Zeros(n: nat): (r: Bits)
    ensures |r| == n && forall i | 0 <= i < n :: !r[i]
  {
    seq(n, _ => false)
  }

  /** Sum over GF(2). */
  function Sum(a: Bits, b: Bits): (r: Bits)
    requires |a| == |b|
    ensures |r| == |a| && forall i | 0 <= i < |r| :: r[i] == (a[i] != b[i])
  {
    seq(|a|, i requires 0 <= i < |a| => a[i] != b[i])
  }

  function Reverse(a: Bits): (r: Bits)
    ensures |r| == |a| && forall i | 0 <= i < |r| :: r[i] == a[|a| - 1 - i]
  {
    seq(|a|, i requires 0 <= i < |a| => a[|a| - 1 - i])
  }

  /** Schoolbook division of `d` by the polynomial with leading coefficient 1 followed by `g`:
      the remainder, as |g| coefficients. */
  function Remainder(g: Bits, d: Bits): (r: Bits)
    requires |g| <= |d|
    ensures |r| == |g|
    decreases |d|
  {
    if |d| == |g| then d else Remainder(g, DivideStep(g, d))
  }

  /** One shift of the register with feedback `g`. */
  function Shift(g: Bits, r: Bits): (r': Bits)
    requires |g| == |r| > 0
    ensures |r'| == |r|
  {
    Sum(r[1..] + [false], if r[0] then g else Zeros(|g|))
  }

  function Shifts(g: Bits, r: Bits, n: nat): (r': Bits)
    requires |g| == |r| > 0
    ensures |r'| == |r|
    decreases n
  {
    if n == 0 then r else Shifts(g, Shift(g, r), n - 1)
  }

  /** One message bit enters at the top of the register. */
  function Enter(g: Bits, r: Bits, bit: bool): (r': Bits)
    requires |g| == |r| > 0
    ensures |r'| == |r|
  {
    Shift(g, r[0 := r[0] != bit])
  }

  function EnterAll(g: Bits, r: Bits, message: Bits): (r': Bits)
    requires |g| == |r| > 0
    ensures |r'| == |r|
    decreases |message|
  {
    if message == [] then r else EnterAll(g, Enter(g, r, message[0]), message[1..])
  }

  lemma {:induction false} EnterAllSplit(g: Bits, r: Bits, a: Bits, b: Bits)
    requires |g| == |r| > 0
    ensures EnterAll(g, r, a + b) == EnterAll(g, EnterAll(g, r, a), b)
    decreases |a|
  {
    if a == [] {
      assert a + b == b;
    } else {
      assert (a + b)[1..] == a[1..] + b;
      EnterAllSplit(g, Enter(g, r, a[0]), a[1..], b);
    }
  }

  /** What the register divides: the message with |r| zeros behind it, the register added in front. */
  function Dividend(r: Bits, message: Bits): (d: Bits)
    ensures |d| == |message| + |r|
  {
    var m := message + Zeros(|r|);
    Sum(m[..|r|], r) + m[|r|..]
  }

  lemma ShiftAt(g: Bits, r: Bits, i: nat)
    requires |g| == |r| > i
    ensures Shift(g, r)[i] == ((i + 1 < |r| && r[i + 1]) != (r[0] && g[i]))
  {
  }

  lemma DividendAt(r: Bits, message: Bits, i: nat)
    requires i < |message| + |r|
    ensures Dividend(r, message)[i] == ((i < |message| && message[i]) != (i < |r| && r[i]))
  {
  }

  /** One step of the long division. */
  function DivideStep(g: Bits, d: Bits): (d': Bits)
    requires |g| < |d|
    ensures |d'| == |d| - 1
    ensures forall i | 0 <= i < |d'| :: d'[i] == (d[i + 1] != (d[0] && i < |g| && g[i]))
  {
    if d[0] then Sum(d[1..][..|g|], g) + d[1..][|g|..] else d[1..]
  }

  lemma StepsAgree(g: Bits, r: Bits, message: Bits)
    requires |g| == |r| > 0 && message != []
    ensures DivideStep(g, Dividend(r, message)) == Dividend(Enter(g, r, message[0]), message[1..])
  {
    var d, r' := Dividend(r, message), Enter(g, r, message[0]);
    var d1, d2 := DivideStep(g, d), Dividend(r', message[1..]);
    forall i | 0 <= i < |d1|
      ensures d1[i] == d2[i]
    {
      DividendAt(r, message, 0);
      DividendAt(r, message, i + 1);
      DividendAt(r', message[1..], i);
      if i < |r| {
        ShiftAt(g, r[0 := r[0] != message[0]], i);
      }
      hide *;
    }
  }

  /** The shift register computes a remainder. */
  lemma {:induction false} RegisterDivides(g: Bits, r: Bits, message: Bits)
    requires |g| == |r| > 0
    ensures EnterAll(g, r, message) == Remainder(g, Dividend(r, message))
    decreases |message|
  {
    if message == [] {
      assert Dividend(r, message) == r;
    } else {
      StepsAgree(g, r, message);
      RegisterDivides(g, Enter(g, r, message[0]), message[1..]);
      hide DivideStep, Dividend, Enter;
    }
  }

  // ---------------------------------------------------------------- what a remainder is

  /** The product of `q` with the polynomial of `g`, leading 1 included, and the rest `r` added to it. */
  function Composed(q: Bits, g: Bits, r: Bits): (d: Bits)
    requires |r| == |g|
    ensures |d| == |q| + |g|
    decreases |q|
  {
    if q == [] then r
    else Sum((if q[0] then [true] + g else Zeros(|g| + 1)) + Zeros(|q| - 1), [false] + Composed(q[1..], g, r))
  }

  lemma ComposedFirst(q: Bits, g: Bits, r: Bits)
    requires |r| == |g| && q != []
    ensures var d := Composed(q, g, r);
            && d[0] == q[0]
            && d[1..] == Sum((if q[0] then g else Zeros(|g|)) + Zeros(|q| - 1), Composed(q[1..], g, r))
  {
    var first := (if q[0] then [true] + g else Zeros(|g| + 1)) + Zeros(|q| - 1);
    var c := Composed(q[1..], g, r);
    ComposedNext(q, g, r);
    FirstOf(q[0], g, |q| - 1);
    hide *;
    SumRest(first, [false] + c);
    assert ([false] + c)[1..] == c;
  }

  lemma FirstOf(bit: bool, g: Bits, n: nat)
    ensures var first := (if bit then [true] + g else Zeros(|g| + 1)) + Zeros(n);
            first[0] == bit && first[1..] == (if bit then g else Zeros(|g|)) + Zeros(n)
  {
  }

  lemma SumRest(a: Bits, b: Bits)
    requires |a| == |b| > 0
    ensures Sum(a, b)[0] == (a[0] != b[0]) && Sum(a, b)[1..] == Sum(a[1..], b[1..])
  {
  }

  lemma ComposedNext(q: Bits, g: Bits, r: Bits)
    requires |r| == |g| && q != []
    ensures Composed(q, g, r) ==
            Sum((if q[0] then [true] + g else Zeros(|g| + 1)) + Zeros(|q| - 1), [false] + Composed(q[1..], g, r))
  {
    hide Sum, Zeros;
  }

  /** One step of the long division takes the first bit of the quotient away. */
  lemma StepBack(g: Bits, d: Bits, q: Bits, r: Bits)
    requires |g| < |d| == |q| + |g| && |r| == |g| && q[0] == d[0]
    requires DivideStep(g, d) == Composed(q[1..], g, r)
    ensures d == Composed(q, g, r)
  {
    ComposedFirst(q, g, r);
    hide Composed;
    var c, d' := Composed(q, g, r), DivideStep(g, d);
    hide DivideStep;
    assert d[1..] == c[1..];
    assert d == [d[0]] + d[1..] && c == [c[0]] + c[1..];
  }

  /** With some quotient the remainder gives the dividend again. */
  lemma {:induction false} DivisionLaw(g: Bits, d: Bits) returns (q: Bits)
    requires |g| <= |d|
    ensures |q| == |d| - |g| && d == Composed(q, g, Remainder(g, d))
    decreases |d|
  {
    if |d| == |g| {
      q := [];
    } else {
      var q' := DivisionLaw(g, DivideStep(g, d));
      q := [d[0]] + q';
      assert q[1..] == q';
      RemainderNext(g, d);
      hide DivideStep, Composed, Remainder;
      StepBack(g, d, q, Remainder(g, d));
    }
  }

  lemma RemainderNext(g: Bits, d: Bits)
    requires |g| < |d|
    ensures Remainder(g, d) == Remainder(g, DivideStep(g, d))
  {
  }

  lemma SumCancels(a: Bits, b: Bits, c: Bits)
    requires |a| == |b| == |c| && Sum(a, b) == Sum(a, c)
    ensures b == c
  {
    forall i | 0 <= i < |b|
      ensures b[i] == c[i]
    {
      assert Sum(a, b)[i] == Sum(a, c)[i];
    }
  }

  /** No other rest goes with any quotient. */
  lemma {:induction false} RemainderUnique(g: Bits, q: Bits, r: Bits, q': Bits, r': Bits)
    requires |q| == |q'| && |r| == |r'| == |g| && Composed(q, g, r) == Composed(q', g, r')
    ensures q == q' && r == r'
    decreases |q|
  {
    if q != [] {
      ComposedFirst(q, g, r);
      ComposedFirst(q', g, r');
      hide Composed;
      var c, c' := Composed(q[1..], g, r), Composed(q'[1..], g, r');
      SumCancels((if q[0] then g else Zeros(|g|)) + Zeros(|q| - 1), c, c');
      hide Sum, Zeros;
      RemainderUnique(g, q[1..], r, q'[1..], r');
      assert q == [q[0]] + q[1..] && q' == [q'[0]] + q'[1..];
    }
  }

  // ---------------------------------------------------------------- a byte at a time

  lemma ShiftLinear(g: Bits, a: Bits, b: Bits)
    requires |g| == |a| == |b| > 0
    ensures Shift(g, Sum(a, b)) == Sum(Shift(g, a), Shift(g, b))
  {
  }

  lemma {:induction false} ShiftsLinear(g: Bits, a: Bits, b: Bits, n: nat)
    requires |g| == |a| == |b| > 0
    ensures Shifts(g, Sum(a, b), n) == Sum(Shifts(g, a, n), Shifts(g, b, n))
    decreases n
  {
    if n > 0 {
      ShiftLinear(g, a, b);
      ShiftsLinear(g, Shift(g, a), Shift(g, b), n - 1);
    }
  }

  lemma {:induction false} ShiftsOfLow(g: Bits, low: Bits, n: nat)
    requires |g| == n + |low| > 0
    ensures Shifts(g, Zeros(n) + low, n) == low + Zeros(n)
    decreases n
  {
    if n == 0 {
      assert Zeros(0) + low == low == low + Zeros(0);
    } else {
      assert Shift(g, Zeros(n) + low) == Zeros(n - 1) + (low + [false]);
      ShiftsOfLow(g, low + [false], n - 1);
      assert low + [false] + Zeros(n - 1) == low + Zeros(n);
    }
  }

  /** Bits that enter one by one might as well be added to the register at once. */
  lemma {:induction false} EnterAllIsShifts(g: Bits, r: Bits, b: Bits)
    requires |g| == |r| > 0 && |b| <= |r|
    ensures EnterAll(g, r, b) == Shifts(g, Sum(r, b + Zeros(|r| - |b|)), |b|)
    decreases |b|
  {
    Unrolled(g, r, b);
    hide EnterAll, Shifts;
    if b != [] {
      hide *;
      FirstEnters(g, r, b);
      EnterAllIsShifts(g, Enter(g, r, b[0]), b[1..]);
    }
  }

  lemma Unrolled(g: Bits, r: Bits, b: Bits)
    requires |g| == |r| > 0 && |b| <= |r|
    ensures b == [] ==> EnterAll(g, r, b) == Shifts(g, Sum(r, b + Zeros(|r| - |b|)), |b|)
    ensures b != [] ==> EnterAll(g, r, b) == EnterAll(g, Enter(g, r, b[0]), b[1..])
    ensures b != [] ==> var r0 := Sum(r, b + Zeros(|r| - |b|)); Shifts(g, r0, |b|) == Shifts(g, Shift(g, r0), |b[1..]|)
  {
    hide Enter, Shift;
    if b == [] {
      assert Sum(r, b + Zeros(|r| - |b|)) == r;
    }
    hide Sum, Zeros;
  }

  /** Entering the first bit, and then adding the others, is adding all and then one shift. */
  lemma FirstEnters(g: Bits, r: Bits, b: Bits)
    requires |g| == |r| > 0 && 0 < |b| <= |r|
    ensures Shift(g, Sum(r, b + Zeros(|r| - |b|))) == Sum(Enter(g, r, b[0]), b[1..] + Zeros(|r| - |b| + 1))
  {
    var r0 := Sum(r, b + Zeros(|r| - |b|));
    var s1, s2 := Shift(g, r0), Sum(Enter(g, r, b[0]), b[1..] + Zeros(|r| - |b| + 1));
    forall i | 0 <= i < |g|
      ensures s1[i] == s2[i]
    {
      ShiftAt(g, r0, i);
      ShiftAt(g, r[0 := r[0] != b[0]], i);
      hide Shift;
    }
  }

  /** The byte-wise step of a table-driven CRC: the table holds, for each byte, its shifts. */
  function ByteStep(g: Bits, r: Bits, b: Bits): (r': Bits)
    requires |g| == |r| >= 8 == |b|
    ensures |r'| == |r|
  {
    Sum(r[8..] + Zeros(8), Shifts(g, Sum(r[..8], b) + Zeros(|r| - 8), 8))
  }

  lemma ByteStepEnters(g: Bits, r: Bits, b: Bits)
    requires |g| == |r| >= 8 == |b|
    ensures ByteStep(g, r, b) == EnterAll(g, r, b)
  {
    var top, low := Sum(r[..8], b) + Zeros(|r| - 8), Zeros(8) + r[8..];
    EnterAllIsShifts(g, r, b);
    assert Sum(r, b + Zeros(|r| - 8)) == Sum(low, top);
    ShiftsLinear(g, low, top, 8);
    ShiftsOfLow(g, r[8..], 8);
  }
}

/** 64-bit words and their low bits. */
module CrcWords {
  import opened CrcDivision

  type uint64 = bv64

  // Word operations by name, so that inductions over bits need not look into them.
  function Half(x: uint64): uint64 { x >> 1 }
  function Double(x: uint64): uint64 { x << 1 }
  function Odd(x: uint64): bool { x & 1 != 0 }
  function Xor(x: uint64, y: uint64): uint64 { x ^ y }
  function Or(x: uint64, y: uint64): uint64 { x | y }
  function And(x: uint64, y: uint64): uint64 { x & y }

  /** `x >> k`, place by place. */
  function Right(x: uint64, k: nat): uint64 {
    if k == 0 then x else Right(Half(x), k - 1)
  }

  /** `x << k`, place by place. */
  function Left(x: uint64, k: nat): uint64 {
    if k == 0 then x else Double(Left(x, k - 1))
  }

  /** The low `n` bits of a word. */
  ghost function Low(x: uint64, n: nat): (r: Bits)
    ensures |r| == n
    decreases n
  {
    if n == 0 then [] else Low(Half(x), n - 1) + [Odd(x)]
  }

  // ---------------------------------------------------------------- facts about words

  lemma HalfOfXor(x: uint64, y: uint64)
    ensures Half(Xor(x, y)) == Xor(Half(x), Half(y)) && Odd(Xor(x, y)) == (Odd(x) != Odd(y))
  {
  }

  lemma HalfOfOr(x: uint64, y: uint64)
    ensures Half(Or(x, y)) == Or(Half(x), Half(y)) && Odd(Or(x, y)) == (Odd(x) || Odd(y))
  {
  }

  lemma HalfOfDouble(x: uint64)
    ensures Xor(x, Half(Double(x))) == 0 || Xor(x, Half(Double(x))) == 0x8000_0000_0000_0000
    ensures Xor(x, Xor(x, Half(Double(x)))) == Half(Double(x)) && !Odd(Double(x))
  {
  }

  lemma AndOfDouble(x: uint64, y: uint64)
    ensures (And(x, Double(y)) != 0) == (And(Half(x), y) != 0)
  {
  }

  lemma HalfOfMasked(x: uint64, m: uint64)
    ensures Half(And(x, Or(Double(m), 1))) == And(Half(x), m) && Odd(And(x, Or(Double(m), 1))) == Odd(x)
  {
  }

  lemma OnesDouble(x: uint64)
    ensures Or(Double(x - 1), 1) == Double(x) - 1
  {
  }

  lemma WordFromHalf(x: uint64)
    ensures x == Or(Double(Half(x)), if Odd(x) then 1 else 0)
  {
  }

  // ---------------------------------------------------------------- words as bits

  lemma {:induction false} LowOfXor(x: uint64, y: uint64, n: nat)
    ensures Low(Xor(x, y), n) == Sum(Low(x, n), Low(y, n))
    decreases n
  {
    hide Half, Odd, Xor;
    if n > 0 {
      HalfOfXor(x, y);
      LowOfXor(Half(x), Half(y), n - 1);
    }
  }

  lemma {:induction false} LowOfOr(x: uint64, y: uint64, n: nat, i: nat)
    requires i < n
    ensures Low(Or(x, y), n)[i] == (Low(x, n)[i] || Low(y, n)[i])
    decreases n
  {
    hide Half, Odd, Or;
    HalfOfOr(x, y);
    if i < n - 1 {
      LowOfOr(Half(x), Half(y), n - 1, i);
    }
  }

  /** Bits from position `n` up do not matter. */
  lemma {:induction false} LowPrefix(x: uint64, n: nat)
    ensures Low(x, n + 1)[1..] == Low(x, n)
    decreases n
  {
    hide Half, Odd;
    if n > 0 {
      LowPrefix(Half(x), n - 1);
    }
  }

  lemma {:induction false} LowDrop(x: uint64, n: nat, m: nat)
    ensures Low(x, n + m)[m..] == Low(x, n)
    decreases m
  {
    if m > 0 {
      LowPrefix(x, n + m - 1);
      LowDrop(x, n, m - 1);
      assert Low(x, n + m)[m..] == Low(x, n + m)[1..][m - 1..];
    }
  }

  lemma {:induction false} LowOfRight(x: uint64, k: nat, n: nat)
    ensures Low(x, n + k)[..n] == Low(Right(x, k), n)
    decreases k
  {
    hide Half, Odd;
    if k > 0 {
      LowOfRight(Half(x), k - 1, n);
    }
  }

  predicate TrailingZeros(x: uint64, n: nat) {
    n == 0 || (!Odd(x) && TrailingZeros(Half(x), n - 1))
  }

  lemma {:induction false} LowOfTrailingZeros(x: uint64, n: nat, m: nat)
    requires TrailingZeros(x, m) && n <= m
    ensures Low(x, n) == Zeros(n)
    decreases n
  {
    hide Half, Odd;
    if n > 0 {
      LowOfTrailingZeros(Half(x), n - 1, m - 1);
    }
  }

  lemma TwoMoreZeros(x: uint64, y: uint64, n: nat)
    requires x & 3 == 0 && y == x >> 2 && TrailingZeros(y, n)
    ensures TrailingZeros(x, n + 2)
  {
    assert !Odd(x) && !Odd(Half(x)) && Half(Half(x)) == y;
    hide Half, Odd;
    assert TrailingZeros(Half(x), n + 1);
  }

  lemma FourMoreZeros(x: uint64, n: nat)
    requires x & 15 == 0 && TrailingZeros(x >> 4, n)
    ensures TrailingZeros(x, n + 4)
  {
    hide TrailingZeros;
    TwoMoreZeros(x >> 2, x >> 4, n);
    TwoMoreZeros(x, x >> 2, n + 2);
  }

  lemma {:induction false} ZeroTrailing(n: nat)
    ensures TrailingZeros(0, n)
  {
    if n > 0 {
      ZeroTrailing(n - 1);
    }
  }

  /** The top bit has 63 zeros below it. */
  lemma Top63()
    ensures TrailingZeros(0x8000_0000_0000_0000, 63)
  {
    assert TrailingZeros(8, 3);
    FourMoreZeros(0x80, 3);
    FourMoreZeros(0x800, 7);
    FourMoreZeros(0x8000, 11);
    FourMoreZeros(0x8_0000, 15);
    FourMoreZeros(0x80_0000, 19);
    FourMoreZeros(0x800_0000, 23);
    FourMoreZeros(0x8000_0000, 27);
    FourMoreZeros(0x8_0000_0000, 31);
    FourMoreZeros(0x80_0000_0000, 35);
    FourMoreZeros(0x800_0000_0000, 39);
    FourMoreZeros(0x8000_0000_0000, 43);
    FourMoreZeros(0x8_0000_0000_0000, 47);
    FourMoreZeros(0x80_0000_0000_0000, 51);
    FourMoreZeros(0x800_0000_0000_0000, 55);
    FourMoreZeros(0x8000_0000_0000_0000, 59);
  }

  lemma LowOfDouble(x: uint64, n: nat)
    requires n <= 63
    ensures Low(Double(x), n + 1) == Low(x, n) + [false]
  {
    var d := Xor(x, Half(Double(x)));
    HalfOfDouble(x);
    Top63();
    ZeroTrailing(63);
    hide Half, Odd, Xor, Double;
    LowOfTrailingZeros(d, n, 63);
    LowOfXor(x, d, n);
    assert Sum(Low(x, n), Zeros(n)) == Low(x, n);
  }

  lemma {:induction false} LowOfLeft(x: uint64, k: nat, n: nat)
    requires n + k <= 64
    ensures Low(Left(x, k), n + k) == Low(x, n) + Zeros(k)
    decreases k
  {
    hide Double;
    if k > 0 {
      LowOfLeft(x, k - 1, n);
      LowOfDouble(Left(x, k - 1), n + k - 1);
    }
  }

  lemma {:induction false} LowOfZero(n: nat)
    ensures Low(0, n) == Zeros(n)
  {
    ZeroTrailing(n);
    LowOfTrailingZeros(0, n, n);
  }

  /** A single bit, as a unit vector. */
  lemma LowOfOne(k: nat, n: nat, i: nat)
    requires k < n < 64 && i < n
    ensures Low(Left(1, k), n)[i] == (i + k == n - 1)
  {
    LowOfLeft(1, k, n - k);
    assert Odd(1) && Half(1) == 0;
    LowOfZero(n - k - 1);
    assert Low(1, n - k) == Zeros(n - k - 1) + [true];
  }

  lemma SetBit(x: uint64, k: nat, n: nat)
    requires k < n < 64
    ensures forall i | 0 <= i < n :: Low(Or(x, Left(1, k)), n)[i] == (Low(x, n)[i] || i + k == n - 1)
  {
    hide Or, Left, Low;
    forall i | 0 <= i < n
      ensures Low(Or(x, Left(1, k)), n)[i] == (Low(x, n)[i] || i + k == n - 1)
    {
      LowOfOr(x, Left(1, k), n, i);
      LowOfOne(k, n, i);
    }
  }

  lemma LowLast(x: uint64, n: nat)
    ensures Low(x, n + 1) == Low(Half(x), n) + [Odd(x)]
  {
  }

  /** Testing the single bit `1 << k`. */
  lemma {:induction false} TestBit(x: uint64, k: nat)
    ensures (And(x, Left(1, k)) != 0) == Low(x, k + 1)[0]
    decreases k
  {
    if k > 0 {
      hide And, Half, Odd, Double;
      AndOfDouble(x, Left(1, k - 1));
      TestBit(Half(x), k - 1);
    }
  }

  function Ones(k: nat): uint64 {
    if k == 0 then 0 else Or(Double(Ones(k - 1)), 1)
  }

  lemma {:induction false} MaskIsOnes(k: nat)
    ensures Left(1, k) - 1 == Ones(k)
  {
    if k > 0 {
      MaskIsOnes(k - 1);
      OnesDouble(Left(1, k - 1));
      hide Or, Double;
    }
  }

  lemma {:induction false} LowOfMasked(x: uint64, k: nat)
    ensures Low(And(x, Ones(k)), k) == Low(x, k)
    decreases k
  {
    hide And, Half, Odd, Double, Or;
    if k > 0 {
      HalfOfMasked(x, Ones(k - 1));
      LowOfMasked(Half(x), k - 1);
    }
  }

  /** The low bits determine a masked word. */
  lemma {:induction false} MaskedFromLow(x: uint64, y: uint64, k: nat)
    requires Low(x, k) == Low(y, k)
    ensures And(x, Ones(k)) == And(y, Ones(k))
    decreases k
  {
    if k > 0 {
      hide And, Half, Odd, Double, Or;
      HalfOfMasked(x, Ones(k - 1));
      HalfOfMasked(y, Ones(k - 1));
      assert Low(x, k)[k - 1] == Odd(x) && Low(y, k)[k - 1] == Odd(y);
      assert Low(x, k)[..k - 1] == Low(Half(x), k - 1) && Low(y, k)[..k - 1] == Low(Half(y), k - 1);
      MaskedFromLow(Half(x), Half(y), k - 1);
      WordFromHalf(And(x, Ones(k)));
      WordFromHalf(And(y, Ones(k)));
    }
  }
}

/** The parametric, table-driven CRC engine, for widths 8 to 63. */
module Crc {
  import opened CrcDivision
  import opened CrcWords

  type uint8 = bv8

  // ---------------------------------------------------------------- the specification, on bits

  /** A CRC: feedback polynomial without its leading 1, starting register, reflections, final sum. */
  datatype Spec = Spec(g: Bits, init: Bits, reflectIn: bool, reflectOut: bool, xorOut: Bits)
  {
    predicate Ok() { 8 <= |g| < 64 && |init| == |xorOut| == |g| }
  }

  ghost function ByteBits(b: uint8): (r: Bits)
    ensures |r| == 8
  {
    Low(b as bv64, 8)
  }

  /** The bits that enter the register for `data`. */
  ghost function MessageBits(reflectIn: bool, data: seq<uint8>): Bits {
    if data == [] then []
    else MessageBits(reflectIn, data[..|data| - 1]) + InBits(reflectIn, data[|data| - 1])
  }

  ghost function InBits(reflectIn: bool, b: uint8): (r: Bits)
    ensures |r| == 8
  {
    if reflectIn then Reverse(ByteBits(b)) else ByteBits(b)
  }

  ghost function Finish(s: Spec, reg: Bits): (r: Bits)
    requires s.Ok() && |reg| == |s.g|
    ensures |r| == |s.g|
  {
    Sum(if s.reflectOut then Reverse(reg) else reg, s.xorOut)
  }

  /** The register a finished result came from. */
  ghost function Resume(s: Spec, result: Bits): (r: Bits)
    requires s.Ok() && |result| == |s.g|
    ensures |r| == |s.g|
  {
    var reg := Sum(result, s.xorOut);
    if s.reflectOut then Reverse(reg) else reg
  }

  /** The reference: the remainder of the message polynomial, behind the register `start`. */
  ghost function Divided(s: Spec, start: Bits, data: seq<uint8>): (r: Bits)
    requires s.Ok() && |start| == |s.g|
    ensures |r| == |s.g|
  {
    Remainder(s.g, Dividend(start, MessageBits(s.reflectIn, data)))
  }

  lemma {:induction false} MessageBitsSplit(reflectIn: bool, a: seq<uint8>, b: seq<uint8>)
    ensures MessageBits(reflectIn, a + b) == MessageBits(reflectIn, a) + MessageBits(reflectIn, b)
    decreases |b|
  {
    hide InBits;
    if b == [] {
      assert a + b == a;
    } else {
      var b', last := b[..|b| - 1], InBits(reflectIn, b[|b| - 1]);
      assert (a + b)[..|a + b| - 1] == a + b';
      MessageBitsSplit(reflectIn, a, b');
      var ma, mb := MessageBits(reflectIn, a), MessageBits(reflectIn, b');
      assert (ma + mb) + last == ma + (mb + last);
    }
  }

  /** Bit `k` of a byte, from the lowest. */
  function Bit(b: uint8, k: nat): bool
    requires k < 8
  {
    match k
    case 0 => b & 0x01 != 0
    case 1 => b & 0x02 != 0
    case 2 => b & 0x04 != 0
    case 3 => b & 0x08 != 0
    case 4 => b & 0x10 != 0
    case 5 => b & 0x20 != 0
    case 6 => b & 0x40 != 0
    case _ => b & 0x80 != 0
  }

  lemma {:induction false} LowIsOdd(x: uint64, n: nat, i: nat)
    requires i < n
    ensures Low(x, n)[i] == Odd(Right(x, n - 1 - i))
    decreases n
  {
    if i < n - 1 {
      LowIsOdd(Half(x), n - 1, i);
    }
  }

  lemma {:induction false} RightLast(x: uint64, k: nat)
    ensures Right(x, k + 1) == Half(Right(x, k))
    decreases k
  {
    hide Half;
    if k > 0 {
      RightLast(Half(x), k - 1);
    }
  }

  lemma BitIsOdd(b: uint8, k: nat)
    requires k < 8
    ensures Bit(b, k) == Odd(Right(b as bv64, k))
  {
    var x := b as bv64;
    RightLast(x, 0);
    RightLast(x, 1);
    RightLast(x, 2);
    RightLast(x, 3);
    RightLast(x, 4);
    RightLast(x, 5);
    RightLast(x, 6);
    HalvesOf(b);
    assert Right(x, 0) == x;
    hide Half, Odd, Right;
  }

  lemma HalvesOf(b: uint8)
    ensures var x := b as bv64;
            && Odd(x) == (b & 0x01 != 0)
            && var x1 := Half(x);
            && Odd(x1) == (b & 0x02 != 0)
            && var x2 := Half(x1);
            && Odd(x2) == (b & 0x04 != 0)
            && var x3 := Half(x2);
            && Odd(x3) == (b & 0x08 != 0)
            && var x4 := Half(x3);
            && Odd(x4) == (b & 0x10 != 0)
            && var x5 := Half(x4);
            && Odd(x5) == (b & 0x20 != 0)
            && var x6 := Half(x5);
            && Odd(x6) == (b & 0x40 != 0)
            && Odd(Half(x6)) == (b & 0x80 != 0)
  {
  }

  lemma BitAt(b: uint8, i: nat)
    requires i < 8
    ensures ByteBits(b)[i] == Bit(b, 7 - i)
  {
    LowIsOdd(b as bv64, 8, i);
    BitIsOdd(b, 7 - i);
    hide Low, Right, Odd, Bit;
  }

  /** The bits of a byte enter from the lowest if the input is reflected, and from the highest otherwise. */
  lemma BitsEnter(reflectIn: bool, b: uint8, k: nat)
    requires k < 8
    ensures |MessageBits(reflectIn, [b])| == 8
    ensures MessageBits(reflectIn, [b])[k] == Bit(b, if reflectIn then k else 7 - k)
  {
    hide *;
    OneByte(reflectIn, b);
    InBitsAt(reflectIn, b, k);
    BitAt(b, if reflectIn then 7 - k else k);
  }

  lemma InBitsAt(reflectIn: bool, b: uint8, k: nat)
    requires k < 8
    ensures InBits(reflectIn, b)[k] == ByteBits(b)[if reflectIn then 7 - k else k]
  {
    hide ByteBits;
  }

  lemma OneByte(reflectIn: bool, b: uint8)
    ensures MessageBits(reflectIn, [b]) == InBits(reflectIn, b)
  {
    hide InBits;
    assert [b][..0] == [];
    assert MessageBits(reflectIn, [b]) == [] + InBits(reflectIn, b);
  }

  /** Bit `i` of a finished result. */
  lemma FinishAt(s: Spec, reg: Bits, i: nat)
    requires s.Ok() && |reg| == |s.g| && i < |reg|
    ensures Finish(s, reg)[i] == (reg[if s.reflectOut then |reg| - 1 - i else i] != s.xorOut[i])
  {
  }

  /** Dividing in two parts, with the first remainder as the second register, is dividing once. */
  lemma DividedInParts(s: Spec, start: Bits, a: seq<uint8>, b: seq<uint8>)
    requires s.Ok() && |start| == |s.g|
    ensures Divided(s, Divided(s, start, a), b) == Divided(s, start, a + b)
  {
    var ma, mb := MessageBits(s.reflectIn, a), MessageBits(s.reflectIn, b);
    MessageBitsSplit(s.reflectIn, a, b);
    RegisterDivides(s.g, start, ma);
    RegisterDivides(s.g, Divided(s, start, a), mb);
    RegisterDivides(s.g, start, ma + mb);
    EnterAllSplit(s.g, start, ma, mb);
  }

  lemma ResumeUndoesFinish(s: Spec, reg: Bits)
    requires s.Ok() && |reg| == |s.g|
    ensures Resume(s, Finish(s, reg)) == reg
  {
  }

  /** A calculation resumed from a finished result is the calculation of the whole. */
  lemma ResumedCalculation(s: Spec, a: seq<uint8>, b: seq<uint8>)
    requires s.Ok()
    ensures var first := Finish(s, Divided(s, s.init, a));
            Finish(s, Divided(s, Resume(s, first), b)) == Finish(s, Divided(s, s.init, a + b))
  {
    ResumeUndoesFinish(s, Divided(s, s.init, a));
    DividedInParts(s, s.init, a, b);
  }

  // ---------------------------------------------------------------- the code

  lemma {:induction false} ShiftsLast(g: Bits, r: Bits, n: nat)
    requires |g| == |r| > 0
    ensures Shifts(g, r, n + 1) == Shift(g, Shifts(g, r, n))
    decreases n
  {
    if n > 0 {
      ShiftsLast(g, Shift(g, r), n - 1);
    }
  }

  /** What the table holds for a byte: the byte at the top of the register, shifted out. */
  ghost function Entry(g: Bits, v: uint8): (r: Bits)
    requires 8 <= |g|
    ensures |r| == |g|
  {
    Shifts(g, ByteBits(v) + Zeros(|g| - 8), 8)
  }

  /** Reverses the low `width` bits. */
  method ReflectBits(data0: uint64, width: nat) returns (reflection: uint64)
    requires width < 64
    ensures Low(reflection, width) == Reverse(Low(data0, width))
  {
    reflection := 0;
    var data := data0;
    LowOfZero(width);
    ghost var bits := Low(data0, width);
    hide Left, Or, Half, Odd, Low;
    for bit := 0 to width
      invariant Low(data, width - bit) == bits[..width - bit]
      invariant forall i | 0 <= i < width :: Low(reflection, width)[i] == (i < bit && bits[width - 1 - i])
    {
      LowLast(data, width - bit - 1);
      if Odd(data) {
        SetBit(reflection, (width - 1) - bit, width);
        reflection := Or(reflection, Left(1, (width - 1) - bit));
      }
      data := Half(data);
    }
  }

  class CrcParameter {
    const m_width: nat
    const m_polynomial: uint64
    const m_initialValue: uint64
    const m_reflectInput: bool
    const m_reflectOutput: bool
    const m_xorOutput: uint64
    const m_mask: uint64
    const m_highBit: uint64
    const m_table: array<uint64>

    ghost function G(): Bits { Low(m_polynomial, m_width) }

    ghost function ToSpec(): Spec {
      Spec(G(), Low(m_initialValue, m_width), m_reflectInput, m_reflectOutput, Low(m_xorOutput, m_width))
    }

    ghost predicate Ok() {
      && 8 <= m_width < 64 && m_table.Length == 256
      && m_mask == Left(1, m_width) - 1 && m_highBit == Left(1, m_width - 1)
    }

    ghost predicate Filled(i: nat)
      requires Ok() && i < 256
      reads m_table
    {
      Low(m_table[i], m_width) == Entry(G(), i as bv8)
    }

    ghost predicate Valid()
      reads m_table
    {
      Ok() && forall i: nat | i < 256 :: Filled(i)
    }

    constructor (width: nat, polynomial: uint64, initValue: uint64, reflectIn: bool, reflectOut: bool, xorOut: uint64)
      requires 8 <= width < 64
      ensures Valid() && fresh(m_table)
      ensures m_width == width && m_initialValue == initValue
      ensures ToSpec() == Spec(Low(polynomial, width), Low(initValue, width), reflectIn, reflectOut, Low(xorOut, width))
    {
      m_width, m_polynomial, m_initialValue := width, polynomial, initValue;
      m_reflectInput, m_reflectOutput, m_xorOutput := reflectIn, reflectOut, xorOut;
      m_mask := Left(1, width) - 1;
      m_highBit := Left(1, width - 1);
      m_table := new uint64[256];
      new;
      UpdateTable();
    }

    /** One shift of the unmasked word is one shift of the register it holds. */
    lemma ShiftIsShift(crc: uint64)
      requires Ok()
      ensures Low(if And(crc, m_highBit) != 0 then Xor(Left(crc, 1), m_polynomial) else Left(crc, 1), m_width)
              == Shift(G(), Low(crc, m_width))
    {
      var r, n := Low(crc, m_width), m_width - 1;
      hide *;
      OkMeans();
      TestBit(crc, n);
      LowOfLeft(crc, 1, n);
      LowPrefix(crc, n);
      OneZero();
      LowOfXor(Left(crc, 1), m_polynomial, m_width);
      ShiftCases(G(), r, Low(Left(crc, 1), m_width));
    }

    lemma OkMeans()
      requires Ok()
      ensures 8 <= m_width < 64 && m_highBit == Left(1, m_width - 1) && G() == Low(m_polynomial, m_width)
    {
    }

    method EightShifts(start: uint64) returns (crc: uint64)
      requires Ok()
      ensures Low(crc, m_width) == Shifts(G(), Low(start, m_width), 8)
    {
      hide Left, And, Xor, Low, Shifts, Shift;
      crc := start;
      ShiftsNone(G(), Low(start, m_width));
      for j := 0 to 8
        invariant Low(crc, m_width) == Shifts(G(), Low(start, m_width), j)
      {
        ShiftIsShift(crc);
        ShiftsLast(G(), Low(start, m_width), j);
        if And(crc, m_highBit) != 0 {
          crc := Xor(Left(crc, 1), m_polynomial);
        } else {
          crc := Left(crc, 1);
        }
      }
    }

    lemma EntryOf(v: uint8)
      requires Valid()
      ensures Low(m_table[v as int], m_width) == Entry(G(), v)
    {
      assert Filled(v as int);
      IndexRoundTrip(v);
    }

    method FillEntry(i: nat)
      requires Ok() && i < 256
      modifies m_table
      ensures Filled(i)
      ensures forall k: nat | k < 256 && k != i && old(Filled(k)) :: Filled(k)
    {
      hide Low, Left, Shifts;
      var shift := m_width - 8;
      var v := i as bv8;
      LowOfLeft(v as bv64, shift, 8);
      var crc := EightShifts(Left(v as bv64, shift));
      m_table[i] := crc;
    }

    method UpdateTable()
      requires Ok()
      modifies m_table
      ensures Valid()
    {
      hide Filled, Ok;
      for i := 0 to 256
        invariant forall k: nat | k < i :: Filled(k)
      {
        FillEntry(i);
      }
    }
  }

  lemma OneZero()
    ensures Zeros(1) == [false]
  {
  }

  /** A shift, by the bit that leaves the register. */
  lemma ShiftCases(g: Bits, r: Bits, left: Bits)
    requires |g| == |r| == |left| > 0 && left == r[1..] + [false]
    ensures Shift(g, r) == if r[0] then Sum(left, g) else left
  {
    assert Sum(left, Zeros(|r|)) == left;
  }

  lemma IndexRoundTrip(v: uint8)
    ensures (v as int) as bv8 == v
  {
  }

  lemma ShiftsNone(g: Bits, r: Bits)
    requires |g| == |r| > 0
    ensures Shifts(g, r, 0) == r
  {
  }

  class CrcCalculator {
    const m_param: CrcParameter
    var m_currentValue: uint64

    ghost function S(): Spec { m_param.ToSpec() }

    /** The register: the part of the running value that counts. */
    ghost function Register(): (r: Bits)
      reads this
      ensures |r| == m_param.m_width
    {
      Low(m_currentValue, m_param.m_width)
    }

    ghost predicate Valid()
      reads m_param.m_table
    {
      m_param.Valid()
    }

    constructor (param: CrcParameter)
      requires param.Valid()
      ensures Valid() && m_param == param && Register() == S().init
    {
      m_param := param;
      new;
      m_currentValue := Mask(param.m_initialValue);
    }

    method Reset()
      requires Valid()
      modifies this
      ensures Register() == S().init
    {
      m_currentValue := Mask(m_param.m_initialValue);
    }

    /** One byte through the table. */
    method Step(crc: uint64, byte: uint8) returns (crc': uint64)
      requires Valid()
      ensures Low(crc', m_param.m_width) == EnterAll(S().g, Low(crc, m_param.m_width), ByteBits(byte))
    {
      var shift := m_param.m_width - 8;
      var index := Xor(Right(crc, shift), byte as bv64);
      var v := LowByte(index);
      m_param.EntryOf(v);
      hide *;
      crc' := Xor(Left(crc, 8), m_param.m_table[v as int]);
      TableStep(S().g, shift, crc, byte, v, m_param.m_table[v as int]);
    }

    /** The value with the bits above the register cleared, as every call leaves it. */
    ghost predicate Masked(x: uint64) {
      And(x, Ones(m_param.m_width)) == x
    }

    method Mask(x: uint64) returns (r: uint64)
      requires Valid()
      ensures Masked(r) && Low(r, m_param.m_width) == Low(x, m_param.m_width)
    {
      r := And(x, m_param.m_mask);
      MaskIsOnes(m_param.m_width);
      LowOfMasked(x, m_param.m_width);
      AndTwice(x, Ones(m_param.m_width));
      hide And, Low;
    }

    method Update(data: seq<uint8>)
      requires Valid()
      modifies this
      ensures Register() == Divided(S(), old(Register()), data) && Masked(m_currentValue)
    {
      ghost var g, reflectIn, r := S().g, m_param.m_reflectInput, Register();
      var crc := m_currentValue;
      hide EnterAll, MessageBits, Low, Masked;
      EnterNothing(reflectIn, g, r);
      for i := 0 to |data|
        invariant Low(crc, m_param.m_width) == EnterAll(g, r, MessageBits(reflectIn, data[..i]))
      {
        var byte := data[i];
        if m_param.m_reflectInput { byte := ReflectByte(byte); }
        crc := Step(crc, byte);
        EnterOneMore(reflectIn, g, r, data, i);
      }
      assert data[..|data|] == data;
      m_currentValue := Mask(crc);
      RegisterDivides(g, r, MessageBits(reflectIn, data));
    }

    method Finalize() returns (crc: uint64)
      requires Valid()
      ensures Low(crc, m_param.m_width) == Finish(S(), Register()) && Masked(crc)
    {
      hide Low, Masked, Xor;
      crc := m_currentValue;
      if m_param.m_reflectOutput {
        crc := ReflectBits(crc, m_param.m_width);
      }
      LowOfXor(crc, m_param.m_xorOutput, m_param.m_width);
      crc := Xor(crc, m_param.m_xorOutput);
      crc := Mask(crc);
    }

    method Calc(data: seq<uint8>) returns (crc: uint64)
      requires Valid()
      modifies this
      ensures Low(crc, m_param.m_width) == Finish(S(), Divided(S(), S().init, data)) && Masked(crc)
      ensures Register() == S().init
    {
      hide Divided, Finish, Masked;
      Reset();
      Update(data);
      crc := Finalize();
      Reset();
    }

    /** Continues from the finished result of an earlier calculation. */
    method CalcFrom(data: seq<uint8>, prevResult: uint64) returns (crc: uint64)
      requires Valid()
      modifies this
      ensures Low(crc, m_param.m_width) ==
              Finish(S(), Divided(S(), Resume(S(), Low(prevResult, m_param.m_width)), data))
      ensures Masked(crc) && Register() == S().init
    {
      hide Divided, Finish, Masked, Low, Xor;
      var prev := Mask(prevResult);
      LowOfXor(prev, m_param.m_xorOutput, m_param.m_width);
      prev := Xor(prev, m_param.m_xorOutput);
      if m_param.m_reflectOutput {
        prev := ReflectBits(prev, m_param.m_width);
      }
      m_currentValue := prev;
      Update(data);
      crc := Finalize();
      Reset();
    }

    /** What this means for the words: `first` from `Calc(a)`, `second` from `CalcFrom(b, first)` and
        `whole` from `Calc(a + b)`. */
    lemma PartsAreWhole(a: seq<uint8>, b: seq<uint8>, first: uint64, second: uint64, whole: uint64)
      requires Valid() && Masked(second) && Masked(whole)
      requires Low(first, m_param.m_width) == Finish(S(), Divided(S(), S().init, a))
      requires Low(second, m_param.m_width) == Finish(S(), Divided(S(), Resume(S(), Low(first, m_param.m_width)), b))
      requires Low(whole, m_param.m_width) == Finish(S(), Divided(S(), S().init, a + b))
      ensures second == whole
    {
      hide Divided, Finish, Resume, Low, And, Ones;
      ResumedCalculation(S(), a, b);
      MaskedWordsEqual(second, whole, m_param.m_width);
    }
  }

  /** The table is looked up by the top byte of the register, added to the byte that enters. */
  lemma TopByte(shift: nat, crc: uint64, byte: uint8)
    ensures ByteBits(LowByte(Xor(Right(crc, shift), byte as bv64))) == Sum(Low(crc, shift + 8)[..8], ByteBits(byte))
  {
    LowOfLowByte(Xor(Right(crc, shift), byte as bv64));
    LowOfXor(Right(crc, shift), byte as bv64, 8);
    LowOfRight(crc, shift, 8);
    hide Low, Right, Xor, LowByte;
  }

  lemma TableStep(g: Bits, shift: nat, crc: uint64, byte: uint8, v: uint8, entry: uint64)
    requires |g| == shift + 8 < 64 && v == LowByte(Xor(Right(crc, shift), byte as bv64))
    requires Low(entry, shift + 8) == Entry(g, v)
    ensures Low(Xor(Left(crc, 8), entry), shift + 8) == EnterAll(g, Low(crc, shift + 8), ByteBits(byte))
  {
    hide *;
    var r := Low(crc, shift + 8);
    TopByte(shift, crc, byte);
    LowOfXor(Left(crc, 8), entry, shift + 8);
    LowOfLeft(crc, 8, shift);
    LowDrop(crc, shift, 8);
    EntryEnters(g, r, ByteBits(byte), v);
  }

  lemma EntryEnters(g: Bits, r: Bits, b: Bits, v: uint8)
    requires |g| == |r| >= 8 == |b| && ByteBits(v) == Sum(r[..8], b)
    ensures Sum(r[8..] + Zeros(8), Entry(g, v)) == EnterAll(g, r, b)
  {
    hide Shifts, Sum, Zeros, EnterAll, ByteBits;
    ByteStepEnters(g, r, b);
  }

  lemma AndTwice(x: uint64, m: uint64)
    ensures And(And(x, m), m) == And(x, m)
  {
  }

  /** Masked words with the same register bits are the same word. */
  lemma MaskedWordsEqual(x: uint64, y: uint64, width: nat)
    requires And(x, Ones(width)) == x && And(y, Ones(width)) == y && Low(x, width) == Low(y, width)
    ensures x == y
  {
    MaskedFromLow(x, y, width);
  }

  lemma EnterNothing(reflectIn: bool, g: Bits, r: Bits)
    requires |g| == |r| > 0
    ensures EnterAll(g, r, MessageBits(reflectIn, [])) == r
  {
  }

  lemma EnterOneMore(reflectIn: bool, g: Bits, r: Bits, data: seq<uint8>, i: nat)
    requires |g| == |r| > 0 && i < |data|
    ensures EnterAll(g, r, MessageBits(reflectIn, data[..i + 1])) ==
            EnterAll(g, EnterAll(g, r, MessageBits(reflectIn, data[..i])), InBits(reflectIn, data[i]))
  {
    NextBits(reflectIn, data, i);
    hide *;
    EnterAllSplit(g, r, MessageBits(reflectIn, data[..i]), InBits(reflectIn, data[i]));
  }

  lemma NextBits(reflectIn: bool, data: seq<uint8>, i: nat)
    requires i < |data|
    ensures MessageBits(reflectIn, data[..i + 1]) == MessageBits(reflectIn, data[..i]) + InBits(reflectIn, data[i])
  {
    hide InBits;
    var upto := data[..i + 1];
    assert upto[..|upto| - 1] == data[..i] && upto[|upto| - 1] == data[i];
  }

  /** The byte with its bits in reverse order, as tabulated in the source. */
  method ReflectByte(b: uint8) returns (r: uint8)
    ensures ByteBits(r) == Reverse(ByteBits(b))
  {
    var x := ReflectBits(b as bv64, 8);
    LowOfLowByte(x);
    r := LowByte(x);
  }

  function LowByte(x: uint64): uint8 {
    (x & 0xFF) as bv8
  }

  lemma LowByteIsMasked(x: uint64)
    ensures LowByte(x) as bv64 == And(x, 0xFF)
  {
  }

  lemma OnesEight()
    ensures Ones(8) == 0xFF
  {
    assert Ones(2) == 3;
    assert Ones(4) == 15;
    assert Ones(6) == 63;
  }

  lemma LowOfLowByte(x: uint64)
    ensures ByteBits(LowByte(x)) == Low(x, 8)
  {
    LowByteIsMasked(x);
    OnesEight();
    LowOfMasked(x, 8);
    hide Low, LowByte, And, Ones;
  }
}
