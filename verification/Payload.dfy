/** The tagged binary payload: every value under a byte that holds its type and, if it fits, its length. */
module Payloads {
  import opened Basics

  // ---------------------------------------------------------------- values in memory, low byte first

  function Pow256(k: nat): (n: nat)
    ensures n >= 1
  {
    if k == 0 then 1 else 0x100 * Pow256(k - 1)
  }

  function LeBytes(v: nat, k: nat): (r: Bytes)
    ensures |r| == k
  {
    if k == 0 then [] else [(v % 0x100) as uint8] + LeBytes(v / 0x100, k - 1)
  }

  function FromLe(b: Bytes): nat {
    if b == [] then 0 else b[0] as nat + 0x100 * FromLe(b[1..])
  }

  lemma {:induction false} LeBack(v: nat, k: nat)
    requires v < Pow256(k)
    ensures FromLe(LeBytes(v, k)) == v
  {
    if k > 0 {
      LeBack(v / 0x100, k - 1);
      assert LeBytes(v, k)[1..] == LeBytes(v / 0x100, k - 1);
    }
  }

  /** Two's complement. */
  function ToUnsigned(v: int, k: nat): int { if v < 0 then v + Pow256(k) else v }
  function ToSigned(n: int, k: nat): int { if 2 * n >= Pow256(k) then n - Pow256(k) else n }

  // ---------------------------------------------------------------- typed values

  const BOOLEAN: nat := 1
  const SINT: nat := 2
  const UINT: nat := 3
  const FLOAT: nat := 4
  const STRING: nat := 5
  const CARRAY: nat := 6

  /** Integers of `k` bytes, floating point numbers as their bytes, strings and arrays. */
  datatype Item =
    | Boolean(b: bool) | Sint(k: nat, v: int) | Uint(k: nat, n: nat) | Float(raw: Bytes) | Text(s: Bytes)
      | CArray(a: Bytes)

  predicate Width(k: nat) { k == 1 || k == 2 || k == 4 || k == 8 }

  predicate Proper(i: Item) {
    match i
    case Boolean(_) => true
    case Sint(k, v) => Width(k) && 0 - Pow256(k) <= 2 * v < Pow256(k)
    case Uint(k, n) => Width(k) && n < Pow256(k)
    case Float(raw) => |raw| == 4 || |raw| == 8
    case Text(s) => |s| + 1 < TWO32
    case CArray(a) => 0 < |a| < TWO32
  }

  function MakeFlag(ty: nat, len: nat): uint8
    requires ty < 16
  {
    (ty * 16 + len % 16) as uint8
  }

  /** A length up to 15 goes into the flag, a longer one into four bytes behind it. */
  function Tag(ty: nat, len: nat): Bytes
    requires ty < 16
  {
    if len > 15 then [MakeFlag(ty, 0)] + LeBytes(len, 4) else [MakeFlag(ty, len)]
  }

  function Written(i: Item): Bytes {
    match i
    case Boolean(b) => [MakeFlag(BOOLEAN, if b then 1 else 0)]
    case Sint(k, v) => [MakeFlag(SINT, k)] + LeBytes(if ToUnsigned(v, k) >= 0 then ToUnsigned(v, k) else 0, k)
    case Uint(k, n) => [MakeFlag(UINT, k)] + LeBytes(n, k)
    case Float(raw) => [MakeFlag(FLOAT, |raw|)] + raw
    case Text(s) => Tag(STRING, |s| + 1) + s + [0]
    case CArray(a) => Tag(CARRAY, |a|) + a
  }

  ghost function WrittenAll(items: seq<Item>): Bytes {
    if items == [] then [] else Written(items[0]) + WrittenAll(items[1..])
  }

  // ---------------------------------------------------------------- reading

  /** What the caller asks for; an array comes with the size of the caller's buffer. */
  datatype Want = WantBoolean | WantSint(k: nat) | WantUint(k: nat) | WantFloat(k: nat) | WantText
    | WantCArray(room: nat)

  /** A value and the position behind it; a refusal that moves nothing; or a read outside the payload. */
  datatype Got = Got(item: Item, pos: nat) | No | Overrun

  function TypeAt(p: Bytes, pos: nat): nat
    requires pos < |p|
  {
    p[pos] as nat / 16
  }

  function LenAt(p: Bytes, pos: nat): nat
    requires pos < |p|
  {
    p[pos] as nat % 16
  }

  /** The length of an array or string: in the flag or behind it. */
  function LengthAt(p: Bytes, pos: nat): Option<nat>
    requires pos < |p|
  {
    if LenAt(p, pos) != 0 then Some(LenAt(p, pos))
    else if pos + 5 <= |p| then Some(FromLe(p[pos + 1..pos + 5])) else None
  }

  function ReadAt(p: Bytes, pos: nat, want: Want): Got {
    match want
    case WantBoolean =>
      if pos >= |p| || TypeAt(p, pos) != BOOLEAN then No else Got(Boolean(LenAt(p, pos) != 0), pos + 1)
    case WantSint(k) => ReadNumber(p, pos, SINT, k)
    case WantUint(k) => ReadNumber(p, pos, UINT, k)
    case WantFloat(k) => ReadNumber(p, pos, FLOAT, k)
    case WantText => ReadText(p, pos)
    case WantCArray(room) => ReadCArray(p, pos, room)
  }

  function ReadText(p: Bytes, pos: nat): Got {
    if pos >= |p| || TypeAt(p, pos) != STRING then No
    else match LengthAt(p, pos)
      case None => Overrun
      case Some(n) =>
        var at := if LenAt(p, pos) == 0 then pos + 5 else pos + 1;
        if n == 0 || at + n - 1 > |p| then Overrun else Got(Text(p[at..at + n - 1]), at + n)
  }

  /** The length is looked up before the type is. */
  function ReadCArray(p: Bytes, pos: nat, room: nat): Got {
    if pos >= |p| then No
    else match LengthAt(p, pos)
      case None => Overrun
      case Some(n) =>
        if TypeAt(p, pos) != CARRAY || n > room then No
        else
          var at := if n > 15 then pos + 5 else pos + 1;
          if at + n > |p| then Overrun else Got(CArray(p[at..at + n]), at + n)
  }

  function NumberOf(ty: nat, raw: Bytes): Item {
    if ty == SINT then Sint(|raw|, ToSigned(FromLe(raw), |raw|))
    else if ty == UINT then Uint(|raw|, FromLe(raw)) else Float(raw)
  }

  /** A number of `k` bytes; the flag is not counted in the first check. */
  function ReadNumber(p: Bytes, pos: nat, ty: nat, k: nat): Got {
    if pos + k > |p| then No
    else if pos >= |p| then Overrun
    else if TypeAt(p, pos) != ty || LenAt(p, pos) != k then No
    else if pos + 1 + k > |p| then Overrun
    else
      var raw := p[pos + 1..pos + 1 + k];
      Got(NumberOf(ty, raw), pos + 1 + k)
  }

  /** The request that fits a value. */
  function WantOf(i: Item, room: nat): Want {
    match i
    case Boolean(_) => WantBoolean
    case Sint(k, _) => WantSint(k)
    case Uint(k, _) => WantUint(k)
    case Float(raw) => WantFloat(|raw|)
    case Text(_) => WantText
    case CArray(a) => WantCArray(|a| + room)
  }

  lemma FlagParts(ty: nat, len: nat)
    requires ty < 16 && len < 16
    ensures MakeFlag(ty, len) as nat / 16 == ty && MakeFlag(ty, len) as nat % 16 == len
  {
  }

  lemma NumberBack(a: Bytes, ty: nat, raw: Bytes, b: Bytes)
    requires ty < 16 && Width(|raw|)
    ensures var p := a + ([MakeFlag(ty, |raw|)] + raw) + b; var k := |raw|;
            ReadNumber(p, |a|, ty, k) ==
            Got(NumberOf(ty, raw), |a| + 1 + k)
  {
    FlagParts(ty, |raw|);
    Middle(a, [MakeFlag(ty, |raw|)], raw, b);
    hide MakeFlag, FromLe, ToSigned;
  }

  /** What stands at its place between `a` and `b`. */
  lemma Middle(a: Bytes, x: Bytes, y: Bytes, b: Bytes)
    ensures var p := a + (x + y) + b;
            && |p| == |a| + |x| + |y| + |b| && (x != [] ==> p[|a|] == x[0])
            && p[|a|..|a| + |x|] == x && p[|a| + |x|..|a| + |x| + |y|] == y
  {
  }

  lemma Pow256Of4()
    ensures Pow256(4) == TWO32
  {
    assert Pow256(2) == 0x1_0000;
  }

  /** The tag of a string or array, read back: the length, and where the bytes begin. */
  lemma TagBack(a: Bytes, ty: nat, len: nat, rest: Bytes)
    requires ty < 16 && 0 < len < TWO32
    ensures var p := a + Tag(ty, len) + rest;
            && |a| < |p| && TypeAt(p, |a|) == ty && LengthAt(p, |a|) == Some(len)
            && (LenAt(p, |a|) == 0 <==> len > 15) && |Tag(ty, len)| == if len > 15 then 5 else 1
  {
    var p := a + Tag(ty, len) + rest;
    FlagParts(ty, if len > 15 then 0 else len);
    assert p[|a|] == MakeFlag(ty, if len > 15 then 0 else len);
    hide MakeFlag;
    if len > 15 {
      Pow256Of4();
      LeBack(len, 4);
      assert p[|a| + 1..|a| + 5] == LeBytes(len, 4);
    }
    hide LeBytes, FromLe;
  }

  /** What is read of a text whose length is known. */
  lemma TextIs(p: Bytes, pos: nat, n: nat)
    requires pos < |p| && TypeAt(p, pos) == STRING && LengthAt(p, pos) == Some(n) && n > 0
    requires LenAt(p, pos) == 0 <==> n > 15
    ensures var at := if n > 15 then pos + 5 else pos + 1;
            ReadText(p, pos) == if at + n - 1 > |p| then Overrun else Got(Text(p[at..at + n - 1]), at + n)
  {
    hide TypeAt, LenAt, LengthAt;
  }

  lemma TextBack(a: Bytes, s: Bytes, b: Bytes)
    requires |s| + 1 < TWO32
    ensures ReadText(a + Written(Text(s)) + b, |a|) == Got(Text(s), |a| + |Written(Text(s))|)
  {
    var tag := Tag(STRING, |s| + 1);
    TagBack(a, STRING, |s| + 1, s + [0] + b);
    assert Written(Text(s)) == tag + s + [0];
    hide *;
    Middle(a, tag, s, [0] + b);
    TextParts(a, tag, s, b);
    TextIs(a + tag + (s + [0] + b), |a|, |s| + 1);
  }

  lemma TextParts(a: Bytes, tag: Bytes, s: Bytes, b: Bytes)
    ensures a + (tag + s + [0]) + b == a + tag + (s + [0] + b) == a + (tag + s) + ([0] + b)
  {
  }

  /** What is read of an array whose length is known. */
  lemma ArrayIs(p: Bytes, pos: nat, n: nat, room: nat)
    requires pos < |p| && TypeAt(p, pos) == CARRAY && LengthAt(p, pos) == Some(n)
    ensures var at := if n > 15 then pos + 5 else pos + 1;
            ReadCArray(p, pos, room) ==
              if n > room then No else if at + n > |p| then Overrun else Got(CArray(p[at..at + n]), at + n)
  {
    hide TypeAt, LengthAt;
  }

  /** A written array, whatever the room for it. */
  lemma ArrayRead(a: Bytes, x: Bytes, b: Bytes, room: nat)
    requires 0 < |x| < TWO32
    ensures ReadCArray(a + Written(CArray(x)) + b, |a|, room) ==
            if |x| > room then No else Got(CArray(x), |a| + |Written(CArray(x))|)
  {
    var tag := Tag(CARRAY, |x|);
    TagBack(a, CARRAY, |x|, x + b);
    assert Written(CArray(x)) == tag + x;
    hide *;
    ArrayParts(a, tag, x, b);
    Middle(a, tag, x, b);
    ArrayIs(a + tag + (x + b), |a|, |x|, room);
  }

  lemma ArrayParts(a: Bytes, tag: Bytes, x: Bytes, b: Bytes)
    ensures a + (tag + x) + b == a + tag + (x + b)
  {
  }

  lemma CArrayBack(a: Bytes, x: Bytes, b: Bytes, room: nat)
    requires 0 < |x| < TWO32
    ensures ReadCArray(a + Written(CArray(x)) + b, |a|, |x| + room) == Got(CArray(x), |a| + |Written(CArray(x))|)
  {
    hide *;
    ArrayRead(a, x, b, |x| + room);
  }

  lemma SignedBack(v: int, k: nat)
    requires 0 - Pow256(k) <= 2 * v < Pow256(k)
    ensures 0 <= ToUnsigned(v, k) < Pow256(k) && ToSigned(ToUnsigned(v, k), k) == v
  {
  }

  /** A value written anywhere is read back, and the position is behind it. */
  lemma ReadBack(a: Bytes, i: Item, b: Bytes, room: nat)
    requires Proper(i)
    ensures ReadAt(a + Written(i) + b, |a|, WantOf(i, room)) == Got(i, |a| + |Written(i)|)
  {
    hide ReadNumber, ReadText, ReadCArray, LeBytes, FromLe, Pow256, ToSigned, ToUnsigned, Tag;
    match i
    case Boolean(x) =>
      FlagParts(BOOLEAN, if x then 1 else 0);
    case Sint(k, v) =>
      SignedBack(v, k);
      NumberBack(a, SINT, LeBytes(ToUnsigned(v, k), k), b);
      LeBack(ToUnsigned(v, k), k);
    case Uint(k, n) =>
      NumberBack(a, UINT, LeBytes(n, k), b);
      LeBack(n, k);
    case Float(raw) =>
      NumberBack(a, FLOAT, raw, b);
    case Text(s) =>
      TextBack(a, s, b);
    case CArray(x) =>
      CArrayBack(a, x, b, room);
  }

  function TypeOf(i: Item): nat {
    match i
    case Boolean(_) => BOOLEAN
    case Sint(_, _) => SINT
    case Uint(_, _) => UINT
    case Float(_) => FLOAT
    case Text(_) => STRING
    case CArray(_) => CARRAY
  }

  /** In front of a value its type is read, whatever stands around. */
  lemma TypeInFront(a: Bytes, i: Item, b: Bytes)
    requires Proper(i)
    ensures var p := a + Written(i) + b; |a| < |p| && TypeAt(p, |a|) == TypeOf(i)
  {
    hide LeBytes, FromLe, Pow256, ToUnsigned;
    assert Written(i) != [] && (a + Written(i) + b)[|a|] == Written(i)[0];
  }

  // ---------------------------------------------------------------- cut payloads

  /** A number is read beyond the payload if and only if exactly its last byte is missing: the check of the
      code leaves out the flag. */
  lemma NumberOverrun(p: Bytes, pos: nat, ty: nat, k: nat)
    requires Width(k)
    ensures ReadNumber(p, pos, ty, k) == Overrun <==> pos + k == |p| && TypeAt(p, pos) == ty && LenAt(p, pos) == k
  {
  }

  /** A text is, if its length is cut or zero, or more than its closing NUL is missing. */
  lemma TextOverrun(p: Bytes, pos: nat)
    ensures ReadText(p, pos) == Overrun <==>
            && pos < |p| && TypeAt(p, pos) == STRING
            && if LenAt(p, pos) > 0 then pos + LenAt(p, pos) > |p|
               else pos + 5 > |p| || FromLe(p[pos + 1..pos + 5]) == 0 || pos + 4 + FromLe(p[pos + 1..pos + 5]) > |p|
  {
    hide FromLe;
  }

  /** An array is, if a byte of it is missing that fits the caller's buffer; and its length is looked up, cut
      or not, before its type, so that any value whose flag holds no length may be read beyond its end. */
  lemma ArrayOverrun(p: Bytes, pos: nat, room: nat)
    ensures ReadCArray(p, pos, room) == Overrun <==>
            && pos < |p|
            && match LengthAt(p, pos)
               case None => true
               case Some(n) => TypeAt(p, pos) == CARRAY && n <= room && pos + (if n > 15 then 5 else 1) + n > |p|
  {
    hide FromLe;
  }

  /** The smallest such payload: the flag of a number of one byte. */
  lemma CutNumber()
    ensures ReadNumber([MakeFlag(UINT, 1)], 0, UINT, 1) == Overrun
  {
    FlagParts(UINT, 1);
  }

  /** Of a value cut anywhere: what its reader makes of the beginning `c`.  A text comes back even without
      its closing NUL. */
  lemma CutBack(a: Bytes, i: Item, c: Bytes, room: nat)
    requires Proper(i) && c < Written(i)
    ensures ReadAt(a + c, |a|, WantOf(i, room)) ==
            if c == [] then No
            else match i
              case Text(s) => if |c| == |Written(i)| - 1 then Got(i, |a| + |Written(i)|) else Overrun
              case CArray(_) => Overrun
              case _ => if |c| == |Written(i)| - 1 then Overrun else No
  {
    hide ReadNumber, ReadText, ReadCArray, LeBytes, FromLe, Pow256, ToSigned, ToUnsigned, Tag;
    if c != [] {
      match i
      case Boolean(x) =>
      case Sint(k, v) => CutNumberBack(a, SINT, k, c);
      case Uint(k, n) => CutNumberBack(a, UINT, k, c);
      case Float(raw) => CutNumberBack(a, FLOAT, |raw|, c);
      case Text(s) => CutText(a, s, c);
      case CArray(x) => CutArray(a, x, c, room);
    } else {
      assert a + c == a;
      CutEmpty(a, i, room);
    }
  }

  lemma CutEmpty(a: Bytes, i: Item, room: nat)
    requires Proper(i)
    ensures ReadAt(a, |a|, WantOf(i, room)) == No
  {
  }

  lemma CutNumberBack(a: Bytes, ty: nat, k: nat, c: Bytes)
    requires ty < 16 && Width(k) && c != [] && |c| <= k && c[0] == MakeFlag(ty, k)
    ensures ReadNumber(a + c, |a|, ty, k) == if |c| == k then Overrun else No
  {
    FlagParts(ty, k);
    assert (a + c)[|a|] == MakeFlag(ty, k);
    hide MakeFlag, FromLe;
  }

  /** What a tag says when it is cut, or what follows it is. */
  lemma CutTag(a: Bytes, ty: nat, len: nat, x: Bytes, c: Bytes)
    requires ty < 16 && 0 < len < TWO32 && c != [] && c <= Tag(ty, len) + x
    ensures |a| < |a + c| && TypeAt(a + c, |a|) == ty && (LenAt(a + c, |a|) == 0 <==> len > 15)
    ensures LengthAt(a + c, |a|) == if |c| < |Tag(ty, len)| then None else Some(len)
  {
    var tag := Tag(ty, len);
    assert c[0] == tag[0] && (a + c)[|a|] == tag[0];
    FlagParts(ty, if len > 15 then 0 else len);
    if |c| >= |tag| {
      assert (tag + x)[..|c|] == c;
      assert c == tag + c[|tag|..];
      TagBack(a, ty, len, c[|tag|..]);
      assert a + c == a + tag + c[|tag|..];
    }
    hide MakeFlag, LeBytes, FromLe;
  }

  lemma CutText(a: Bytes, s: Bytes, c: Bytes)
    requires |s| + 1 < TWO32 && c != [] && c < Written(Text(s))
    ensures var w := |Written(Text(s))|;
            ReadText(a + c, |a|) == if |c| == w - 1 then Got(Text(s), |a| + w) else Overrun
  {
    var tag := Tag(STRING, |s| + 1);
    assert Written(Text(s)) == tag + (s + [0]);
    CutTag(a, STRING, |s| + 1, s + [0], c);
    assert |tag| == if |s| + 1 > 15 then 5 else 1;
    if |c| < |tag| {
      hide Tag, TypeAt, LenAt, LengthAt, Written;
      assert ReadText(a + c, |a|) == Overrun;
    } else {
      hide *;
      TextIs(a + c, |a|, |s| + 1);
      if |c| == |tag| + |s| {
        WithoutNul(a, tag, s, c);
      }
    }
  }

  lemma WithoutNul(a: Bytes, tag: Bytes, s: Bytes, c: Bytes)
    requires c < tag + (s + [0]) && |c| == |tag| + |s|
    ensures (a + c)[|a| + |tag|..|a| + |tag| + |s|] == s
  {
    assert c == (tag + (s + [0]))[..|c|] == tag + s;
  }

  lemma CutArray(a: Bytes, x: Bytes, c: Bytes, room: nat)
    requires 0 < |x| < TWO32 && c != [] && c < Written(CArray(x))
    ensures ReadCArray(a + c, |a|, |x| + room) == Overrun
  {
    CutTag(a, CARRAY, |x|, x, c);
    hide Tag, TypeAt, LenAt, LengthAt;
    assert |Tag(CARRAY, |x|)| == if |x| > 15 then 5 else 1 by { TagBack([], CARRAY, |x|, []); }
  }

  // ---------------------------------------------------------------- whole payloads

  /** Written values byte by byte. */
  lemma ExamplesWritten(raw: Bytes)
    requires |raw| == 4
    ensures Written(Boolean(true)) == [0x11] && Written(Boolean(false)) == [0x10]
    ensures Written(Sint(2, -2)) == [0x22, 0xFE, 0xFF] && Written(Uint(4, 0x102_0304)) == [0x34, 4, 3, 2, 1]
    ensures Written(Float(raw)) == [0x44] + raw
    ensures Written(Text([0x61, 0x62])) == [0x53, 0x61, 0x62, 0] && Written(CArray([9])) == [0x61, 9]
  {
    assert Pow256(2) == 0x1_0000;
    assert LeBytes(0xFFFE, 2) == [0xFE, 0xFF];
    assert LeBytes(0x102_0304, 4) == [4, 3, 2, 1];
  }

  /** Up to 15 the length stands in the flag, and from 16 on behind it. */
  lemma ExampleLengths()
    ensures Tag(5, 15) == [0x5F] && Tag(6, 16) == [0x60, 16, 0, 0, 0]
  {
    assert LeBytes(16, 4) == [16, 0, 0, 0];
  }

  /** No reader takes a value of another type, or a number of another width. */
  lemma WrongType(p: Bytes, pos: nat, k: nat)
    requires pos < |p|
    ensures var ty, len := p[pos] as nat / 16, p[pos] as nat % 16;
            && (ty != 1 ==> ReadAt(p, pos, WantBoolean) == No)
            && ((ty != 2 || len != k) ==> ReadAt(p, pos, WantSint(k)) == No)
            && ((ty != 3 || len != k) ==> ReadAt(p, pos, WantUint(k)) == No)
            && ((ty != 4 || len != k) ==> ReadAt(p, pos, WantFloat(k)) == No)
            && (ty != 5 ==> ReadAt(p, pos, WantText) == No)
            && (ty != 6 ==> !ReadAt(p, pos, WantCArray(k)).Got?)
  {
  }

  /** An array that does not fit the buffer of the caller is refused. */
  lemma NoRoom(a: Bytes, x: Bytes, b: Bytes, room: nat)
    requires 0 < |x| < TWO32 && room < |x|
    ensures ReadAt(a + Written(CArray(x)) + b, |a|, WantCArray(room)) == No
  {
    ArrayRead(a, x, b, room);
    hide ReadCArray, Written;
  }

  /** Nothing is read at the end. */
  lemma NothingLeft(p: Bytes, pos: nat, k: nat)
    requires pos >= |p| && k > 0
    ensures ReadAt(p, pos, WantBoolean) == ReadAt(p, pos, WantSint(k)) == ReadAt(p, pos, WantUint(k)) == No
    ensures ReadAt(p, pos, WantFloat(k)) == ReadAt(p, pos, WantText) == ReadAt(p, pos, WantCArray(k)) == No
  {
  }

  /** Reads one value for each request; `None` when one of them is refused or leaves the payload. */
  ghost function ReadAll(p: Bytes, pos: nat, wants: seq<Want>): Option<(seq<Item>, nat)>
    decreases |wants|
  {
    if wants == [] then Some(([], pos))
    else match ReadAt(p, pos, wants[0])
      case Got(i, next) => (match ReadAll(p, next, wants[1..]) case None => None case Some(r) => Some(([i] + r.0, r.1)))
      case _ => None
  }

  ghost predicate AllProper(items: seq<Item>) {
    forall i | 0 <= i < |items| :: Proper(items[i])
  }

  ghost predicate Fits(want: Want, item: Item) {
    exists room: nat :: want == WantOf(item, room)
  }

  /** Requests of the types written. */
  ghost predicate Matching(wants: seq<Want>, items: seq<Item>) {
    |wants| == |items| && forall i | 0 <= i < |items| :: Fits(wants[i], items[i])
  }

  lemma MatchingTail(wants: seq<Want>, items: seq<Item>) returns (room: nat)
    requires AllProper(items) && Matching(wants, items) && items != []
    ensures AllProper(items[1..]) && Matching(wants[1..], items[1..]) && Proper(items[0])
    ensures |wants| == |items| && wants[0] == WantOf(items[0], room)
    ensures WrittenAll(items) == Written(items[0]) + WrittenAll(items[1..])
  {
    assert Fits(wants[0], items[0]);
    room :| wants[0] == WantOf(items[0], room);
    hide Proper, Fits, Written;
  }

  lemma {:induction false} ReadAllBack(a: Bytes, items: seq<Item>, wants: seq<Want>, b: Bytes)
    requires AllProper(items) && Matching(wants, items)
    ensures ReadAll(a + WrittenAll(items) + b, |a|, wants) == Some((items, |a| + |WrittenAll(items)|))
    decreases |items|
  {
    hide *;
    if items == [] {
      NothingBack(a, wants, b);
    } else {
      var room := MatchingTail(wants, items);
      ReadAllBack(a + Written(items[0]), items[1..], wants[1..], b);
      AllBackStep(a, items, wants, b, Written(items[0]), WrittenAll(items[1..]), room);
    }
  }

  lemma NothingBack(a: Bytes, wants: seq<Want>, b: Bytes)
    requires Matching(wants, [])
    ensures ReadAll(a + WrittenAll([]) + b, |a|, wants) == Some(([], |a| + |WrittenAll([])|))
  {
  }

  lemma AllBackStep(a: Bytes, items: seq<Item>, wants: seq<Want>, b: Bytes, w: Bytes, rest: Bytes, room: nat)
    requires items != [] && wants != [] && Proper(items[0]) && wants[0] == WantOf(items[0], room)
    requires w == Written(items[0])
    requires ReadAll(a + w + rest + b, |a + w|, wants[1..]) == Some((items[1..], |a + w| + |rest|))
    ensures ReadAll(a + (w + rest) + b, |a|, wants) == Some((items, |a| + |w + rest|))
  {
    hide *;
    FirstOf(a, w, rest, b);
    ReadBack(a, items[0], rest + b, room);
    OneRead(a + (w + rest) + b, |a|, wants, items[0], |a| + |w|, (items[1..], |a + w| + |rest|));
    assert items == [items[0]] + items[1..];
  }

  lemma OneRead(p: Bytes, pos: nat, wants: seq<Want>, i: Item, next: nat, r: (seq<Item>, nat))
    requires wants != [] && ReadAt(p, pos, wants[0]) == Got(i, next) && ReadAll(p, next, wants[1..]) == Some(r)
    ensures ReadAll(p, pos, wants) == Some(([i] + r.0, r.1))
  {
    hide ReadAt;
  }

  lemma FirstOf(a: Bytes, x: Bytes, rest: Bytes, b: Bytes)
    ensures a + (x + rest) + b == a + x + (rest + b) == (a + x) + rest + b
  {
  }

  /** What the reader is given of a payload: the length goes through 32 bits. */
  function Seen(p: Bytes): (s: Bytes)
    ensures |p| < TWO32 ==> s == p
    ensures |p| >= TWO32 ==> |s| + 1 < |p|
  {
    p[..|p| % TWO32]
  }

  /** No reading ends more than one byte behind the payload. */
  lemma {:induction false} EndsInside(p: Bytes, pos: nat, wants: seq<Want>)
    ensures match ReadAll(p, pos, wants) case None => true case Some(r) => r.1 == pos || r.1 <= |p| + 1
    decreases |wants|
  {
    if wants != [] {
      assert match ReadAt(p, pos, wants[0]) case Got(_, next) => next <= |p| + 1 case _ => true by {
        hide FromLe, ToSigned;
      }
      hide ReadAt;
      match ReadAt(p, pos, wants[0])
      case Got(_, next) => EndsInside(p, next, wants[1..]);
      case _ =>
    }
  }

  /** A list of values, written and read back with matching types, comes back, and the reading ends exactly
      at the end of the payload, if and only if the length of the payload fits 32 bits. */
  lemma RoundTrip(items: seq<Item>, wants: seq<Want>)
    requires AllProper(items) && Matching(wants, items)
    ensures ReadAll(Seen(WrittenAll(items)), 0, wants) == Some((items, |WrittenAll(items)|))
            <==> |WrittenAll(items)| < TWO32
  {
    hide *;
    var p := WrittenAll(items);
    assert |p| < TWO32 ==> Seen(p) == p;
    if |p| < TWO32 {
      ReadAllBack([], items, wants, []);
      assert [] + p + [] == p;
    } else {
      EndsInside(Seen(p), 0, wants);
    }
  }

  /** One text is enough for such a payload. */
  lemma LongText(s: Bytes)
    requires |s| == TWO32 - 2
    ensures Proper(Text(s)) && |WrittenAll([Text(s)])| > TWO32
  {
    assert |Tag(STRING, |s| + 1)| == 5;
    assert [Text(s)][1..] == [];
    hide Tag;
  }

  lemma {:induction false} WrittenSum(xs: seq<Item>, ys: seq<Item>)
    ensures WrittenAll(xs + ys) == WrittenAll(xs) + WrittenAll(ys)
  {
    hide Written;
    if xs == [] {
      assert xs + ys == ys;
    } else {
      assert (xs + ys)[1..] == xs[1..] + ys;
      WrittenSum(xs[1..], ys);
    }
  }

  lemma ProperSum(xs: seq<Item>, ys: seq<Item>)
    requires AllProper(xs) && AllProper(ys)
    ensures AllProper(xs + ys)
  {
    hide Proper;
  }

  /** What `Append` makes of two payloads reads as the one list behind the other, if and only if the two
      together fit. */
  lemma Appended(xs: seq<Item>, ys: seq<Item>, wants: seq<Want>)
    requires AllProper(xs) && AllProper(ys) && Matching(wants, xs + ys)
    ensures var n := |WrittenAll(xs)| + |WrittenAll(ys)|;
            ReadAll(Seen(WrittenAll(xs) + Seen(WrittenAll(ys))), 0, wants) == Some((xs + ys, n)) <==> n < TWO32
  {
    hide *;
    WrittenSum(xs, ys);
    ProperSum(xs, ys);
    var x, y := WrittenAll(xs), WrittenAll(ys);
    if |x| + |y| < TWO32 {
      RoundTrip(xs + ys, wants);
    } else {
      EndsInside(Seen(x + Seen(y)), 0, wants);
    }
  }

  // ---------------------------------------------------------------- the code

  class PayloadWriter {
    var m_payload: Bytes

    constructor (payload: Bytes)
      ensures m_payload == payload
    {
      m_payload := payload;
    }

    /** The bytes of a value in memory, one after the other. */
    method WriteRaw(raw: Bytes)
      modifies this
      ensures m_payload == old(m_payload) + raw
    {
      for i := 0 to |raw|
        invariant m_payload == old(m_payload) + raw[..i]
      {
        m_payload := m_payload + [raw[i]];
      }
    }

    method WriteTag(ty: nat, len: nat)
      requires ty < 16 && len < TWO32
      modifies this
      ensures m_payload == old(m_payload) + Tag(ty, len)
    {
      m_payload := m_payload + [MakeFlag(ty, if len > 15 then 0 else len)];
      if len > 15 {
        WriteRaw(LeBytes(len, 4));
      }
    }

    /** A flag with the size, and the bytes. */
    method WriteNumber(ty: nat, raw: Bytes)
      requires ty < 16
      modifies this
      ensures m_payload == old(m_payload) + ([MakeFlag(ty, |raw|)] + raw)
    {
      hide MakeFlag;
      m_payload := m_payload + [MakeFlag(ty, |raw|)];
      WriteRaw(raw);
    }

    method WriteString(s: Bytes)
      requires |s| + 1 < TWO32
      modifies this
      ensures m_payload == old(m_payload) + (Tag(STRING, |s| + 1) + s + [0])
    {
      hide Tag;
      WriteTag(STRING, |s| + 1);
      WriteRaw(s);
      m_payload := m_payload + [0];
    }

    /** Writes a value; an empty array is refused. */
    method Write(i: Item) returns (ok: bool)
      requires Proper(i) || i == CArray([])
      modifies this
      ensures ok == (i != CArray([])) && m_payload == if ok then old(m_payload) + Written(i) else old(m_payload)
    {
      hide MakeFlag, LeBytes, Tag, Pow256;
      ok := true;
      match i
      case Boolean(b) =>
        m_payload := m_payload + [MakeFlag(BOOLEAN, if b then 1 else 0)];
      case Sint(k, v) =>
        SignedBack(v, k);
        WriteNumber(SINT, LeBytes(ToUnsigned(v, k), k));
      case Uint(k, n) =>
        WriteNumber(UINT, LeBytes(n, k));
      case Float(raw) =>
        WriteNumber(FLOAT, raw);
      case Text(s) =>
        WriteString(s);
      case CArray(a) =>
        if |a| == 0 { return false; }
        WriteTag(CARRAY, |a|);
        WriteRaw(a);
    }
  }

  function Zeros(n: nat): (z: Bytes)
    ensures |z| == n
  {
    seq(n, _ => 0)
  }

  /** Appending a payload of `size` bytes to itself: the room made, and the bytes then copied into it. */
  function SelfRoom(size: nat): nat { size % TWO32 }
  function SelfCopied(size: nat): nat { (size + SelfRoom(size)) % TWO32 }

  /** What is copied fits the room, where there is any. */
  predicate SelfFits(size: nat) {
    SelfRoom(size) == 0 || SelfCopied(size) <= SelfRoom(size)
  }

  /** That is so if and only if the 32-bit length is 0, or 2^31 or more; then fewer bytes are copied than the
      payload has, so it never comes out doubled. */
  lemma SelfFitsIff(size: nat)
    ensures SelfFits(size) <==> size % TWO32 == 0 || size % TWO32 >= 0x8000_0000
    ensures SelfFits(size) && size > 0 ==> SelfCopied(size) < size
  {
  }

  /** A payload of one byte: room for one, and two are copied. */
  lemma OneByteToItself()
    ensures SelfRoom(1) == 1 && SelfCopied(1) == 2 && !SelfFits(1)
  {
  }

  class Payload {
    var m_payload: Bytes

    constructor (payload: Bytes)
      ensures m_payload == payload
    {
      m_payload := payload;
    }

    /** `length()`, of 32 bits. */
    function Length(): (n: nat)
      reads this
      ensures n == |Seen(m_payload)|
    {
      |m_payload| % TWO32
    }

    /** `length()` is asked again after this payload has grown, so appending a payload to itself copies
        another number of bytes than there is room for; it stays inside the array if and only if `SelfFits`. */
    method Append(payload: Payload)
      requires payload == this ==> SelfFits(|m_payload|)
      modifies this
      ensures payload != this ==> m_payload == old(m_payload) + Seen(payload.m_payload)
      ensures payload == this ==>
                m_payload == old(m_payload) + old(m_payload)[..SelfCopied(|old(m_payload)|)]
                             + Zeros(SelfRoom(|old(m_payload)|) - SelfCopied(|old(m_payload)|))
    {
      if payload.Length() <= 0 {
        ghost var n := |m_payload|;
        assert payload == this ==> SelfRoom(n) == 0;
        return;
      }
      var oldSize := |m_payload|;
      ghost var room, was, that := payload.Length(), m_payload, Seen(payload.m_payload);
      m_payload := m_payload + Zeros(payload.Length());
      var n := payload.Length();
      assert payload == this ==> n == SelfCopied(|was|) && room == SelfRoom(|was|) && n <= room;
      assert payload != this ==> n == room;
      var src := payload.m_payload[..n];
      assert payload == this ==> src == was[..n];
      m_payload := m_payload[..oldSize] + src + m_payload[oldSize + n..];
    }
  }

  class PayloadReader {
    /** As far as the reader's 32-bit length goes. */
    const m_payload: Bytes
    var m_rpos: nat

    constructor (payload: Bytes)
      ensures m_payload == Seen(payload) && m_rpos == 0
    {
      m_payload, m_rpos := payload[..|payload| % TWO32], 0;
    }

    /** The type of the next value, 0 at the end; nothing moves. */
    method NextDataType() returns (ty: nat)
      ensures ty == if m_rpos >= |m_payload| then 0 else TypeAt(m_payload, m_rpos)
    {
      if m_rpos >= |m_payload| { return 0; }
      return m_payload[m_rpos] as nat / 16;
    }

    method ReadFixed(ty: nat, k: nat) returns (raw: Option<Bytes>)
      requires ReadNumber(m_payload, m_rpos, ty, k) != Overrun
      modifies this
      ensures match ReadNumber(m_payload, old(m_rpos), ty, k)
              case Got(i, pos) => m_rpos == pos && raw == Some(m_payload[pos - k..pos])
              case No => m_rpos == old(m_rpos) && raw == None
              case Overrun => false
    {
      if m_rpos + k > |m_payload| { return None; }
      var flag := m_payload[m_rpos];
      if flag as nat / 16 != ty || flag as nat % 16 != k { return None; }
      m_rpos := m_rpos + 1;
      raw := Some(m_payload[m_rpos..m_rpos + k]);
      m_rpos := m_rpos + k;
    }

    /** `read` of a boolean, of a number, of a string and of an array. */
    method Read(want: Want) returns (item: Option<Item>)
      requires ReadAt(m_payload, m_rpos, want) != Overrun
      modifies this
      ensures match ReadAt(m_payload, old(m_rpos), want)
              case Got(i, pos) => item == Some(i) && m_rpos == pos
              case No => item == None && m_rpos == old(m_rpos)
              case Overrun => false
    {
      match want
      case WantBoolean =>
        if m_rpos >= |m_payload| { return None; }
        var flag := m_payload[m_rpos];
        if flag as nat / 16 != BOOLEAN { return None; }
        m_rpos := m_rpos + 1;
        return Some(Boolean(flag as nat % 16 != 0));
      case WantSint(k) =>
        var raw := ReadFixed(SINT, k);
        return if raw.None? then None else Some(Sint(k, ToSigned(FromLe(raw.value), k)));
      case WantUint(k) =>
        var raw := ReadFixed(UINT, k);
        return if raw.None? then None else Some(Uint(k, FromLe(raw.value)));
      case WantFloat(k) =>
        var raw := ReadFixed(FLOAT, k);
        return if raw.None? then None else Some(Float(raw.value));
      case WantText =>
        item := ReadString();
      case WantCArray(room) =>
        item := ReadArray(room);
    }

    method ReadString() returns (item: Option<Item>)
      requires ReadText(m_payload, m_rpos) != Overrun
      modifies this
      ensures match ReadText(m_payload, old(m_rpos))
              case Got(i, pos) => item == Some(i) && m_rpos == pos
              case No => item == None && m_rpos == old(m_rpos)
              case Overrun => false
    {
      if m_rpos >= |m_payload| { return None; }
      var flag := m_payload[m_rpos];
      if flag as nat / 16 != STRING { return None; }
      hide FromLe;
      m_rpos := m_rpos + 1;
      var strLen := flag as nat % 16;
      if strLen == 0 {
        strLen := FromLe(m_payload[m_rpos..m_rpos + 4]);
        m_rpos := m_rpos + 4;
      }
      var val: Bytes := [];
      for i := 0 to strLen - 1
        invariant val == m_payload[m_rpos..m_rpos + i]
      {
        val := val + [m_payload[m_rpos + i]];
      }
      m_rpos := m_rpos + strLen;
      return Some(Text(val));
    }

    method ReadArray(room: nat) returns (item: Option<Item>)
      requires ReadCArray(m_payload, m_rpos, room) != Overrun
      modifies this
      ensures match ReadCArray(m_payload, old(m_rpos), room)
              case Got(i, pos) => item == Some(i) && m_rpos == pos
              case No => item == None && m_rpos == old(m_rpos)
              case Overrun => false
    {
      if m_rpos >= |m_payload| { return None; }
      hide FromLe;
      var ty, len := m_payload[m_rpos] as nat / 16, m_payload[m_rpos] as nat % 16;
      if len == 0 {
        len := FromLe(m_payload[m_rpos + 1..m_rpos + 5]);
      }
      if ty != CARRAY || len > room { return None; }
      m_rpos := m_rpos + 1;
      if len > 15 { m_rpos := m_rpos + 4; }
      var buf := m_payload[m_rpos..m_rpos + len];
      m_rpos := m_rpos + len;
      return Some(CArray(buf));
    }
  }
}
