/** IP addresses as text: the parsers for both versions and the printer. */
module IPs {
  import opened Basics
  import opened Strings

  // ---------------------------------------------------------------- digits

  predicate IsDigit(c: char) { '0' <= c <= '9' }
  predicate IsHex(c: char) { IsDigit(c) || 'a' <= c <= 'f' || 'A' <= c <= 'F' }

  function ToLower(c: char): char {
    if 'A' <= c <= 'Z' then (c as int + 32) as char else c
  }

  function HexAToI(c: char): (v: nat)
    requires IsHex(c)
    ensures v < 16
  {
    if IsDigit(c) then c as int - 48 else if 'a' <= c <= 'f' then c as int - 87 else c as int - 55
  }

  predicate Digits(s: string) { forall i | 0 <= i < |s| :: IsDigit(s[i]) }
  predicate HexDigits(s: string) { forall i | 0 <= i < |s| :: IsHex(s[i]) }

  /** The number that decimal digits write. */
  function DecValue(s: string): nat
    requires Digits(s)
  {
    if s == "" then 0 else 10 * DecValue(s[..|s| - 1]) + (s[|s| - 1] as int - 48)
  }

  function HexValue(s: string): nat
    requires HexDigits(s)
  {
    if s == "" then 0 else 16 * HexValue(s[..|s| - 1]) + HexAToI(s[|s| - 1])
  }

  /** "%u". */
  function Decimal(n: nat): (s: string)
    ensures s != "" && Digits(s)
  {
    if n < 10 then [(n + 48) as char] else Decimal(n / 10) + [(n % 10 + 48) as char]
  }

  lemma {:induction false} DecimalBack(n: nat)
    ensures DecValue(Decimal(n)) == n && (n > 0 ==> Decimal(n)[0] != '0')
  {
    if n >= 10 {
      DecimalBack(n / 10);
      var s := Decimal(n);
      assert s[..|s| - 1] == Decimal(n / 10);
    }
  }

  function HexDigit(v: nat): (c: char)
    requires v < 16
    ensures IsHex(c) && ToLower(c) == c && HexAToI(c) == v
  {
    if v < 10 then (v + 48) as char else (v + 87) as char
  }

  /** "%02x". */
  function Hex2(b: uint8): (s: string)
    ensures |s| == 2 && HexDigits(s)
  {
    [HexDigit(b as int / 16), HexDigit(b as int % 16)]
  }

  // ---------------------------------------------------------------- version 6: one character at a time

  /** The local variables of the loop: both output buffers, the colons and dots counted, the digits of
      the group being read. */
  datatype St = St(first: Bytes, second: Bytes, secondUsed: bool, colons: nat, lastColon: bool,
                   dots: nat, digits: string, delimiter: char)

  function Zeros(n: nat): (r: Bytes)
    ensures |r| == n
  {
    seq(n, i => 0)
  }

  /** Up to four hexadecimal digits, moved to the right and packed into two bytes. */
  function Pack(g: string): (r: Bytes)
    requires HexDigits(g) && |g| <= 4
    ensures |r| == 2
  {
    [(At(g, 4) * 16 + At(g, 3)) as uint8, (At(g, 2) * 16 + At(g, 1)) as uint8]
  }

  /** The digit `k` places from the right, counted from 1. */
  function At(g: string, k: nat): (v: nat)
    requires HexDigits(g)
    ensures v < 16
  {
    if 1 <= k <= |g| then HexAToI(g[|g| - k]) else 0
  }

  /** The byte that the digits before a dot write; none if they are too many, or not a number up to
      255, or zero written with more than one digit. */
  function DotByte(g: string): Option<uint8> {
    if |g| < 1 || |g| > 3 || !Digits(g) then None
    else
      var v := DecValue(g);
      if 0 < v <= 255 then Some(v as uint8) else if g == "0" then Some(0) else None
  }

  function Push(st: St, b: Bytes): St {
    if st.secondUsed then st.(second := st.second + b, digits := "") else st.(first := st.first + b, digits := "")
  }

  function StepDot(st: St): Option<St> {
    if st.dots >= 3 then None
    else match DotByte(st.digits)
      case None => None
      case Some(b) => Some(Push(st, [b]).(dots := st.dots + 1, delimiter := '.'))
  }

  function StepColon(st: St): Option<St> {
    if st.dots > 0 || !HexDigits(st.digits) || |st.digits| > 4 then None
    else
      var st0 := if st.digits != "" then Push(st, Pack(st.digits)) else st;
      var st1 := st0.(delimiter := ':', colons := st.colons + 1);
      if !st.lastColon then Some(st1.(lastColon := true))
      else if st.secondUsed then None
      else Some(st1.(secondUsed := true))
  }

  function StepDigit(st: St, c: char): Option<St> {
    if |st.digits| >= 4 || !IsHex(c) then None
    else Some(st.(digits := st.digits + [ToLower(c)], lastColon := false))
  }

  function Step(st: St, c: char): Option<St> {
    if c == '.' then StepDot(st) else if c == ':' then StepColon(st) else StepDigit(st, c)
  }

  ghost function Run(st: St, s: string): Option<St>
    decreases |s|
  {
    if s == "" then Some(st)
    else match Step(st, s[0])
      case None => None
      case Some(st1) => Run(st1, s[1..])
  }

  function Start(): St { St([], [], false, 0, false, 0, "", '\0') }

  /** The digits left at the end. */
  function Last(st: St): Option<St> {
    if st.digits == "" then Some(st)
    else if st.delimiter == ':' then
      if HexDigits(st.digits) && |st.digits| <= 4 then Some(Push(st, Pack(st.digits))) else None
    else if st.delimiter == '.' then
      match DotByte(st.digits) { case None => None case Some(b) => Some(Push(st, [b])) }
    else None
  }

  /** The sixteen bytes, with zeros for the double colon. */
  function Assembled(st: St): Option<Bytes> {
    if st.colons > 7 || st.colons < 2 || (st.dots > 0 && st.dots != 3) then None
    else
      var out := if st.secondUsed && |st.first| + |st.second| <= 16
                 then st.first + Zeros(16 - |st.first| - |st.second|) + st.second else st.first;
      if |out| == 16 then Some(out) else None
  }

  /** An address text without scope. */
  ghost function AddressOf(s: string): Option<Bytes> {
    if |s| > 39 then None
    else match Run(Start(), s)
      case None => None
      case Some(st) => match Last(st) { case None => None case Some(st1) => Assembled(st1) }
  }

  // ---------------------------------------------------------------- groups

  predicate IsGroup(g: string) { 1 <= |g| <= 4 && HexDigits(g) }

  predicate Groups(gs: seq<string>) { forall i | 0 <= i < |gs| :: IsGroup(gs[i]) }

  ghost function GroupBytes(gs: seq<string>): (r: Bytes)
    requires Groups(gs)
    ensures |r| == 2 * |gs|
  {
    if gs == [] then [] else Pack(gs[0]) + GroupBytes(gs[1..])
  }

  /** A group is the number it writes, high byte first. */
  lemma PackIsValue(g: string)
    requires IsGroup(g)
    ensures HexValue(g) < 0x1_0000 && Pack(g) == [(HexValue(g) / 0x100) as uint8, (HexValue(g) % 0x100) as uint8]
  {
    HexValueIs(g);
    var a, b, c, d := At(g, 4), At(g, 3), At(g, 2), At(g, 1);
    assert HexValue(g) == 0x100 * (a * 16 + b) + (c * 16 + d);
  }

  lemma {:induction false} HexValueIs(g: string)
    requires HexDigits(g) && |g| <= 4
    ensures HexValue(g) == 0x1000 * At(g, 4) + 0x100 * At(g, 3) + 0x10 * At(g, 2) + At(g, 1)
  {
    if g != "" {
      var h := g[..|g| - 1];
      HexValueIs(h);
      assert At(h, 4) == 0 && At(h, 3) == At(g, 4) && At(h, 2) == At(g, 3) && At(h, 1) == At(g, 2);
    }
  }

  /** Each group with a colon behind it. */
  ghost function Colons(gs: seq<string>): string {
    if gs == [] then "" else gs[0] + ":" + Colons(gs[1..])
  }

  /** The groups with colons between them. */
  function Joined(gs: seq<string>): string {
    if gs == [] then "" else if |gs| == 1 then gs[0] else gs[0] + ":" + Joined(gs[1..])
  }

  lemma RunStep(st: St, c: char, rest: string)
    ensures Run(st, [c] + rest) == match Step(st, c) { case None => None case Some(st1) => Run(st1, rest) }
  {
    assert ([c] + rest)[1..] == rest;
  }

  function Lower(s: string): (t: string)
    ensures |t| == |s| && forall i | 0 <= i < |s| :: t[i] == ToLower(s[i])
  {
    seq(|s|, i requires 0 <= i < |s| => ToLower(s[i]))
  }

  lemma LowerPacks(g: string)
    requires HexDigits(g) && |g| <= 4
    ensures HexDigits(Lower(g)) && Pack(Lower(g)) == Pack(g)
  {
  }

  /** Digits pile up, lower case. */
  lemma {:induction false} RunDigits(st: St, g: string, rest: string)
    requires HexDigits(g) && |st.digits| + |g| <= 4
    ensures Run(st, g + rest) ==
            Run(if g == "" then st else st.(digits := st.digits + Lower(g), lastColon := false), rest)
    decreases |g|
  {
    if g == "" {
      assert g + rest == rest;
    } else {
      var st1 := st.(digits := st.digits + [ToLower(g[0])], lastColon := false);
      assert g + rest == [g[0]] + (g[1..] + rest) && Step(st, g[0]) == Some(st1);
      hide Run, Step;
      RunStep(st, g[0], g[1..] + rest);
      RunDigits(st1, g[1..], rest);
      LowerFront(st.digits, g);
    }
  }

  lemma LowerFront(d: string, g: string)
    requires g != ""
    ensures d + [ToLower(g[0])] + Lower(g[1..]) == d + Lower(g)
    ensures |g| == 1 ==> d + [ToLower(g[0])] == d + Lower(g)
  {
  }

  /** What a state is between groups. */
  ghost predicate Between(st: St) {
    st.digits == "" && st.dots == 0
  }

  /** `out` written, and `n` colons passed. */
  ghost function AfterColon(st: St, out: Bytes, n: nat): St {
    Push(st, out).(delimiter := ':', colons := st.colons + n, lastColon := true)
  }

  lemma ColonStep(st: St, g: string)
    requires Between(st) && IsGroup(g)
    ensures Step(st.(digits := Lower(g), lastColon := false), ':') == Some(AfterColon(st, Pack(g), 1))
  {
    LowerPacks(g);
    hide Pack;
  }

  lemma RunGroup(st: St, g: string, rest: string)
    requires Between(st) && IsGroup(g)
    ensures Run(st, g + ":" + rest) == Run(AfterColon(st, Pack(g), 1), rest)
  {
    assert g + ":" + rest == g + ([':'] + rest);
    RunDigits(st, g, [':'] + rest);
    assert "" + Lower(g) == Lower(g);
    ColonStep(st, g);
    RunStep(st.(digits := Lower(g), lastColon := false), ':', rest);
    hide Run, Pack, Step, AfterColon, Lower;
  }

  lemma AfterBoth(st: St, a: Bytes, b: Bytes, n: nat)
    ensures AfterColon(AfterColon(st, a, 1), b, n) == AfterColon(st, a + b, n + 1)
  {
    assert st.first + a + b == st.first + (a + b) && st.second + a + b == st.second + (a + b);
  }

  /** Groups, each with its colon, go to the output. */
  lemma {:induction false} RunGroups(st: St, gs: seq<string>, rest: string)
    requires Between(st) && Groups(gs)
    ensures Run(st, Colons(gs) + rest) == Run(if gs == [] then st else AfterColon(st, GroupBytes(gs), |gs|), rest)
    decreases |gs|
  {
    if gs == [] {
      assert Colons(gs) + rest == rest;
    } else {
      var more := Colons(gs[1..]) + rest;
      assert Colons(gs) + rest == gs[0] + ":" + more;
      RunGroup(st, gs[0], more);
      hide Run, Pack, IsGroup;
      var st1 := AfterColon(st, Pack(gs[0]), 1);
      RunGroups(st1, gs[1..], rest);
      AfterBoth(st, Pack(gs[0]), GroupBytes(gs[1..]), |gs| - 1);
      assert gs[1..] == [] ==> GroupBytes(gs) == Pack(gs[0]) + [] == Pack(gs[0]);
      hide AfterColon;
    }
  }

  lemma {:induction false} ColonsLast(gs: seq<string>)
    requires gs != []
    ensures Joined(gs) == Colons(gs[..|gs| - 1]) + gs[|gs| - 1]
  {
    var init, g := gs[..|gs| - 1], gs[|gs| - 1];
    if |gs| == 1 {
      assert Colons(init) + g == g;
    } else {
      ColonsLast(gs[1..]);
      assert init[1..] == gs[1..][..|gs| - 2] && init[0] == gs[0] && gs[1..][|gs| - 2] == g;
      assert Colons(init) == gs[0] + ":" + Colons(init[1..]);
      hide Colons, Joined;
      assert gs[0] + ":" + (Colons(init[1..]) + g) == (gs[0] + ":" + Colons(init[1..])) + g;
    }
  }

  lemma LastGroup(st: St, g: string)
    requires Between(st) && st.delimiter == ':' && IsGroup(g)
    ensures Last(st.(digits := Lower(g), lastColon := false)) == Some(Push(st, Pack(g)).(lastColon := false))
  {
    LowerPacks(g);
    hide Pack;
  }

  ghost predicate EndsWith(st: St, s: string, e: St) {
    match Run(st, s) case None => false case Some(x) => Last(x) == Some(e)
  }

  /** A last group without colon is written at the end. */
  lemma RunLast(st: St, g: string)
    requires Between(st) && st.delimiter == ':' && IsGroup(g)
    ensures EndsWith(st, g, Push(st, Pack(g)).(lastColon := false))
  {
    assert g + "" == g && "" + Lower(g) == Lower(g);
    RunDigits(st, g, "");
    LastGroup(st, g);
    var x := st.(digits := Lower(g), lastColon := false);
    assert Run(x, "") == Some(x);
    hide Run, Last, Lower, Pack, Push;
  }

  /** What the groups up to the end of the text leave. */
  ghost function AtEnd(st: St, out: Bytes, n: nat): St {
    Push(st, out).(delimiter := ':', colons := st.colons + n, lastColon := false)
  }

  lemma PushAfter(st: St, a: Bytes, b: Bytes, n: nat)
    ensures Push(AfterColon(st, a, n), b).(lastColon := false) == AtEnd(st, a + b, n)
    ensures st.delimiter == ':' ==> Push(st, b).(lastColon := false) == AtEnd(st, b, 0)
  {
    assert st.first + a + b == st.first + (a + b) && st.second + a + b == st.second + (a + b);
  }

  /** Groups with colons between them, up to the end of the text. */
  lemma RunJoined(st: St, gs: seq<string>)
    requires Between(st) && Groups(gs) && gs != [] && (st.delimiter == ':' || |gs| > 1)
    ensures EndsWith(st, Joined(gs), AtEnd(st, GroupBytes(gs), |gs| - 1))
  {
    var init, g := gs[..|gs| - 1], gs[|gs| - 1];
    ColonsLast(gs);
    RunGroups(st, init, g);
    GroupBytesLast(gs);
    PushAfter(st, GroupBytes(init), Pack(g), |init|);
    assert IsGroup(g) && Groups(init);
    hide Run, Last, Pack, IsGroup, Joined, Colons, Push, AtEnd;
    if init == [] {
      RunLast(st, g);
      assert GroupBytes(init) + Pack(g) == Pack(g);
    } else {
      BetweenAfter(st, GroupBytes(init), |init|);
      hide AfterColon;
      RunLast(AfterColon(st, GroupBytes(init), |init|), g);
    }
  }

  lemma BetweenAfter(st: St, out: Bytes, n: nat)
    requires Between(st)
    ensures Between(AfterColon(st, out, n)) && AfterColon(st, out, n).delimiter == ':'
  {
  }

  lemma {:induction false} GroupBytesLast(gs: seq<string>)
    requires gs != [] && Groups(gs)
    ensures Groups(gs[..|gs| - 1]) && GroupBytes(gs) == GroupBytes(gs[..|gs| - 1]) + Pack(gs[|gs| - 1])
    ensures |gs| == 1 ==> GroupBytes(gs[..0]) == []
  {
    hide Pack, IsGroup;
    if |gs| > 1 {
      GroupBytesLast(gs[1..]);
      var init := gs[..|gs| - 1];
      assert init[1..] == gs[1..][..|gs| - 2] && init[0] == gs[0];
    }
  }

  // ---------------------------------------------------------------- the two families of section 2.2 of RFC 4291

  lemma {:induction false} JoinedLength(gs: seq<string>)
    requires Groups(gs)
    ensures |Joined(gs)| <= if gs == [] then 0 else 5 * |gs| - 1
  {
    if |gs| > 1 {
      JoinedLength(gs[1..]);
    }
  }

  /** Eight groups are the sixteen bytes they write. */
  lemma FullAddress(gs: seq<string>)
    requires Groups(gs) && |gs| == 8
    ensures AddressOf(Joined(gs)) == Some(GroupBytes(gs))
  {
    JoinedLength(gs);
    RunJoined(Start(), gs);
    assert [] + GroupBytes(gs) == GroupBytes(gs);
    hide Run, Last, Joined, GroupBytes;
  }

  /** Any other number of groups is refused. */
  lemma OtherCounts(gs: seq<string>)
    requires Groups(gs) && |gs| > 1 && |gs| != 8
    ensures AddressOf(Joined(gs)) == None
  {
    RunJoined(Start(), gs);
    assert [] + GroupBytes(gs) == GroupBytes(gs);
    hide Run, Last, Joined, GroupBytes;
  }

  /** What no address may contain: another character, a fifth digit, a third colon in a row or a second double
      colon, a colon behind a dot, a fourth dot. */
  lemma RefusedStep(st: St, c: char, rest: string)
    requires || (!IsHex(c) && c != ':' && c != '.') || (IsHex(c) && |st.digits| >= 4)
             || (c == ':' && (st.dots > 0 || (st.lastColon && st.secondUsed))) || (c == '.' && st.dots >= 3)
    ensures Run(st, [c] + rest) == None
  {
    RunStep(st, c, rest);
    hide Run;
  }

  /** One dot or two are refused at the end. */
  lemma RefusedDots(st: St)
    requires st.dots == 1 || st.dots == 2
    ensures Assembled(st) == None
  {
  }

  /** The state behind the double colon. */
  ghost function Doubled(first: Bytes, colons: nat): St {
    St(first, [], true, colons, true, 0, "", ':')
  }

  lemma {:induction false} ColonsJoined(gs: seq<string>)
    requires gs != []
    ensures Joined(gs) + ":" == Colons(gs)
  {
    if |gs| == 1 {
      assert Colons(gs[1..]) == "" && gs[0] + ":" + "" == gs[0] + ":";
    } else {
      ColonsJoined(gs[1..]);
      assert gs[0] + ":" + Joined(gs[1..]) + ":" == gs[0] + ":" + (Joined(gs[1..]) + ":");
    }
  }

  lemma SecondColon(st: St)
    requires Between(st) && st.lastColon && !st.secondUsed
    ensures Step(st, ':') == Some(st.(delimiter := ':', colons := st.colons + 1, secondUsed := true))
  {
  }

  lemma RunDouble(gs: seq<string>, rest: string)
    requires Groups(gs)
    ensures Run(Start(), Joined(gs) + "::" + rest)
            == Run(Doubled(GroupBytes(gs), if gs == [] then 2 else |gs| + 1), rest)
  {
    if gs == [] {
      assert Joined(gs) + "::" + rest == [':'] + ([':'] + rest);
      DoubleFirst(rest);
      hide Run;
    } else {
      ColonsJoined(gs);
      assert Joined(gs) + "::" + rest == (Joined(gs) + ":") + ([':'] + rest);
      hide Run, Joined;
      DoubleAfter(gs, rest);
    }
  }

  lemma DoubleFirst(rest: string)
    ensures Run(Start(), [':'] + ([':'] + rest)) == Run(Doubled([], 2), rest)
  {
    var st := St([], [], false, 1, true, 0, "", ':');
    RunStep(Start(), ':', [':'] + rest);
    SecondColon(st);
    RunStep(st, ':', rest);
    hide Run;
  }

  lemma DoubleAfter(gs: seq<string>, rest: string)
    requires Groups(gs) && gs != []
    ensures Run(Start(), Colons(gs) + ([':'] + rest)) == Run(Doubled(GroupBytes(gs), |gs| + 1), rest)
  {
    var out, n := GroupBytes(gs), |gs|;
    RunGroups(Start(), gs, [':'] + rest);
    DoubledIs(out, n);
    hide *;
    RunStep(AfterColon(Start(), out, n), ':', rest);
  }

  lemma DoubledIs(out: Bytes, n: nat)
    ensures Between(Start()) && Step(AfterColon(Start(), out, n), ':') == Some(Doubled(out, n + 1))
  {
    assert [] + out == out;
    SecondColon(AfterColon(Start(), out, n));
  }

  /** How many groups may stand around the double colon. */
  predicate Fits(m: nat, k: nat) {
    if m > 0 && k > 0 then m + k <= 7 else m + k <= 6
  }

  /** `m` groups, a double colon, `k` groups: accepted if and only if they fit, and then the bytes are
      the groups with zeros between. */
  lemma Compressed(gs: seq<string>, hs: seq<string>)
    requires Groups(gs) && Groups(hs)
    ensures AddressOf(Joined(gs) + "::" + Joined(hs)) ==
            if Fits(|gs|, |hs|) then Some(GroupBytes(gs) + Zeros(16 - 2 * |gs| - 2 * |hs|) + GroupBytes(hs)) else None
  {
    hide *;
    DoubleLength(gs, hs);
    var e := AfterDouble(gs, hs);
    AddressVia(Joined(gs) + "::" + Joined(hs), e);
    DoubleAssembled(e, |gs|, |hs|);
  }

  /** What fits is never too long. */
  lemma DoubleLength(gs: seq<string>, hs: seq<string>)
    requires Groups(gs) && Groups(hs)
    ensures Fits(|gs|, |hs|) ==> |Joined(gs) + "::" + Joined(hs)| <= 39 && 2 * |gs| + 2 * |hs| <= 16
  {
    JoinedLength(gs);
    JoinedLength(hs);
    hide Joined, Groups;
  }

  lemma AddressVia(s: string, e: St)
    requires EndsWith(Start(), s, e)
    ensures AddressOf(s) == if |s| > 39 then None else Assembled(e)
  {
    hide Run, Last;
  }

  /** Colons passed in all. */
  function ColonCount(m: nat, k: nat): nat {
    (if m == 0 then 2 else m + 1) + (if k == 0 then 0 else k - 1)
  }

  lemma DoubleAssembled(e: St, m: nat, k: nat)
    requires e.secondUsed && e.dots == 0 && |e.first| == 2 * m && |e.second| == 2 * k && e.colons == ColonCount(m, k)
    ensures Assembled(e) == if Fits(m, k) then Some(e.first + Zeros(16 - 2 * m - 2 * k) + e.second) else None
  {
  }

  lemma AfterDouble(gs: seq<string>, hs: seq<string>) returns (e: St)
    requires Groups(gs) && Groups(hs)
    ensures EndsWith(Start(), Joined(gs) + "::" + Joined(hs), e)
    ensures e.first == GroupBytes(gs) && e.second == GroupBytes(hs) && e.secondUsed && e.dots == 0
    ensures e.colons == ColonCount(|gs|, |hs|)
  {
    var c := if gs == [] then 2 else |gs| + 1;
    var st := Doubled(GroupBytes(gs), c);
    if hs == [] {
      e := st;
      assert Run(st, "") == Some(st) && Last(st) == Some(st);
    } else {
      e := AtEnd(st, GroupBytes(hs), |hs| - 1);
      assert [] + GroupBytes(hs) == GroupBytes(hs);
      hide Run, Last;
      RunJoined(st, hs);
    }
    assert Joined([]) == "" && GroupBytes([]) == [];
    hide Run, Last, Joined, Groups, GroupBytes;
    RunDouble(gs, Joined(hs));
  }

  /** RFC 4291 lets a double colon stand for a single group; at either end of the address the code
      does not. */
  lemma SevenAtOneEnd(gs: seq<string>)
    requires Groups(gs) && |gs| == 7
    ensures AddressOf("" + "::" + Joined(gs)) == None && AddressOf(Joined(gs) + "::" + "") == None
  {
    Compressed([], gs);
    Compressed(gs, []);
    hide AddressOf;
    assert Joined([]) == "";
  }

  // ---------------------------------------------------------------- scope, and the whole text

  /** A percent sign with only digits behind it splits the text. */
  ghost function SplitScope(s: string): (r: (string, Option<string>))
    ensures r.1.Some? ==> Digits(r.1.value)
  {
    if s == "" then (s, None)
    else
      var init, c := s[..|s| - 1], s[|s| - 1];
      if c == '%' then (init, Some(""))
      else if !IsDigit(c) then (s, None)
      else match SplitScope(init)
        case (a, Some(d)) => (a, Some(d + [c]))
        case (_, None) => (s, None)
  }

  /** The search starts at an `int`, which is negative for texts longer than 2^31 characters. */
  ghost function ScopeOf(t: string): (r: (string, Option<string>))
    ensures r.1.Some? ==> Digits(r.1.value)
    ensures |t| <= 0x8000_0000 ==> r == SplitScope(t)
  {
    if |t| > 0x8000_0000 then (t, None) else SplitScope(t)
  }

  /** `atol`, then cut to 32 bits. */
  function ScopeValue(d: string): uint32
    requires Digits(d)
  {
    var v := DecValue(d);
    ((if v > 0x7FFF_FFFF_FFFF_FFFF then 0x7FFF_FFFF_FFFF_FFFF else v) % TWO32) as uint32
  }

  datatype Address = V4(bytes: Bytes) | V6(bytes: Bytes, scope: uint32)

  ghost function V6Of(ip: string): Option<Address> {
    var t := Trim(ip);
    if t == "" then None
    else
      var (a, d) := ScopeOf(t);
      match AddressOf(CStr(a))
      case None => None
      case Some(b) => Some(V6(b, if d.Some? then ScopeValue(d.value) else 0))
  }

  /** How many digits stand in front. */
  function DigitLength(s: string): (n: nat)
    ensures n <= |s| && Digits(s[..n]) && (n < |s| ==> !IsDigit(s[n]))
  {
    if s == "" || !IsDigit(s[0]) then 0
    else
      var n := 1 + DigitLength(s[1..]);
      assert s[..n] == [s[0]] + s[1..][..n - 1];
      n
  }

  /** `n` numbers with dots between them, each of one to three digits and at most 255. */
  function NumbersOf(s: string, n: nat): Option<Bytes>
    requires n > 0
    decreases n
  {
    var d := DigitLength(s);
    if d < 1 || d > 3 || DecValue(s[..d]) > 255 then None
    else
      var b := DecValue(s[..d]) as uint8;
      if n == 1 then if d == |s| then Some([b]) else None
      else if d == |s| || s[d] != '.' then None
      else match NumbersOf(s[d + 1..], n - 1)
        case None => None
        case Some(bs) => Some([b] + bs)
  }

  ghost function V4Of(ip: string): Option<Address> {
    var t := Trim(ip);
    if t == "" || |t| > 15 then None
    else match NumbersOf(CStr(t), 4)
      case None => None
      case Some(bs) => Some(V4(bs))
  }

  /** `parse` without its look-up of names. */
  ghost function ParseOf(ip: string): Option<Address> {
    if V4Of(ip).Some? then V4Of(ip) else V6Of(ip)
  }

  // ---------------------------------------------------------------- printing and reading back

  function HexGroups(b: Bytes): seq<string> {
    if |b| < 2 then [] else [Hex2(b[0]) + Hex2(b[1])] + HexGroups(b[2..])
  }

  /** "%d.%d.%d.%d", for any number of bytes. */
  function V4Text(b: Bytes): string {
    if b == [] then "" else Decimal(b[0] as nat) + if |b| == 1 then "" else "." + V4Text(b[1..])
  }

  function V6Text(b: Bytes, scope: uint32): string {
    Joined(HexGroups(b)) + if scope == 0 then "" else "%" + Decimal(scope as nat)
  }

  predicate Proper(a: Address) {
    match a case V4(b) => |b| == 4 case V6(b, _) => |b| == 16
  }

  function TextOf(a: Address): string
    requires Proper(a)
  {
    match a case V4(b) => V4Text(b) case V6(b, scope) => V6Text(b, scope)
  }

  lemma {:induction false} HexGroupsBack(b: Bytes)
    requires |b| % 2 == 0
    ensures var gs := HexGroups(b); Groups(gs) && 2 * |gs| == |b| && GroupBytes(gs) == b
    ensures forall i | 0 <= i < |HexGroups(b)| :: |HexGroups(b)[i]| == 4
    decreases |b|
  {
    if |b| >= 2 {
      HexGroupsBack(b[2..]);
      Hex2Pack(b[0], b[1]);
      hide Pack, Hex2;
      var gs := HexGroups(b);
      assert gs[1..] == HexGroups(b[2..]);
      assert b == [b[0], b[1]] + b[2..];
    }
  }

  lemma Hex2Pack(x: uint8, y: uint8)
    ensures IsGroup(Hex2(x) + Hex2(y)) && |Hex2(x) + Hex2(y)| == 4 && Pack(Hex2(x) + Hex2(y)) == [x, y]
  {
    var g := Hex2(x) + Hex2(y);
    assert At(g, 4) == x as int / 16 && At(g, 3) == x as int % 16 && At(g, 2) == y as int / 16
      && At(g, 1) == y as int % 16;
  }

  /** Characters of joined groups are digits and colons. */
  predicate Plain(s: string) { forall i | 0 <= i < |s| :: IsHex(s[i]) || s[i] == ':' }

  lemma {:induction false} JoinedPlain(gs: seq<string>)
    requires Groups(gs)
    ensures Plain(Joined(gs))
  {
    if |gs| > 1 {
      JoinedPlain(gs[1..]);
    }
  }

  lemma {:induction false} NoScope(s: string)
    requires forall i | 0 <= i < |s| :: s[i] != '%'
    ensures SplitScope(s) == (s, None)
  {
    if s != "" {
      NoScope(s[..|s| - 1]);
    }
  }

  lemma {:induction false} WithScope(s: string, d: string)
    requires Digits(d)
    ensures SplitScope(s + "%" + d) == (s, Some(d))
    decreases |d|
  {
    var t := s + "%" + d;
    if d == "" {
      assert t[..|t| - 1] == s;
    } else {
      var init, c := d[..|d| - 1], d[|d| - 1];
      WithScope(s, init);
      assert t[..|t| - 1] == s + "%" + init && t[|t| - 1] == c;
      assert init + [c] == d;
    }
  }

  lemma ScopeBack(scope: uint32)
    ensures ScopeValue(Decimal(scope as nat)) == scope
  {
    DecimalBack(scope as nat);
    hide Decimal, DecValue;
  }

  lemma TrimSame(t: string)
    requires t != "" && !IsBlank(t[0]) && !IsBlank(t[|t| - 1])
    ensures Trim(t) == t
  {
  }

  lemma {:induction false} DecimalShort(n: nat)
    ensures |Decimal(n)| <= n / 10 + 1
  {
    if n >= 10 {
      DecimalShort(n / 10);
    }
  }

  /** What the text of an address with scope looks like to the parser. */
  lemma V6TextIs(b: Bytes, scope: uint32)
    requires |b| == 16
    ensures var a, t := Joined(HexGroups(b)), V6Text(b, scope);
            && |a| == 39 && |t| >= 39 && Trim(t) == t && CStr(a) == a
            && SplitScope(t) == (a, if scope == 0 then None else Some(Decimal(scope as nat)))
  {
    var gs := HexGroups(b);
    HexGroupsBack(b);
    JoinedPlain(gs);
    JoinedLength4(gs);
    PlainNoNul(Joined(gs));
    CStrSame(Joined(gs));
    V6TextParts(b, scope);
    hide *;
    if scope == 0 {
      TextAlone(Joined(gs));
    } else {
      TextWithScope(Joined(gs), Decimal(scope as nat));
    }
  }

  lemma V6TextParts(b: Bytes, scope: uint32)
    ensures var a := Joined(HexGroups(b));
            V6Text(b, scope) == if scope == 0 then a else a + ("%" + Decimal(scope as nat))
  {
    assert Joined(HexGroups(b)) + "" == Joined(HexGroups(b));
    hide Joined, HexGroups, Decimal;
  }

  lemma PlainNoNul(s: string)
    requires Plain(s)
    ensures NoNul(s)
  {
  }

  lemma V6TextShort(b: Bytes, scope: uint32)
    requires |b| == 16
    ensures |V6Text(b, scope)| <= 0x8000_0000
  {
    HexGroupsBack(b);
    JoinedLength4(HexGroups(b));
    DecimalShort(scope as nat);
    hide Joined, HexGroups, GroupBytes, Groups, Decimal;
  }

  lemma TextAlone(a: string)
    requires Plain(a) && a != ""
    ensures Trim(a) == a && SplitScope(a) == (a, None)
  {
    NoScope(a);
    TrimSame(a);
  }

  lemma TextWithScope(a: string, d: string)
    requires Plain(a) && a != "" && Digits(d) && d != ""
    ensures var t := a + ("%" + d); Trim(t) == t && SplitScope(t) == (a, Some(d))
  {
    var t := a + ("%" + d);
    assert t == a + "%" + d;
    WithScope(a, d);
    assert t[0] == a[0] && t[|t| - 1] == d[|d| - 1];
    hide SplitScope;
    TrimSame(t);
  }

  lemma {:induction false} JoinedLength4(gs: seq<string>)
    requires forall i | 0 <= i < |gs| :: |gs[i]| == 4
    ensures |Joined(gs)| == if gs == [] then 0 else 5 * |gs| - 1
  {
    if |gs| > 1 {
      JoinedLength4(gs[1..]);
    }
  }

  /** Every address of version 6, with any scope, comes back from its text. */
  lemma V6RoundTrip(b: Bytes, scope: uint32)
    requires |b| == 16
    ensures V6Of(V6Text(b, scope)) == Some(V6(b, scope))
  {
    V6TextIs(b, scope);
    V6TextShort(b, scope);
    HexGroupsBack(b);
    FullAddress(HexGroups(b));
    ScopeBack(scope);
    hide AddressOf, Joined, HexGroups, GroupBytes, Groups, Trim, CStr, SplitScope, ScopeOf, Decimal, ScopeValue, V6Text;
  }

  lemma {:induction false} DigitsInFront(d: string, rest: string)
    requires Digits(d) && (rest == "" || !IsDigit(rest[0]))
    ensures DigitLength(d + rest) == |d|
  {
    if d == "" {
      assert d + rest == rest;
    } else {
      assert (d + rest)[1..] == d[1..] + rest;
      DigitsInFront(d[1..], rest);
    }
  }

  lemma ByteDecimal(b: uint8)
    ensures var d := Decimal(b as nat); 1 <= |d| <= 3 && DecValue(d) == b as nat
  {
    DecimalBack(b as nat);
    var n := b as nat;
    if n >= 10 {
      assert |Decimal(n)| == |Decimal(n / 10)| + 1;
      if n >= 100 {
        assert |Decimal(n / 10)| == |Decimal(n / 100)| + 1;
      }
    }
  }

  lemma ReadNumber(b: uint8, rest: string, n: nat)
    requires n > 1
    ensures NumbersOf(Decimal(b as nat) + ("." + rest), n) ==
            match NumbersOf(rest, n - 1) { case None => None case Some(bs) => Some([b] + bs) }
  {
    var d := Decimal(b as nat);
    ByteDecimal(b);
    var s := d + ("." + rest);
    DigitsInFront(d, "." + rest);
    assert s[..|d|] == d;
    assert s[|d|] == '.';
    assert s[|d| + 1..] == rest;
    hide Decimal, DecValue, DigitLength;
  }

  lemma ReadLastNumber(b: uint8)
    ensures NumbersOf(Decimal(b as nat), 1) == Some([b])
  {
    var d := Decimal(b as nat);
    ByteDecimal(b);
    assert d + "" == d && d[..|d|] == d;
    DigitsInFront(d, "");
    hide Decimal, DecValue, DigitLength;
  }

  lemma {:induction false} NumbersBack(b: Bytes)
    requires b != []
    ensures NumbersOf(V4Text(b), |b|) == Some(b)
    decreases |b|
  {
    hide NumbersOf, Decimal;
    if |b| == 1 {
      ReadLastNumber(b[0]);
      assert Decimal(b[0] as nat) + "" == Decimal(b[0] as nat);
      assert b == [b[0]];
    } else {
      NumbersBack(b[1..]);
      ReadNumber(b[0], V4Text(b[1..]), |b|);
      assert b == [b[0]] + b[1..];
    }
  }

  lemma DecimalLooks(b: uint8)
    ensures var d := Decimal(b as nat);
            1 <= |d| <= 3 && NoNul(d) && !IsBlank(d[0]) && !IsBlank(d[|d| - 1])
  {
    ByteDecimal(b);
    hide Decimal, DecValue;
  }

  lemma {:induction false} V4TextIs(b: Bytes)
    requires b != []
    ensures var t := V4Text(b);
            0 < |t| <= 4 * |b| - 1 && NoNul(t) && !IsBlank(t[0]) && !IsBlank(t[|t| - 1])
    decreases |b|
  {
    DecimalLooks(b[0]);
    hide Decimal, IsBlank;
    if |b| > 1 {
      V4TextIs(b[1..]);
    }
  }

  /** Digits of both cases, and printed ones. */
  lemma DigitsAre(k: nat)
    requires k < 16
    ensures HexAToI("0123456789abcdef"[k]) == HexAToI("0123456789ABCDEF"[k]) == k
    ensures HexDigit(k) == "0123456789abcdef"[k]
  {
  }

  lemma ExampleTexts()
    ensures V4Text([192, 7]) == "192.7" && Hex2(0x0D) + Hex2(0xB8) == "0db8"
  {
    assert Decimal(192) == "192" && Decimal(7) == "7";
    hide Decimal;
    assert V4Text([192, 7][1..]) == "7";
  }

  /** What may stand before a dot: leading zeros are read, but 0 itself only as one digit. */
  lemma DotBytes()
    ensures DotByte("07") == Some(7) && DotByte("255") == Some(255) && DotByte("0") == Some(0)
    ensures DotByte("00") == DotByte("256") == DotByte("0007") == DotByte("") == DotByte("f") == None
  {
    var two, zero := "25", "0";
    assert "255"[..2] == two == "256"[..2] && two[..1] == "2" && "07"[..1] == zero == "00"[..1];
    assert DecValue("2") == 2 && DecValue(two) == 25 && DecValue(zero) == 0;
  }

  /** A scope beyond 64 bits is cut at the largest `long`, and every scope then to 32 bits. */
  lemma ScopeIs(d: string)
    requires Digits(d)
    ensures DecValue(d) < 0x8000_0000_0000_0000 ==> ScopeValue(d) as nat == DecValue(d) % 0x1_0000_0000
    ensures DecValue(d) >= 0x8000_0000_0000_0000 ==> ScopeValue(d) == 0xFFFF_FFFF
  {
    hide DecValue;
  }

  // ---------------------------------------------------------------- dotted numbers in version 6

  lemma DigitIsLow(s: string)
    requires Digits(s)
    ensures HexDigits(s) && Lower(s) == s
  {
  }

  /** A printed byte is the byte that a dot reads. */
  lemma DotByteBack(b: uint8)
    ensures DotByte(Decimal(b as nat)) == Some(b)
  {
    ByteDecimal(b);
    hide DecValue;
    assert b == 0 ==> Decimal(b as nat) == "0";
  }

  /** `out` written as numbers, `n` dots passed. */
  ghost function AfterDots(st: St, out: Bytes, n: nat): St {
    Push(st, out).(delimiter := '.', dots := st.dots + n, lastColon := false)
  }

  lemma DotStep(st: St, d: string, b: uint8)
    requires st.digits == "" && st.dots < 3 && DotByte(d) == Some(b)
    ensures Step(st.(digits := d, lastColon := false), '.') == Some(AfterDots(st, [b], 1))
  {
    hide DotByte;
  }

  lemma LastDot(st: St, d: string, b: uint8)
    requires st.digits == "" && st.delimiter == '.' && d != "" && DotByte(d) == Some(b)
    ensures Last(st.(digits := d, lastColon := false)) == Some(AfterDots(st, [b], 0))
  {
    hide DotByte;
  }

  /** What the digits of a printed byte are. */
  lemma NumberDigits(st: St, b: uint8, rest: string)
    requires st.digits == ""
    ensures var d := Decimal(b as nat);
            && d != "" && DotByte(d) == Some(b)
            && Run(st, d + rest) == Run(st.(digits := d, lastColon := false), rest)
  {
    var d := Decimal(b as nat);
    ByteDecimal(b);
    DigitIsLow(d);
    DotByteBack(b);
    assert "" + Lower(d) == d;
    hide *;
    RunDigits(st, d, rest);
  }

  lemma RunDot(st: St, b: uint8, rest: string)
    requires st.digits == "" && st.dots < 3
    ensures Run(st, Decimal(b as nat) + ("." + rest)) == Run(AfterDots(st, [b], 1), rest)
  {
    assert "." + rest == ['.'] + rest;
    hide *;
    NumberDigits(st, b, "." + rest);
    DotStep(st, Decimal(b as nat), b);
    RunStep(st.(digits := Decimal(b as nat), lastColon := false), '.', rest);
  }

  lemma RunLastDot(st: St, b: uint8)
    requires st.digits == "" && st.delimiter == '.'
    ensures EndsWith(st, Decimal(b as nat), AfterDots(st, [b], 0))
  {
    var d := Decimal(b as nat);
    var x := st.(digits := d, lastColon := false);
    assert d + "" == d && Run(x, "") == Some(x);
    hide Run, Last, Decimal, DotByte, AfterDots;
    NumberDigits(st, b, "");
    LastDot(st, d, b);
  }

  lemma DotsTwice(st: St, a: Bytes, b: Bytes, n: nat)
    ensures AfterDots(AfterDots(st, a, 1), b, n) == AfterDots(st, a + b, n + 1)
  {
    assert st.first + a + b == st.first + (a + b) && st.second + a + b == st.second + (a + b);
  }

  /** Numbers with dots between them, up to the end of the text. */
  lemma {:induction false} RunDotted(st: St, b: Bytes)
    requires st.digits == "" && b != [] && st.dots + |b| <= 4 && (|b| > 1 || st.delimiter == '.')
    ensures EndsWith(st, V4Text(b), AfterDots(st, b, |b| - 1))
    decreases |b|
  {
    assert b == [b[0]] + b[1..];
    if |b| == 1 {
      assert b == [b[0]] && V4Text(b) == Decimal(b[0] as nat) + "" == Decimal(b[0] as nat);
      hide *;
      RunLastDot(st, b[0]);
    } else {
      assert V4Text(b) == Decimal(b[0] as nat) + ("." + V4Text(b[1..]));
      hide V4Text, Decimal, Run, Last;
      var st1 := AfterDots(st, [b[0]], 1);
      RunDot(st, b[0], V4Text(b[1..]));
      RunDotted(st1, b[1..]);
      DotsTwice(st, [b[0]], b[1..], |b| - 2);
      hide AfterDots;
    }
  }

  /** Six groups and four numbers are the sixteen bytes they write, unless the text is longer than 39
      characters, which RFC 4291 allows. */
  lemma MixedAddress(gs: seq<string>, b: Bytes)
    requires Groups(gs) && |gs| == 6 && |b| == 4
    ensures var s := Colons(gs) + V4Text(b);
            AddressOf(s) == if |s| <= 39 then Some(GroupBytes(gs) + b) else None
  {
    var out := GroupBytes(gs);
    var st := AfterColon(Start(), out, 6);
    assert [] + out == out;
    assert Between(Start()) && st.digits == "" && st.dots == 0;
    var e := AfterDots(st, b, 3);
    assert Assembled(e) == Some(out + b);
    hide Run, Last, Colons, V4Text, GroupBytes, Groups, Assembled, AfterDots;
    RunGroups(Start(), gs, V4Text(b));
    RunDotted(st, b);
    hide AfterColon;
    AddressVia(Colons(gs) + V4Text(b), e);
  }

  /** How many groups may stand around the double colon with four numbers behind. */
  predicate FitsMixed(m: nat, k: nat) {
    if m > 0 then m + k <= 6 else k <= 5
  }

  /** `m` groups, a double colon, `k` groups and four numbers.  With six groups, not all of them behind, the
      double colon stands for nothing and is accepted, which RFC 4291 does not allow. */
  lemma MixedCompressed(gs: seq<string>, hs: seq<string>, b: Bytes)
    requires Groups(gs) && Groups(hs) && |b| == 4
    ensures var s := Joined(gs) + "::" + (Colons(hs) + V4Text(b));
            AddressOf(s) == if |s| <= 39 && FitsMixed(|gs|, |hs|)
                            then Some(GroupBytes(gs) + Zeros(12 - 2 * |gs| - 2 * |hs|) + (GroupBytes(hs) + b)) else None
  {
    hide *;
    var st := DoubledFirst(gs, hs);
    var e := AfterDots(st, b, 3);
    RunDouble(gs, Colons(hs) + V4Text(b));
    RunGroups(Doubled(GroupBytes(gs), if gs == [] then 2 else |gs| + 1), hs, V4Text(b));
    RunDotted(st, b);
    EndsVia(Start(), Joined(gs) + "::" + (Colons(hs) + V4Text(b)), st, V4Text(b), e);
    AddressVia(Joined(gs) + "::" + (Colons(hs) + V4Text(b)), e);
    MixedAssembled(st, b, |gs|, |hs|);
  }

  /** The state behind the groups of the second part. */
  lemma DoubledFirst(gs: seq<string>, hs: seq<string>) returns (st: St)
    requires Groups(gs) && Groups(hs)
    ensures var d := Doubled(GroupBytes(gs), if gs == [] then 2 else |gs| + 1);
            Between(d) && st == if hs == [] then d else AfterColon(d, GroupBytes(hs), |hs|)
    ensures st.digits == "" && st.dots == 0 && st.secondUsed
    ensures st.first == GroupBytes(gs) && st.second == GroupBytes(hs)
    ensures st.colons == (if gs == [] then 2 else |gs| + 1) + |hs|
  {
    var d := Doubled(GroupBytes(gs), if gs == [] then 2 else |gs| + 1);
    st := if hs == [] then d else AfterColon(d, GroupBytes(hs), |hs|);
    assert [] + GroupBytes(hs) == GroupBytes(hs) && GroupBytes([]) == [];
    hide GroupBytes;
  }

  lemma EndsVia(st0: St, s: string, st: St, rest: string, e: St)
    requires Run(st0, s) == Run(st, rest) && EndsWith(st, rest, e)
    ensures EndsWith(st0, s, e)
  {
    hide Run, Last;
  }

  lemma MixedAssembled(st: St, b: Bytes, m: nat, k: nat)
    requires st.secondUsed && st.dots == 0 && |st.first| == 2 * m && |st.second| == 2 * k && |b| == 4
    requires st.colons == (if m == 0 then 2 else m + 1) + k
    ensures Assembled(AfterDots(st, b, 3)) ==
            if FitsMixed(m, k) then Some(st.first + Zeros(12 - 2 * m - 2 * k) + (st.second + b)) else None
  {
  }

  /** Every address of version 4 comes back from its text. */
  lemma V4RoundTrip(b: Bytes)
    requires |b| == 4
    ensures V4Of(V4Text(b)) == Some(V4(b))
  {
    hide *;
    NumbersBack(b);
    V4TextIs(b);
    CStrSame(V4Text(b));
    TrimSame(V4Text(b));
    V4Accepts(V4Text(b), b);
  }

  lemma V4Accepts(t: string, b: Bytes)
    requires 0 < |t| <= 15 && Trim(t) == t && CStr(t) == t && NumbersOf(t, 4) == Some(b)
    ensures V4Of(t) == Some(V4(b))
  {
    hide Trim, CStr, NumbersOf;
  }

  /** A text of numbers that is accepted is four numbers with dots between them, and nothing else. */
  lemma {:induction false} NumbersAre(s: string, n: nat) returns (ts: seq<string>)
    requires n > 0 && NumbersOf(s, n).Some?
    ensures s == JoinedDots(ts) && Writes(ts, NumbersOf(s, n).value) && |ts| == n
    decreases n
  {
    var d := DigitLength(s);
    if n == 1 {
      ts := [s];
      assert s[..d] == s;
    } else {
      FirstNumber(s, n, d);
      hide *;
      var us := NumbersAre(s[d + 1..], n - 1);
      ts := [s[..d]] + us;
      OneMoreNumber(s[..d], us, NumbersOf(s[d + 1..], n - 1).value);
    }
  }

  /** The texts are numbers of one to three digits, and write the bytes. */
  ghost predicate Writes(ts: seq<string>, b: Bytes) {
    |ts| == |b| && forall i | 0 <= i < |b| :: 1 <= |ts[i]| <= 3 && Digits(ts[i]) && DecValue(ts[i]) == b[i] as nat
  }

  /** And every such text is accepted, leading zeros or not. */
  lemma {:induction false} NumbersRead(ts: seq<string>, b: Bytes)
    requires ts != [] && Writes(ts, b)
    ensures NumbersOf(JoinedDots(ts), |ts|) == Some(b)
  {
    WritesParts(ts, b);
    hide *;
    if |ts| == 1 {
      OnlyNumber(ts[0], b[0]);
      OneDotted(ts);
    } else {
      NumbersRead(ts[1..], b[1..]);
      NumberInFront(ts[0], JoinedDots(ts[1..]), b[0], |ts|);
      MoreDotted(ts);
    }
  }

  lemma WritesParts(ts: seq<string>, b: Bytes)
    requires ts != [] && Writes(ts, b)
    ensures b == [b[0]] + b[1..] && |b| == |ts| && (|ts| == 1 ==> b == [b[0]]) && Writes(ts[1..], b[1..])
    ensures 1 <= |ts[0]| <= 3 && Digits(ts[0]) && DecValue(ts[0]) == b[0] as nat
  {
    hide DecValue, Digits;
  }

  lemma OneDotted(ts: seq<string>)
    requires |ts| == 1
    ensures JoinedDots(ts) == ts[0]
  {
  }

  lemma MoreDotted(ts: seq<string>)
    requires |ts| > 1
    ensures JoinedDots(ts) == ts[0] + ("." + JoinedDots(ts[1..]))
  {
  }

  lemma OnlyNumber(t: string, b: uint8)
    requires 1 <= |t| <= 3 && Digits(t) && DecValue(t) == b as nat
    ensures NumbersOf(t, 1) == Some([b])
  {
    assert t + "" == t && t[..|t|] == t;
    DigitsInFront(t, "");
    hide DecValue, DigitLength;
  }

  lemma NumberInFront(t: string, rest: string, b: uint8, n: nat)
    requires n > 1 && 1 <= |t| <= 3 && Digits(t) && DecValue(t) == b as nat
    ensures NumbersOf(t + ("." + rest), n) ==
            match NumbersOf(rest, n - 1) { case None => None case Some(bs) => Some([b] + bs) }
  {
    var s := t + ("." + rest);
    DigitsInFront(t, "." + rest);
    assert s[..|t|] == t && s[|t|] == '.' && s[|t| + 1..] == rest;
    hide DigitLength, DecValue;
  }

  lemma FirstNumber(s: string, n: nat, d: nat)
    requires n > 1 && NumbersOf(s, n).Some? && d == DigitLength(s)
    ensures 1 <= d <= 3 && d < |s| && s == s[..d] + "." + s[d + 1..] && Digits(s[..d]) && DecValue(s[..d]) <= 255
    ensures NumbersOf(s[d + 1..], n - 1).Some?
    ensures NumbersOf(s, n).value == [DecValue(s[..d]) as uint8] + NumbersOf(s[d + 1..], n - 1).value
  {
    hide DecValue;
  }

  lemma OneMoreNumber(t: string, us: seq<string>, b: Bytes)
    requires Writes(us, b) && us != [] && 1 <= |t| <= 3 && Digits(t) && DecValue(t) <= 255
    ensures Writes([t] + us, [DecValue(t) as uint8] + b) && JoinedDots([t] + us) == t + "." + JoinedDots(us)
  {
    assert ([t] + us)[1..] == us;
    hide DecValue, Digits;
  }

  ghost function JoinedDots(ts: seq<string>): string {
    if ts == [] then "" else if |ts| == 1 then ts[0] else ts[0] + "." + JoinedDots(ts[1..])
  }

  /** Every valid address, of either version, survives printing and parsing. */
  lemma RoundTrip(a: Address)
    requires Proper(a)
    ensures ParseOf(TextOf(a)) == Some(a)
  {
    hide V4Text, V6Text, NumbersOf, AddressOf, SplitScope, ScopeOf, CStr, Trim;
    match a
    case V4(b) =>
      V4RoundTrip(b);
    case V6(b, scope) =>
      V6RoundTrip(b, scope);
      V6TextIs(b, scope);
  }

  // ---------------------------------------------------------------- the buffers of the version 6 parser

  /** What has been written is bounded by the characters read, and by the colons and dots. */
  ghost predicate Sized(st: St, n: nat) {
    && |st.first| + |st.second| + |st.digits| + (if st.secondUsed then 1 else 0) <= n
    && |st.first| + |st.second| <= 2 * st.colons - (if st.secondUsed then 2 else 0) + st.dots
    && (st.lastColon ==> st.digits == "") && (st.delimiter == ':' ==> st.dots == 0) && st.dots <= 3
    && (!st.secondUsed ==> st.second == [])
  }

  lemma SizedStep(st: St, c: char, n: nat)
    requires Sized(st, n) && Step(st, c).Some?
    ensures Sized(Step(st, c).value, n + 1)
  {
    hide Pack, DotByte;
  }

  lemma {:induction false} SizedRun(st: St, s: string, n: nat)
    requires Sized(st, n) && Run(st, s).Some?
    ensures Sized(Run(st, s).value, n + |s|)
    decreases |s|
  {
    if s != "" {
      SizedStep(st, s[0], n);
      hide Sized, Step;
      SizedRun(Step(st, s[0]).value, s[1..], n + 1);
    }
  }

  /** A text short enough to be read never overruns the two output buffers, of 256 and 39 bytes, and
      what there is to join around a double colon is at most an address. */
  lemma BuffersSuffice(s: string, e: St)
    requires |s| <= 39 && EndsWith(Start(), s, e)
    ensures |e.first| <= 256 && |e.second| <= 39
    ensures e.secondUsed && e.colons <= 7 ==> |e.first| + |e.second| <= 16
  {
    SizedRun(Start(), s, 0);
    hide Run, Pack, DotByte;
  }

  // ---------------------------------------------------------------- the code

  /** Up to four digits, moved to the right in place and packed. */
  method PackDigits(digits: string) returns (two: Bytes)
    requires HexDigits(digits) && |digits| <= 4
    ensures two == Pack(digits)
  {
    var d := new nat[4];
    var n := |digits|;
    for i := 0 to n
      invariant forall k | 4 - i <= k < 4 :: d[k] == HexAToI(digits[n - 4 + k])
    {
      d[3 - i] := HexAToI(digits[n - 1 - i]);
    }
    for i := 0 to 4 - n
      invariant forall k | 4 - n <= k < 4 :: d[k] == HexAToI(digits[n - 4 + k])
      invariant forall j | 0 <= j < i :: d[j] == 0
    {
      d[i] := 0;
    }
    assert d[0] == At(digits, 4) && d[1] == At(digits, 3) && d[2] == At(digits, 2) && d[3] == At(digits, 1);
    ghost var packed := Pack(digits);
    assert packed[0] == (d[0] * 16 + d[1]) as uint8 && packed[1] == (d[2] * 16 + d[3]) as uint8;
    hide Pack, At;
    two := [];
    for i := 0 to 2
      invariant two == packed[..i]
    {
      assert packed[..i + 1] == packed[..i] + [packed[i]];
      two := two + [(d[2 * i] * 16 + d[2 * i + 1]) as uint8];
    }
  }

  /** The loop over the characters of an address; `None` where it refuses one. */
  method ReadChars(s: string) returns (r: Option<St>)
    ensures r == Run(Start(), s)
  {
    var first, second, secondUsed := [], [], false;
    var colons, lastColon, dots := 0, false, 0;
    var digits, delimiter := "", '\0';
    var in_ptr := 0;
    hide Pack, DotByte, Run;
    assert s[0..] == s;
    while in_ptr < |s|
      invariant in_ptr <= |s| && HexDigits(digits) && |digits| <= 4
      invariant Run(Start(), s) == Run(St(first, second, secondUsed, colons, lastColon, dots, digits, delimiter),
                s[in_ptr..])
    {
      ghost var st := St(first, second, secondUsed, colons, lastColon, dots, digits, delimiter);
      var c := s[in_ptr];
      assert s[in_ptr..] == [c] + s[in_ptr + 1..];
      RunStep(st, c, s[in_ptr + 1..]);
      in_ptr := in_ptr + 1;
      if c == '.' {
        delimiter := c;
        if dots + 1 > 3 { return None; }
        dots := dots + 1;
        var b := DotByte(digits);
        if b.None? { return None; }
        if secondUsed { second := second + [b.value]; } else { first := first + [b.value]; }
        digits := "";
      } else if c == ':' {
        delimiter := c;
        if dots > 0 { return None; }
        if digits != "" {
          var two := PackDigits(digits);
          if secondUsed { second := second + two; } else { first := first + two; }
          digits := "";
        }
        colons := colons + 1;
        if lastColon {
          if secondUsed { return None; }
          secondUsed := true;
        } else {
          lastColon := true;
        }
      } else {
        if |digits| >= 4 || !IsHex(c) { return None; }
        LowerHex(c);
        digits := digits + [ToLower(c)];
        lastColon := false;
      }
    }
    var st := St(first, second, secondUsed, colons, lastColon, dots, digits, delimiter);
    assert s[in_ptr..] == "";
    RunNone(st);
    return Some(st);
  }

  lemma LowerHex(c: char)
    requires IsHex(c)
    ensures IsHex(ToLower(c))
  {
  }

  lemma RunNone(st: St)
    ensures Run(st, "") == Some(st)
  {
  }

  method Padded(first: Bytes, n: nat) returns (r: Bytes)
    ensures r == first + Zeros(n)
  {
    r := first;
    for i := 0 to n
      invariant r == first + Zeros(i)
    {
      r := r + [0];
      assert Zeros(i + 1) == Zeros(i) + [0];
    }
  }

  /** What follows the loop: the last digits, the counts, and the zeros for the double colon. */
  method ReadAddress(s: string) returns (r: Option<Bytes>)
    ensures r == AddressOf(s)
  {
    if |s| > 39 { return None; }
    var read := ReadChars(s);
    hide Run, Pack, DotByte;
    if read.None? { return None; }
    var st := read.value;
    var first, second := st.first, st.second;
    if st.digits != "" {
      var bytes: Bytes;
      if st.delimiter == ':' {
        if !(HexDigits(st.digits) && |st.digits| <= 4) { return None; }
        bytes := PackDigits(st.digits);
      } else if st.delimiter == '.' {
        var b := DotByte(st.digits);
        if b.None? { return None; }
        bytes := [b.value];
      } else {
        return None;
      }
      if st.secondUsed { second := second + bytes; } else { first := first + bytes; }
    }
    if st.colons > 7 || st.colons < 2 { return None; }
    if st.dots > 0 && st.dots != 3 { return None; }
    if st.secondUsed && |first| + |second| <= 16 {
      first := Padded(first, 16 - (|first| + |second|));
      first := first + second;
    }
    if |first| != 16 { return None; }
    return Some(first);
  }

  lemma {:induction false} SplitDigits(u: string, e: string)
    requires Digits(e)
    ensures SplitScope(u + e) == match SplitScope(u)
              case (a, Some(d)) => (a, Some(d + e))
              case (_, None) => (if SplitScope(u).1.Some? then u else u + e, None)
    decreases |e|
  {
    if e == "" {
      assert u + e == u;
      assert SplitScope(u).1.Some? ==> SplitScope(u).1.value + e == SplitScope(u).1.value;
      NoScopeWhole(u);
    } else {
      var init, c := e[..|e| - 1], e[|e| - 1];
      SplitDigits(u, init);
      assert (u + e)[..|u + e| - 1] == u + init && (u + e)[|u + e| - 1] == c;
      assert init + [c] == e;
      assert SplitScope(u).1.Some? ==> SplitScope(u).1.value + init + [c] == SplitScope(u).1.value + e;
    }
  }

  lemma NoScopeWhole(s: string)
    ensures SplitScope(s).1.None? ==> SplitScope(s).0 == s
  {
  }

  /** Looks from the end for a percent sign with only digits behind it; -1 for none. */
  method FindScope(t: string) returns (pos: int)
    requires |t| <= TWO32
    ensures pos < 0 ==> ScopeOf(t) == (t, None)
    ensures pos >= 0 ==> pos < |t| && ScopeOf(t) == (t[..pos], Some(t[pos + 1..]))
  {
    var i := if |t| <= 0x8000_0000 then |t| - 1 else |t| - 1 - TWO32;
    if i < 0 && t != "" { return -1; }
    hide SplitScope;
    while i >= 0
      invariant -1 <= i < |t| && Digits(t[i + 1..])
    {
      assert t[i..] == [t[i]] + t[i + 1..];
      if t[i] == '%' {
        assert t == t[..i] + "%" + t[i + 1..];
        WithScope(t[..i], t[i + 1..]);
        return i;
      }
      if !IsDigit(t[i]) {
        assert t == t[..i + 1] + t[i + 1..];
        EndsPlain(t[..i + 1]);
        SplitDigits(t[..i + 1], t[i + 1..]);
        return -1;
      }
      i := i - 1;
    }
    assert t[0..] == t && "" + t == t;
    EndsPlain("");
    SplitDigits("", t);
    return -1;
  }

  lemma EndsPlain(u: string)
    requires u == "" || (u[|u| - 1] != '%' && !IsDigit(u[|u| - 1]))
    ensures SplitScope(u) == (u, None)
  {
  }

  /** "atol" of digits, as the library does it, then the cut to 32 bits. */
  method ReadDecimal(d: string) returns (n: nat)
    requires Digits(d)
    ensures n == DecValue(d)
  {
    n := 0;
    for i := 0 to |d|
      invariant n == DecValue(d[..i])
    {
      assert d[..i + 1][..i] == d[..i];
      n := n * 10 + (d[i] as int - 48);
    }
    assert d[..|d|] == d;
  }

  // The two passes of the version 4 parser: dots and digits first, then the numbers.

  /** Only digits, with three dots that do not stand together, in front or at the end. */
  ghost predicate Shape(s: string, lastDot: bool, dots: nat) {
    if s == "" then dots == 3 && !lastDot
    else if s[0] == '.' then !lastDot && Shape(s[1..], true, dots + 1)
    else IsDigit(s[0]) && Shape(s[1..], false, dots)
  }

  method CheckShape(s: string) returns (ok: bool)
    ensures ok == Shape(s, true, 0)
  {
    var dot_count, last_char_was_dot, i := 0, true, 0;
    assert s[0..] == s;
    while i < |s|
      invariant i <= |s| && Shape(s, true, 0) == Shape(s[i..], last_char_was_dot, dot_count)
    {
      assert s[i..][1..] == s[i + 1..];
      if s[i] == '.' {
        if last_char_was_dot { return false; }
        dot_count := dot_count + 1;
        last_char_was_dot := true;
      } else if IsDigit(s[i]) {
        last_char_was_dot := false;
      } else {
        return false;
      }
      i := i + 1;
    }
    assert s[i..] == "";
    return dot_count == 3 && !last_char_was_dot;
  }

  /** A number in front, then the end or a dot. */
  lemma {:induction false} ShapeDigits(s: string, lastDot: bool, dots: nat)
    ensures var d := DigitLength(s); d > 0 ==> Shape(s, lastDot, dots) == Shape(s[d..], false, dots)
    decreases |s|
  {
    var d := DigitLength(s);
    if d > 0 {
      assert s[1..][d - 1..] == s[d..];
      if d > 1 {
        ShapeDigits(s[1..], false, dots);
      }
    }
  }

  lemma ShapeToken(s: string, dots: nat)
    ensures var d := DigitLength(s);
            Shape(s, true, dots) <==>
              d > 0 && (if d == |s| then dots == 3 else s[d] == '.' && Shape(s[d + 1..], true, dots + 1))
  {
    var d := DigitLength(s);
    ShapeDigits(s, true, dots);
    if 0 < d < |s| {
      assert s[d..][1..] == s[d + 1..];
    }
  }

  lemma {:induction false} TooManyDots(s: string, lastDot: bool, dots: nat)
    requires dots > 3
    ensures !Shape(s, lastDot, dots)
    decreases |s|
  {
    if s != "" {
      TooManyDots(s[1..], true, dots + 1);
      TooManyDots(s[1..], false, dots);
    }
  }

  /** What has not the shape has no numbers. */
  lemma {:induction false} NumbersHaveShape(s: string, n: nat)
    requires 0 < n <= 4 && NumbersOf(s, n).Some?
    ensures Shape(s, true, 4 - n)
    decreases n
  {
    ShapeToken(s, 4 - n);
    hide Shape, DecValue;
    if n > 1 {
      NumbersHaveShape(s[DigitLength(s) + 1..], n - 1);
    }
  }

  /** Reads digits up to a dot or the end. */
  method ReadNumber4(s: string, p0: nat) returns (p: nat, number: nat)
    requires p0 <= |s| && var d := DigitLength(s[p0..]); p0 + d == |s| || s[p0 + d] == '.'
    ensures p == p0 + DigitLength(s[p0..]) && number == DecValue(s[p0..][..p - p0])
  {
    ghost var d := DigitLength(s[p0..]);
    ghost var t := s[p0..];
    p, number := p0, 0;
    assert forall i | 0 <= i < d :: IsDigit(t[..d][i]) && t[..d][i] == t[i] == s[p0 + i];
    while p < |s| && s[p] != '.'
      invariant p0 <= p <= p0 + d <= |s| && number == DecValue(t[..p - p0])
      invariant forall i | p0 <= i < p0 + d :: IsDigit(s[i])
    {
      assert t[..d][p - p0] == s[p];
      assert t[..p + 1 - p0][..p - p0] == t[..p - p0];
      number := number * 10 + (s[p] as int - 48);
      p := p + 1;
    }
  }

  lemma V4Step(b: Bytes)
    requires |b| > 1
    ensures V4Text(b) == Decimal(b[0] as nat) + ("." + V4Text(b[1..]))
  {
  }

  lemma FourNumbers(b: Bytes)
    requires |b| == 4
    ensures V4Text(b) == Decimal(b[0] as nat) +
            ("." + (Decimal(b[1] as nat) + ("." + (Decimal(b[2] as nat) + ("." + Decimal(b[3] as nat))))))
  {
    var c, d, e := b[1..], b[2..], b[3..];
    assert c[1..] == d && d[1..] == e && c[0] == b[1] && d[0] == b[2] && e[0] == b[3];
    V4Step(b);
    V4Step(c);
    V4Step(d);
    assert V4Text(e) == Decimal(e[0] as nat);
    hide Decimal, V4Text;
  }

  /** "%02x%02x" */
  function GroupText(b: Bytes, i: nat): string
    requires i + 1 < |b|
  {
    Hex2(b[i]) + Hex2(b[i + 1])
  }

  lemma GroupsFrom(b: Bytes, i: nat)
    requires i + 1 < |b|
    ensures Joined(HexGroups(b[i..])) ==
            GroupText(b, i) + if i + 3 < |b| then ":" + Joined(HexGroups(b[i + 2..])) else ""
  {
    var c, gs := b[i..], HexGroups(b[i..]);
    assert c[2..] == b[i + 2..] && c[0] == b[i] && c[1] == b[i + 1];
    assert gs == [GroupText(b, i)] + HexGroups(b[i + 2..]);
    assert gs[1..] == HexGroups(b[i + 2..]);
    assert i + 3 < |b| <==> HexGroups(b[i + 2..]) != [];
    hide GroupText, HexGroups;
  }

  lemma EightGroups(b: Bytes)
    requires |b| == 16
    ensures Joined(HexGroups(b)) ==
            GroupText(b, 0) + (":" + (GroupText(b, 2) + (":" + (GroupText(b, 4) + (":" + (GroupText(b, 6) +
            (":" + (GroupText(b, 8) + (":" + (GroupText(b, 10) + (":" + (GroupText(b, 12) +
            (":" + GroupText(b, 14))))))))))))))
  {
    assert b[0..] == b;
    GroupsFrom(b, 0);
    GroupsFrom(b, 2);
    GroupsFrom(b, 4);
    GroupsFrom(b, 6);
    GroupsFrom(b, 8);
    GroupsFrom(b, 10);
    GroupsFrom(b, 12);
    GroupsFrom(b, 14);
    hide Joined, HexGroups, GroupText;
  }

  datatype Version = UNKNOWN | VERSION4 | VERSION6

  class IP {
    var version: Version
    const addrBuffer: array<uint8>

    ghost predicate Valid() { addrBuffer.Length == 32 }

    /** The address held, if any. */
    ghost function Abs(): (a: Option<Address>)
      requires Valid()
      reads this, addrBuffer
      ensures a.Some? ==> Proper(a.value)
    {
      match version
      case UNKNOWN => None
      case VERSION4 => Some(V4(addrBuffer[..4]))
      case VERSION6 => Some(V6(addrBuffer[..16], FromBe32(addrBuffer[16..20])))
    }

    constructor ()
      ensures Valid() && fresh(addrBuffer) && Abs() == None
    {
      version := UNKNOWN;
      addrBuffer := new uint8[32];
    }

    method Clear()
      requires Valid()
      modifies `version, addrBuffer
      ensures Abs() == None && forall i | 0 <= i < 32 :: addrBuffer[i] == 0
    {
      version := UNKNOWN;
      for i := 0 to 32
        invariant forall j | 0 <= j < i :: addrBuffer[j] == 0
        modifies addrBuffer
      {
        addrBuffer[i] := 0;
      }
    }

    function GetV6Scope(): uint32
      requires Valid()
      reads addrBuffer
    {
      FromBe32(addrBuffer[16..20])
    }

    method ParseV6(ip: string) returns (ok: bool)
      requires Valid() && |ip| <= TWO32
      modifies `version, addrBuffer
      ensures ok == V6Of(ip).Some? && Abs() == V6Of(ip)
    {
      Clear();
      var tmpIp := Trim(ip);
      if tmpIp == "" { return false; }
      var scope: uint32 := 0;
      var pos := FindScope(tmpIp);
      if pos >= 0 {
        var v := ReadDecimal(tmpIp[pos + 1..]);
        scope := ((if v > 0x7FFF_FFFF_FFFF_FFFF then 0x7FFF_FFFF_FFFF_FFFF else v) % TWO32) as uint32;
        tmpIp := tmpIp[..pos];
      }
      hide AddressOf, ScopeOf, SplitScope, Trim, CStr;
      var address := ReadAddress(CStr(tmpIp));
      if address.None? { return false; }
      Be32Back(scope);
      hide Be32, FromBe32;
      version := VERSION6;
      Copy(addrBuffer, 0, address.value);
      Copy(addrBuffer, 16, Be32(scope));
      assert addrBuffer[..][..16] == address.value && addrBuffer[..][16..20] == Be32(scope);
      return true;
    }

    method ParseV4(ip: string) returns (ok: bool)
      requires Valid()
      modifies `version, addrBuffer
      ensures ok == V4Of(ip).Some? && Abs() == V4Of(ip)
    {
      Clear();
      var tmpIp := Trim(ip);
      if tmpIp == "" { return false; }
      if |tmpIp| > 15 { return false; }
      var s := CStr(tmpIp);
      hide Trim, CStr;
      var shaped := CheckShape(s);
      if !shaped {
        if NumbersOf(s, 4).Some? { NumbersHaveShape(s, 4); }
        return false;
      }
      ok := ReadNumbers(s);
      if ok { version := VERSION4; }
    }

    /** Version 4 first; where neither reads the text, no address is held, and the look-up of names begins. */
    method Parse(ip: string)
      requires Valid() && |ip| <= TWO32
      modifies `version, addrBuffer
      ensures Abs() == ParseOf(ip)
    {
      hide V4Of, V6Of;
      var ok := ParseV4(ip);
      if ok { return; }
      ok := ParseV6(ip);
      if ok { return; }
      Clear();
    }

    method ToString() returns (text: string)
      requires Valid()
      ensures text == if Abs() == None then "" else TextOf(Abs().value)
    {
      if version == UNKNOWN { return ""; }
      if version == VERSION4 {
        text := TextV4();
      } else {
        hide V6Text, V4Text, FromBe32;
        text := TextV6();
      }
    }

    method TextV4() returns (text: string)
      requires Valid()
      ensures text == V4Text(addrBuffer[..4])
    {
      FourNumbers(addrBuffer[..4]);
      hide V4Text, Decimal;
      text := Decimal(addrBuffer[0] as nat) +
        ("." + (Decimal(addrBuffer[1] as nat) + ("." + (Decimal(addrBuffer[2] as nat) + ("." +
              Decimal(addrBuffer[3] as nat))))));
    }

    method TextV6() returns (text: string)
      requires Valid()
      ensures text == V6Text(addrBuffer[..16], GetV6Scope())
    {
      EightGroups(addrBuffer[..16]);
      hide HexGroups, Joined, GroupText, GetV6Scope, Decimal;
      var b := addrBuffer[..16];
      text := GroupText(b, 0) + (":" + (GroupText(b, 2) + (":" + (GroupText(b, 4) + (":" + (GroupText(b, 6) + (":" +
              (GroupText(b, 8) + (":" + (GroupText(b, 10) +
                (":" + (GroupText(b, 12) + (":" + GroupText(b, 14))))))))))))));
      if GetV6Scope() != 0 {
        text := text + ("%" + Decimal(GetV6Scope() as nat));
      }
    }

    /** Where the second pass is: `k` bytes read, and the text at `p`, behind its dot, still to come. */
    ghost predicate Reading(s: string, p: nat, k: nat)
      requires Valid()
      reads addrBuffer
    {
      && p <= |s| && k <= 4
      && if p == |s| then k == 4 && NumbersOf(s, 4) == Some(addrBuffer[..4])
         else
           && k < 4 && (k > 0 ==> s[p] == '.')
           && var t := if k > 0 then s[p + 1..] else s[p..];
           Shape(t, true, k) && NumbersOf(s, 4) == Prepended(addrBuffer[..k], NumbersOf(t, 4 - k))
    }

    /** The second pass: the numbers, byte by byte into the buffer. */
    method ReadNumbers(s: string) returns (ok: bool)
      requires Valid() && Shape(s, true, 0)
      modifies addrBuffer
      ensures ok == NumbersOf(s, 4).Some? && (ok ==> NumbersOf(s, 4) == Some(addrBuffer[..4]))
    {
      var p, token_count := 0, 0;
      StartsReading(s);
      while p < |s|
        invariant p <= |s| && Reading(s, p, token_count)
      {
        ok, p := ReadToken(s, p, token_count);
        if !ok { return false; }
        token_count := token_count + 1;
      }
      return true;
    }

    /** One number: false where it is too long or too large. */
    method ReadToken(s: string, p0: nat, k: nat) returns (ok: bool, p: nat)
      requires Valid() && p0 < |s| && Reading(s, p0, k)
      modifies addrBuffer
      ensures if ok then p <= |s| && p > p0 && Reading(s, p, k + 1) else NumbersOf(s, 4) == None
    {
      var q := if s[p0] == '.' then p0 + 1 else p0;
      ghost var t := s[q..];
      ghost var before := addrBuffer[..k];
      FirstIsNotDot(s, p0, k);
      Token(t, k);
      ghost var d := DigitLength(t);
      hide Shape, NumbersOf, DecValue;
      var number;
      p, number := ReadNumber4(s, q);
      if p - q > 3 { return false, p; }
      if number > 255 { return false, p; }
      addrBuffer[k] := number as uint8;
      assert addrBuffer[..k + 1] == before + [number as uint8];
      Stored(s, p, q, k, t, d, before, number as uint8);
      return true, p;
    }

    /** The text to come does not begin with a dot, so it is read where the code reads it. */
    lemma FirstIsNotDot(s: string, p: nat, k: nat)
      requires Valid() && p < |s| && Reading(s, p, k)
      ensures var q := if s[p] == '.' then p + 1 else p;
              && q <= |s| && Shape(s[q..], true, k)
                && NumbersOf(s, 4) == Prepended(addrBuffer[..k], NumbersOf(s[q..], 4 - k)) && k < 4
      ensures DigitLength(s[if s[p] == '.' then p + 1 else p..]) > 0
    {
      var q := if k > 0 then p + 1 else p;
      ShapeToken(s[q..], k);
      if k == 0 {
        assert s[p..][0] == s[p];
      }
      hide Shape, NumbersOf, DecValue;
    }

    lemma Stored(s: string, p: nat, q: nat, k: nat, t: string, d: nat, before: Bytes, b: uint8)
      requires Valid() && q <= p <= |s| && k < 4 && t == s[q..] && d == DigitLength(t) == p - q > 0
      requires addrBuffer[..k + 1] == before + [b] && NumbersOf(s, 4) == Prepended(before, NumbersOf(t, 4 - k))
      requires if d == |t| then k == 3 && NumbersOf(t, 1) == Some([b])
               else
                 && t[d] == '.' && k < 3 && Shape(t[d + 1..], true, k + 1)
                 && NumbersOf(t, 4 - k) == Prepended([b], NumbersOf(t[d + 1..], 3 - k))
      ensures Reading(s, p, k + 1)
    {
      hide Shape, NumbersOf;
      if d < |t| {
        assert s[p + 1..] == t[d + 1..] && s[p] == t[d];
        assert Prepended(before, Prepended([b], NumbersOf(t[d + 1..], 3 - k)))
          == Prepended(before + [b], NumbersOf(t[d + 1..], 3 - k)) by {
          if NumbersOf(t[d + 1..], 3 - k).Some? {
            var x := NumbersOf(t[d + 1..], 3 - k).value;
            assert before + ([b] + x) == before + [b] + x;
          }
        }
      }
    }

    lemma StartsReading(s: string)
      requires Valid() && Shape(s, true, 0)
      ensures Reading(s, 0, 0)
    {
      ShapeToken(s, 0);
      assert s[0..] == s && addrBuffer[..0] == [];
      assert NumbersOf(s, 4).Some? ==> [] + NumbersOf(s, 4).value == NumbersOf(s, 4).value;
      hide Shape, NumbersOf;
    }
  }

  /** What the numbers of a text are, by its first. */
  lemma Token(t: string, k: nat)
    requires k < 4 && Shape(t, true, k)
    ensures var d := DigitLength(t); var v := DecValue(t[..d]);
            && d > 0 && (d == |t| || t[d] == '.')
            && (d > 3 || v > 255 ==> NumbersOf(t, 4 - k) == None)
            && (d <= 3 && v <= 255 ==>
                  if d == |t| then k == 3 && NumbersOf(t, 1) == Some([v as uint8])
                  else
                    && k < 3 && Shape(t[d + 1..], true, k + 1)
                    && NumbersOf(t, 4 - k) == Prepended([v as uint8], NumbersOf(t[d + 1..], 3 - k)))
  {
    ShapeToken(t, k);
    var d := DigitLength(t);
    if d < |t| {
      TooManyDots(t[d + 1..], true, 4);
    }
    hide Shape, DecValue;
  }

  ghost function Prepended(b: Bytes, r: Option<Bytes>): Option<Bytes> {
    match r case None => None case Some(x) => Some(b + x)
  }
}
