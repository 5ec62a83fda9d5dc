/** The string helpers that the command line packets rest on. */
module Strings {

  predicate IsSpace(c: char) {
    c == ' ' || c == '\t' || c == '\n' || c == '\r' || c == '\U{0B}' || c == '\U{0C}'
  }

  /** Trimming counts the NUL character as space. */
  predicate IsBlank(c: char) { IsSpace(c) || c == '\0' }

  function TrimLeft(s: string): (t: string)
    ensures t == "" || !IsBlank(t[0])
    ensures s != "" && !IsBlank(s[0]) ==> t == s
    ensures |t| <= |s|
  {
    if s == "" then "" else if IsBlank(s[0]) then TrimLeft(s[1..]) else s
  }

  function TrimRight(s: string): (t: string)
    ensures t == "" || !IsBlank(t[|t| - 1])
    ensures s != "" && !IsBlank(s[|s| - 1]) ==> t == s
    ensures |t| <= |s|
  {
    if s == "" then "" else if IsBlank(s[|s| - 1]) then TrimRight(s[..|s| - 1]) else s
  }

  function Trim(s: string): string { TrimRight(TrimLeft(s)) }

  predicate Blanks(s: string) { forall i | 0 <= i < |s| :: s[i] as int in {0, 9, 10, 11, 12, 13, 32} }

  /** Trimming takes blanks from both ends, all of them and nothing else. */
  lemma TrimIs(s: string) returns (a: string, b: string)
    ensures s == a + Trim(s) + b && Blanks(a) && Blanks(b)
    ensures Trim(s) != "" ==> !Blanks(Trim(s)[..1]) && !Blanks(Trim(s)[|Trim(s)| - 1..])
  {
    a := TrimLeftIs(s);
    b := TrimRightIs(TrimLeft(s));
  }

  lemma {:induction false} TrimLeftIs(s: string) returns (a: string)
    ensures s == a + TrimLeft(s) && Blanks(a)
  {
    a := "";
    if s != "" && IsBlank(s[0]) {
      var rest := TrimLeftIs(s[1..]);
      a := [s[0]] + rest;
    }
  }

  lemma {:induction false} TrimRightIs(s: string) returns (b: string)
    ensures s == TrimRight(s) + b && Blanks(b)
  {
    b := "";
    if s != "" && IsBlank(s[|s| - 1]) {
      var rest := TrimRightIs(s[..|s| - 1]);
      b := rest + [s[|s| - 1]];
    }
  }

  /** Up to the first NUL, as a C string reads. */
  function CStr(s: string): string {
    if s == "" || s[0] == '\0' then "" else [s[0]] + CStr(s[1..])
  }

  predicate NoNul(s: string) { forall i | 0 <= i < |s| :: s[i] != '\0' }

  lemma {:induction false} CStrSame(s: string)
    requires NoNul(s)
    ensures CStr(s) == s
  {
    if s != "" {
      CStrSame(s[1..]);
    }
  }

  /** `f` stands in `s` at position `i`. */
  predicate MatchAt(s: string, f: string, i: nat) {
    i + |f| <= |s| && s[i..i + |f|] == f
  }

  lemma MatchShift(s: string, f: string, d: nat, i: nat)
    requires d <= |s|
    ensures MatchAt(s[d..], f, i) <==> MatchAt(s, f, d + i)
  {
    if d + i + |f| <= |s| {
      assert s[d..][i..i + |f|] == s[d + i..d + i + |f|];
    }
  }

  predicate NoMatch(s: string, f: string, from: nat, to: nat) {
    forall i: nat | from <= i < to :: !MatchAt(s, f, i)
  }

  lemma NoMatchShift(s: string, f: string, from: nat, d: nat, to: nat)
    requires from <= d <= |s| && d <= to && NoMatch(s, f, from, to)
    ensures NoMatch(s[d..], f, 0, to - d)
  {
    forall i: nat | i < to - d
      ensures !MatchAt(s[d..], f, i)
    {
      MatchShift(s, f, d, i);
    }
  }

  /** The first position from `pos` on where `f` stands, or -1. */
  method Find(s: string, f: string, pos: nat) returns (at: int)
    ensures at >= 0 ==> pos <= at && MatchAt(s, f, at) && NoMatch(s, f, pos, at)
    ensures at < 0 ==> NoMatch(s, f, pos, |s| + 1)
  {
    at := pos;
    while at + |f| <= |s|
      invariant pos <= at && NoMatch(s, f, pos, at)
    {
      if s[at..at + |f|] == f { return; }
      at := at + 1;
    }
    return -1;
  }

  /** Every occurrence of `f`, from the left and without overlap, becomes `r`. */
  function Replaced(s: string, f: string, r: string): string
    requires f != ""
    decreases |s|
  {
    if |s| < |f| then s
    else if s[..|f|] == f then r + Replaced(s[|f|..], f, r)
    else [s[0]] + Replaced(s[1..], f, r)
  }

  lemma ReplacedStep(s: string, f: string, r: string)
    requires f != ""
    ensures MatchAt(s, f, 0) ==> Replaced(s, f, r) == r + Replaced(s[|f|..], f, r)
    ensures !MatchAt(s, f, 0) ==> Replaced(s, f, r) == if |s| < |f| then s else [s[0]] + Replaced(s[1..], f, r)
  {
    if |s| >= |f| {
      assert s[..|f|] == s[0..0 + |f|];
    }
  }

  lemma {:induction false} ReplacedNone(s: string, f: string, r: string)
    requires f != "" && NoMatch(s, f, 0, |s| + 1)
    ensures Replaced(s, f, r) == s
  {
    ReplacedStep(s, f, r);
    assert !MatchAt(s, f, 0);
    hide Replaced, MatchAt;
    if |s| >= |f| {
      NoMatchShift(s, f, 0, 1, |s| + 1);
      ReplacedNone(s[1..], f, r);
    }
  }

  /** The first occurrence, behind `b`, is replaced first. */
  lemma {:induction false} ReplacedFirst(s: string, b: string, tail: string, f: string, r: string)
    requires f != "" && s == b + f + tail && NoMatch(s, f, 0, |b|)
    ensures Replaced(s, f, r) == b + r + Replaced(tail, f, r)
    decreases |b|
  {
    ReplacedStep(s, f, r);
    if b == "" {
      StandsInFront(s, f, tail);
      hide *;
      assert b + r == r;
    } else {
      assert !MatchAt(s, f, 0);
      var t := s[1..];
      assert s[0] == b[0] && t == b[1..] + f + tail;
      NoMatchShift(s, f, 0, 1, |b|);
      hide *;
      ReplacedFirst(t, b[1..], tail, f, r);
      Glued(b, r, Replaced(tail, f, r));
    }
  }

  lemma StandsInFront(s: string, f: string, tail: string)
    requires s == "" + f + tail
    ensures MatchAt(s, f, 0) && s[|f|..] == tail
  {
  }

  lemma Glued(b: string, r: string, rest: string)
    requires b != ""
    ensures [b[0]] + (b[1..] + r + rest) == b + r + rest
  {
  }

  /** In place: `src` is searched again from behind each replacement. */
  method ReplaceAll(src0: string, f: string, r: string) returns (src: string)
    requires f != ""
    ensures src == Replaced(src0, f, r)
  {
    src := src0;
    var pos: nat := 0;
    ghost var done, rest := "", src0;
    assert "" + src0 == src0 && "" + Replaced(src0, f, r) == Replaced(src0, f, r);
    hide Replaced, NoMatch, MatchAt;
    while true
      invariant src == done + rest && pos == |done| && done + Replaced(rest, f, r) == Replaced(src0, f, r)
      decreases |rest|
    {
      var at := Find(src, f, pos);
      if at < 0 {
        RestNone(src, done, rest, f, r);
        break;
      }
      ghost var b, tail := Found(src, done, rest, f, at);
      ReplacedFirst(rest, b, tail, f, r);
      Onward(done, b, r, Replaced(tail, f, r));
      src := src[..at] + r + src[at + |f|..];
      pos := at + |r|;
      done, rest := done + b + r, tail;
    }
  }

  lemma Onward(a: string, b: string, r: string, rest: string)
    ensures a + (b + r + rest) == (a + b + r) + rest
  {
  }

  lemma RestNone(src: string, done: string, rest: string, f: string, r: string)
    requires f != "" && src == done + rest && NoMatch(src, f, |done|, |src| + 1)
    ensures done + Replaced(rest, f, r) == src
  {
    assert src[|done|..] == rest;
    NoMatchShift(src, f, |done|, |done|, |src| + 1);
    hide NoMatch, Replaced;
    ReplacedNone(rest, f, r);
  }

  /** What stands before and behind the occurrence found. */
  lemma Found(src: string, done: string, rest: string, f: string, at: nat) returns (b: string, tail: string)
    requires f != "" && src == done + rest && |done| <= at && MatchAt(src, f, at) && NoMatch(src, f, |done|, at)
    ensures rest == b + f + tail && NoMatch(rest, f, 0, |b|)
    ensures src[..at] == done + b && at + |f| <= |src| && src[at + |f|..] == tail && |tail| < |rest|
  {
    b, tail := src[|done|..at], src[at + |f|..];
    assert src[|done|..] == rest && src[at..at + |f|] == f;
    NoMatchShift(src, f, |done|, |done|, at);
    hide NoMatch, MatchAt;
    Cut(src, at, |f|);
    assert rest == b + src[at..];
  }

  lemma Cut(s: string, at: nat, n: nat)
    requires at + n <= |s|
    ensures s[at..] == s[at..at + n] + s[at + n..]
  {
  }

  /** The text with a backslash before every quote. */
  function Escaped(s: string): string {
    if s == "" then "" else (if s[0] == '"' then "\\\"" else [s[0]]) + Escaped(s[1..])
  }

  lemma {:induction false} ReplacedIsEscaped(s: string)
    ensures Replaced(s, "\"", "\\\"") == Escaped(s)
  {
    if s != "" {
      ReplacedIsEscaped(s[1..]);
      assert s[..1] == [s[0]];
    }
  }
}
