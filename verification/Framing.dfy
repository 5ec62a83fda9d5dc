/** Taking packages off the front of a growing buffer, whatever their format: `f` says what one attempt
    does with the buffer. */
module Framing {
  import opened Basics

  /** Nothing yet; a part thrown away; a package and what follows it; or a header that claims less than
      itself, where the code reads outside its buffer. */
  datatype Taken = Wait | Reject(rest: Bytes) | Package(pkg: Bytes, rest: Bytes) | Broken

  type Taker = Bytes -> Taken

  /** `f` finds `p` whenever it stands complete at the front, and waits while it is not complete. */
  ghost predicate Frames(f: Taker, p: Bytes) {
    && p != []
    && (forall rest: Bytes :: f(p + rest) == Package(p, rest))
    && (forall part: Bytes | part < p :: f(part) == Wait)
  }

  ghost predicate Packages(f: Taker, ps: seq<Bytes>) {
    forall p | p in ps :: Frames(f, p)
  }

  /** The packages taken by repeating this while it gives one, and the buffer then. */
  ghost function Drained(f: Taker, buf: Bytes): (seq<Bytes>, Bytes)
    decreases |buf|
  {
    match f(buf)
    case Reject(rest) => ([], rest)
    case Package(p, rest) => if |rest| < |buf| then var d := Drained(f, rest); ([p] + d.0, d.1) else ([], buf)
    case _ => ([], buf)
  }

  /** Every attempt that draining makes is defined and gets on. */
  ghost predicate Advances(f: Taker, buf: Bytes)
    decreases |buf|
  {
    && !f(buf).Broken?
    && (f(buf).Package? ==> |f(buf).rest| < |buf| && Advances(f, f(buf).rest))
  }

  /** Feeding chunk after chunk, draining after each. */
  ghost function Fed(f: Taker, buf: Bytes, chunks: seq<Bytes>): (seq<Bytes>, Bytes)
    decreases |chunks|
  {
    if chunks == [] then ([], buf)
    else
      var d := Drained(f, buf + chunks[0]);
      var g := Fed(f, d.1, chunks[1..]);
      (d.0 + g.0, g.1)
  }

  /** `rest` is what can be left of the stream `ps`: less than its next package. */
  ghost predicate IsTail(ps: seq<Bytes>, rest: Bytes) {
    if ps == [] then rest == [] else rest < ps[0]
  }

  /** Of `buf`, the first `k` packages have come out, and the unfinished one is left. */
  ghost predicate Emitted(ps: seq<Bytes>, buf: Bytes, k: nat, out: seq<Bytes>, rest: Bytes) {
    k <= |ps| && out == ps[..k] && buf == Flat(ps[..k]) + rest && IsTail(ps[k..], rest)
  }

  /** Any beginning of a stream of packages drains to the packages that are complete, and leaves the
      unfinished one. */
  lemma {:induction false} DrainPrefix(f: Taker, ps: seq<Bytes>, buf: Bytes) returns (k: nat)
    requires Packages(f, ps) && buf <= Flat(ps) && f([]) == Wait
    ensures Emitted(ps, buf, k, Drained(f, buf).0, Drained(f, buf).1) && Advances(f, buf)
    decreases |ps|
  {
    if ps == [] {
      assert Drained(f, []) == ([], []);
      return 0;
    }
    hide *;
    if |buf| < |ps[0]| {
      DrainNothing(f, ps, buf);
      return 0;
    }
    var rest := buf[|ps[0]|..];
    DrainFirst(f, ps, buf, rest);
    var j := DrainPrefix(f, ps[1..], rest);
    k := j + 1;
    OneMore(ps, buf, rest, j, Drained(f, rest).0, Drained(f, rest).1);
  }

  lemma OneMore(ps: seq<Bytes>, buf: Bytes, rest: Bytes, j: nat, out: seq<Bytes>, tail: Bytes)
    requires ps != [] && buf == ps[0] + rest && Emitted(ps[1..], rest, j, out, tail)
    ensures Emitted(ps, buf, j + 1, [ps[0]] + out, tail)
  {
    FirstOf(ps, j);
    hide Flat, IsTail;
  }

  lemma DrainNothing(f: Taker, ps: seq<Bytes>, buf: Bytes)
    requires Packages(f, ps) && ps != [] && buf <= Flat(ps) && |buf| < |ps[0]|
    ensures Emitted(ps, buf, 0, Drained(f, buf).0, Drained(f, buf).1) && Advances(f, buf)
  {
    assert Frames(f, ps[0]);
    assert buf == ps[0][..|buf|];
    assert ps[..0] == [] && ps[0..] == ps;
  }

  lemma DrainFirst(f: Taker, ps: seq<Bytes>, buf: Bytes, rest: Bytes)
    requires Packages(f, ps) && ps != [] && buf <= Flat(ps) && |buf| >= |ps[0]| && rest == buf[|ps[0]|..]
    ensures Packages(f, ps[1..]) && buf == ps[0] + rest && rest <= Flat(ps[1..])
    ensures Drained(f, buf) == ([ps[0]] + Drained(f, rest).0, Drained(f, rest).1)
    ensures Advances(f, rest) ==> Advances(f, buf)
  {
    assert Frames(f, ps[0]);
    assert buf == ps[0] + rest;
    hide Frames;
  }

  lemma FirstOf(ps: seq<Bytes>, j: nat)
    requires j < |ps|
    ensures ps[..j + 1] == [ps[0]] + ps[1..][..j] && ps[j + 1..] == ps[1..][j..]
    ensures Flat(ps[..j + 1]) == ps[0] + Flat(ps[1..][..j])
  {
    assert ps[..j + 1][1..] == ps[1..][..j];
  }

  /** However a beginning of the stream is cut into chunks, exactly the complete packages come out, in
      order, and the buffer holds exactly the unfinished one. */
  lemma {:induction false} AnyCut(f: Taker, ps: seq<Bytes>, buf: Bytes, chunks: seq<Bytes>) returns (k: nat)
    requires Packages(f, ps) && f([]) == Wait && IsTail(ps, buf) && buf + Flat(chunks) <= Flat(ps)
    ensures Emitted(ps, buf + Flat(chunks), k, Fed(f, buf, chunks).0, Fed(f, buf, chunks).1)
    decreases |chunks|
  {
    hide Frames, Packages, IsTail, Drained, Emitted;
    if chunks == [] {
      NothingFed(ps, buf);
      return 0;
    }
    var c, more := chunks[0], chunks[1..];
    Regrouped(buf, c, Flat(more));
    PrefixOfPrefix(buf + c, Flat(more), Flat(ps));
    var j := DrainPrefix(f, ps, buf + c);
    var d := Drained(f, buf + c);
    Remaining(f, ps, buf + c, Flat(more), j, d.0, d.1);
    var i := AnyCut(f, ps[j..], d.1, more);
    k := j + i;
    var g := Fed(f, d.1, more);
    Joined(ps, buf + c, Flat(more), j, d.0, d.1, i, g.0, g.1);
  }

  lemma NothingFed(ps: seq<Bytes>, buf: Bytes)
    requires IsTail(ps, buf)
    ensures Emitted(ps, buf + Flat<uint8>([]), 0, [], buf)
  {
    assert ps[..0] == [] && ps[0..] == ps;
  }

  lemma Remaining(f: Taker, ps: seq<Bytes>, b: Bytes, more: Bytes, j: nat, out: seq<Bytes>, rest: Bytes)
    requires Packages(f, ps) && b + more <= Flat(ps) && Emitted(ps, b, j, out, rest)
    ensures j <= |ps| && Packages(f, ps[j..]) && IsTail(ps[j..], rest) && rest + more <= Flat(ps[j..])
  {
    hide Flat, Frames, IsTail;
    FlatParts(ps, j);
    Regrouped(Flat(ps[..j]), rest, more);
    PrefixAfter(Flat(ps[..j]), rest + more, Flat(ps[j..]));
  }

  lemma Regrouped(a: Bytes, b: Bytes, c: Bytes)
    ensures (a + b) + c == a + (b + c)
  {
  }

  lemma PrefixOfPrefix(a: Bytes, b: Bytes, c: Bytes)
    requires a + b <= c
    ensures a <= c
  {
    assert a == (a + b)[..|a|] == c[..|a + b|][..|a|] == c[..|a|];
  }

  lemma Joined(ps: seq<Bytes>, b: Bytes, more: Bytes, j: nat, out: seq<Bytes>, rest: Bytes, i: nat, out': seq<Bytes>,
               rest': Bytes)
    requires Emitted(ps, b, j, out, rest) && Emitted(ps[j..], rest + more, i, out', rest')
    ensures Emitted(ps, b + more, j + i, out + out', rest')
  {
    Splits(ps, j, i);
    hide Flat, IsTail;
    Regrouped(Flat(ps[..j]), rest, more);
    Regrouped(Flat(ps[..j]), Flat(ps[j..][..i]), rest');
  }

  lemma PrefixAfter(a: Bytes, b: Bytes, c: Bytes)
    ensures a + b <= a + c ==> b <= c
  {
    if a + b <= a + c {
      assert b == (a + b)[|a|..] == (a + c)[..|a + b|][|a|..] == c[..|b|];
    }
  }

  lemma FlatParts(ps: seq<Bytes>, j: nat)
    requires j <= |ps|
    ensures Flat(ps) == Flat(ps[..j]) + Flat(ps[j..])
  {
    hide Flat;
    FlatSum(ps[..j], ps[j..]);
    assert ps[..j] + ps[j..] == ps;
  }

  lemma Splits(ps: seq<Bytes>, j: nat, i: nat)
    requires j + i <= |ps|
    ensures ps[..j] + ps[j..][..i] == ps[..j + i] && ps[j..][i..] == ps[j + i..]
    ensures Flat(ps[..j]) + Flat(ps[j..][..i]) == Flat(ps[..j + i])
  {
    hide Flat;
    FlatSum(ps[..j], ps[j..][..i]);
    assert ps[..j] + ps[j..][..i] == ps[..j + i];
  }

  /** The whole stream, in any chunks, gives back the whole list and leaves nothing. */
  lemma WholeStream(f: Taker, ps: seq<Bytes>, chunks: seq<Bytes>)
    requires Packages(f, ps) && f([]) == Wait && Flat(chunks) == Flat(ps)
    ensures Fed(f, [], chunks) == (ps, [])
  {
    NothingYet(f, ps);
    hide Frames, Packages, Fed, IsTail;
    assert [] + Flat(chunks) == Flat(chunks);
    var k := AnyCut(f, ps, [], chunks);
    FlatParts(ps, k);
    var rest := Fed(f, [], chunks).1;
    SameAfter(Flat(ps[..k]), rest, Flat(ps[k..]));
    NoMore(ps[k..], rest);
    hide Flat;
    assert ps[..|ps|] == ps;
  }

  lemma NothingYet(f: Taker, ps: seq<Bytes>)
    requires Packages(f, ps)
    ensures IsTail(ps, [])
  {
    if ps != [] {
      assert Frames(f, ps[0]);
    }
  }

  lemma SameAfter(a: Bytes, b: Bytes, c: Bytes)
    requires a + b == a + c
    ensures b == c
  {
    assert b == (a + b)[|a|..] == c;
  }

  lemma NoMore(ps: seq<Bytes>, rest: Bytes)
    requires IsTail(ps, rest) && rest == Flat(ps)
    ensures ps == [] && rest == []
  {
  }

  /** With `out` taken and `buf` left, draining ends at `goal`. */
  ghost predicate Ahead(f: Taker, out: seq<Bytes>, buf: Bytes, goal: (seq<Bytes>, Bytes)) {
    goal == (out + Drained(f, buf).0, Drained(f, buf).1)
  }

  /** One turn of a draining loop. */
  lemma GoOn(f: Taker, out: seq<Bytes>, buf: Bytes, goal: (seq<Bytes>, Bytes))
    requires Advances(f, buf) && Ahead(f, out, buf, goal)
    ensures match f(buf)
            case Wait => goal == (out, buf)
            case Reject(rest) => goal == (out, rest)
            case Package(p, rest) => |rest| < |buf| && Advances(f, rest) && Ahead(f, out + [p], rest, goal)
            case Broken => false
  {
    match f(buf)
    case Package(p, rest) =>
      assert out + ([p] + Drained(f, rest).0) == (out + [p]) + Drained(f, rest).0;
    case Wait =>
      assert out + [] == out;
    case Reject(_) =>
      assert out + [] == out;
    case Broken =>
  }
}
