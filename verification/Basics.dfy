/** Bytes and machine words as bounded integers, and a few shared helpers. */
module Basics {
  newtype uint8 = x: int | 0 <= x < 0x100
  newtype uint16 = x: int | 0 <= x < 0x1_0000
  newtype uint32 = x: int | 0 <= x < 0x1_0000_0000

  type Bytes = seq<uint8>

  const TWO32: nat := 0x1_0000_0000

  datatype Option<+T> = None | Some(value: T)

  /** The items one after the other. */
  ghost function Flat<T>(items: seq<seq<T>>): seq<T> {
    if items == [] then [] else items[0] + Flat(items[1..])
  }

  lemma {:induction false} FlatSum<T>(a: seq<seq<T>>, b: seq<seq<T>>)
    ensures Flat(a + b) == Flat(a) + Flat(b)
  {
    if a == [] {
      assert a + b == b;
    } else {
      assert (a + b)[1..] == a[1..] + b && (a + b)[0] == a[0];
      FlatSum(a[1..], b);
    }
  }

  lemma FlatOne<T>(a: seq<T>)
    ensures Flat([a]) == a
  {
    assert [a][1..] == [];
  }

  /** memcpy of `src` to `dst[at..]`. */
  method Copy(dst: array<uint8>, at: nat, src: Bytes)
    requires at + |src| <= dst.Length
    modifies dst
    ensures dst[..] == old(dst[..at]) + src + old(dst[at + |src|..])
  {
    for k := 0 to |src|
      invariant dst[..] == old(dst[..at]) + src[..k] + old(dst[at + k..])
    {
      dst[at + k] := src[k];
    }
  }

  // ---------------------------------------------------------------- big-endian words

  function Be16(w: uint16): (r: Bytes)
    ensures |r| == 2
  {
    [(w / 0x100) as uint8, (w % 0x100) as uint8]
  }

  function FromBe16(b: Bytes): uint16
    requires |b| == 2
  {
    b[0] as uint16 * 0x100 + b[1] as uint16
  }

  function Be32(w: uint32): (r: Bytes)
    ensures |r| == 4
  {
    var w1 := w / 0x100;
    var w2 := w1 / 0x100;
    [(w2 / 0x100) as uint8, (w2 % 0x100) as uint8, (w1 % 0x100) as uint8, (w % 0x100) as uint8]
  }

  function FromBe32(b: Bytes): uint32
    requires |b| == 4
  {
    b[0] as uint32 * 0x100_0000 + b[1] as uint32 * 0x1_0000 + b[2] as uint32 * 0x100 + b[3] as uint32
  }

  /** The high byte stands first. */
  lemma Be16Is(w: uint16)
    ensures w as int == 0x100 * Be16(w)[0] as int + Be16(w)[1] as int
  {
  }

  lemma Be32Is(w: uint32)
    ensures w as int == 0x100_0000 * Be32(w)[0] as int + 0x1_0000 * Be32(w)[1] as int + 0x100 * Be32(w)[2] as int +
                        Be32(w)[3] as int
  {
  }

  lemma Be16Back(w: uint16)
    ensures FromBe16(Be16(w)) == w
  {
  }

  lemma Be32Back(w: uint32)
    ensures FromBe32(Be32(w)) == w
  {
  }
}
