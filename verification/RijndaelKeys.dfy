/** The key expansion of section 5.2 of FIPS 197, for keys of 4, 6 or 8 words. */
module RijndaelKeys {
  import opened RijndaelField

  function SubWord(box: uint8 -> uint8, w: Word): Word {
    Word(box(w.b0), box(w.b1), box(w.b2), box(w.b3))
  }

  function RotWord(w: Word): Word {
    Word(w.b1, w.b2, w.b3, w.b0)
  }

  /** Powers of x: the table `sm_rcon`. */
  function Rcon(n: nat): uint8 {
    if n == 0 then 1 else X2(Rcon(n - 1))
  }

  predicate KeyWords(kc: nat) { kc == 4 || kc == 6 || kc == 8 }

  /** Word `t` of the expanded key. */
  ghost function Expanded(box: uint8 -> uint8, key: seq<Word>, t: nat): Word
    requires KeyWords(|key|)
    decreases t
  {
    if t < |key| then key[t]
    else
      var prev := Expanded(box, key, t - 1);
      Xor(Expanded(box, key, t - |key|),
          if t % |key| == 0 then Xor(SubWord(box, RotWord(prev)), Word(Rcon(t / |key| - 1), 0, 0, 0))
          else if |key| > 6 && t % |key| == 4 then SubWord(box, prev)
          else prev)
  }

  /** Position `j` of group `r`, as one index. */
  function At(r: nat, j: nat, n: nat): nat {
    r * n + j
  }

  lemma AtInverse(r: nat, j: nat, n: nat)
    requires (n == 4 || n == 6 || n == 8) && j < n
    ensures At(r, j, n) / n == r && At(r, j, n) % n == j
  {
    if n == 4 {
    } else if n == 6 {
    } else {
    }
  }

  lemma AtOf(t: nat, n: nat)
    requires n == 4 || n == 6 || n == 8
    ensures t % n < n && At(t / n, t % n, n) == t
  {
    if n == 4 {
    } else if n == 6 {
    } else {
    }
  }

  lemma AtSteps(r: nat, j: nat, n: nat)
    ensures At(r, j + 1, n) == At(r, j, n) + 1
    ensures At(r + 1, j, n) == At(r, j, n) + n
    ensures At(r, n, n) == At(r + 1, 0, n)
    ensures At(0, j, n) == j
  {
  }

  lemma ExpandedStep(box: uint8 -> uint8, key: seq<Word>, t: nat, q: nat, m: nat)
    requires KeyWords(|key|) && t >= |key| && t / |key| == q > 0 && t % |key| == m
    ensures var n := |key|; var prev := Expanded(box, key, t - 1);
            Expanded(box, key, t) == Xor(Expanded(box, key, t - n),
              if m == 0 then Xor(SubWord(box, RotWord(prev)), Word(Rcon(q - 1), 0, 0, 0))
              else if n == 8 && m == 4 then SubWord(box, prev)
              else prev)
  {
    hide Xor, SubWord, RotWord, Rcon;
  }

  /** What group `r + 1` owes to group `r`: the round key evolution of the code. */
  lemma EvolvedWord(box: uint8 -> uint8, key: seq<Word>, r: nat, j: nat)
    requires KeyWords(|key|) && j < |key|
    ensures var n := |key|;
            Expanded(box, key, At(r + 1, j, n)) == Xor(Expanded(box, key, At(r, j, n)),
              if j == 0 then Xor(SubWord(box, RotWord(Expanded(box, key, At(r, n - 1, n)))), Word(Rcon(r), 0, 0, 0))
              else if n == 8 && j == 4 then SubWord(box, Expanded(box, key, At(r + 1, j - 1, n)))
              else Expanded(box, key, At(r + 1, j - 1, n)))
  {
    hide At, Xor, SubWord, RotWord, Rcon, Expanded;
    var n := |key|;
    var t := At(r + 1, j, n);
    AtInverse(r + 1, j, n);
    AtSteps(r, j, n);
    ExpandedStep(box, key, t, r + 1, j);
    if j == 0 {
      AtSteps(r, n - 1, n);
    } else {
      AtSteps(r + 1, j - 1, n);
    }
  }
}
