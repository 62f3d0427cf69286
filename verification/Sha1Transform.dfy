/** SHA-1 as include/sha1.hpp computes it. */
module Sha1Transform {
  import opened Sha1Standard

  const BLOCK_INTS := 16
  const BLOCK_BYTES := 64

  /** The index modulo 16: the source masks it with 15. */
  function Slot(i: nat): (j: nat)
    ensures j < 16
  {
    i % 16
  }

  function Mix(a: word, b: word, c: word, d: word): word {
    Rotl(a ^ b ^ c ^ d, 1)
  }

  /** The next word of the schedule, from the sixteen that are kept. */
  function Blk(block: seq<word>, i: nat): word
    requires |block| == 16 && i < 16
  {
    Mix(block[Slot(i + 13)], block[Slot(i + 8)], block[Slot(i + 2)], block[i])
  }

  /** Before round `t` the array holds the sixteen latest words of the schedule, each at its index modulo 16. */
  predicate Window(block: seq<word>, m: Block, t: nat) {
    |block| == 16 && forall j: nat :: j < 16 ==> block[j] == W(m, Kept(t, j))
  }

  /** The schedule index of the word that is kept at `j` before round `t`. */
  function Kept(t: nat, j: nat): nat
    requires j < 16
  {
    if t < 16 then j
    else if j < t % 16 then t / 16 * 16 + j
    else t / 16 * 16 - 16 + j
  }

  lemma KeptWords(t: nat, i: nat)
    requires 16 <= t && i == t % 16
    ensures i < 16
    ensures Kept(t, Slot(i + 13)) == t - 3
    ensures Kept(t, Slot(i + 8)) == t - 8
    ensures Kept(t, Slot(i + 2)) == t - 14
    ensures Kept(t, i) == t - 16
  {
  }

  lemma KeptMoves(t: nat, j: nat)
    requires 16 <= t && j < 16
    ensures Kept(t + 1, j) == if j == t % 16 then t else Kept(t, j)
  {
    if t % 16 == 15 {
      assert (t + 1) / 16 == t / 16 + 1;
    } else {
      assert (t + 1) / 16 == t / 16;
    }
  }

  lemma NextWord(m: Block, t: nat)
    requires 16 <= t
    ensures W(m, t) == Mix(W(m, t - 3), W(m, t - 8), W(m, t - 14), W(m, t - 16))
  {
    hide Rotl;
  }

  lemma BlkIsNextWord(block: seq<word>, m: Block, t: nat, i: nat)
    requires 16 <= t && |block| == 16 && Window(block, m, t) && i == t % 16
    ensures i < 16 && Blk(block, i) == W(m, t)
  {
    hide Window, Kept, W, Mix, Slot;
    KeptWords(t, i);
    NextWord(m, t);
    WindowAt(block, m, t, Slot(i + 13));
    WindowAt(block, m, t, Slot(i + 8));
    WindowAt(block, m, t, Slot(i + 2));
    WindowAt(block, m, t, i);
  }

  lemma WindowAt(block: seq<word>, m: Block, t: nat, j: nat)
    requires |block| == 16 && Window(block, m, t) && j < 16
    ensures block[j] == W(m, Kept(t, j))
  {
    hide W, Kept;
  }

  lemma WindowMoves(block: seq<word>, m: Block, t: nat)
    requires 16 <= t && Window(block, m, t)
    ensures Window(block[t % 16 := W(m, t)], m, t + 1)
  {
    hide W, Kept;
    var next := block[t % 16 := W(m, t)];
    forall j: nat | j < 16
      ensures next[j] == W(m, Kept(t + 1, j))
    {
      KeptMoves(t, j);
    }
  }

  // ----- The forms of Ch, Maj and of the sum that the rounds use

  function Choose(w: word, x: word, y: word): word {
    (w & (x ^ y)) ^ y
  }

  function Majority(w: word, x: word, y: word): word {
    ((w | x) & y) | (w & x)
  }

  function AddTo(z: word, f: word, b: word, k: word, r: word): word {
    z + (f + b + k + r)
  }

  lemma ChooseIsCh(x: word, y: word, z: word)
    ensures Choose(x, y, z) == Ch(x, y, z)
  {
    assert (x & (y ^ z)) ^ z == (x & y) ^ ((!x) & z);
  }

  lemma MajorityIsMaj(x: word, y: word, z: word)
    ensures Majority(x, y, z) == Maj(x, y, z)
  {
    assert ((x | y) & z) | (x & y) == (x & y) ^ (x & z) ^ (y & z);
  }

  lemma AddToIsSum(z: word, f: word, b: word, k: word, r: word)
    ensures AddTo(z, f, b, k, r) == Sum5(r, f, z, k, b)
  {
  }

  // ----- Rounds: each updates its third and last register, and the array

  /** The registers, in the order a round is given them, are the working variables after `t` rounds. */
  ghost predicate At(v: word, w: word, x: word, y: word, z: word, s: State, m: Block, t: nat) {
    State(v, w, x, y, z) == Rounds(s, m, t)
  }

  lemma RoundDone(v: word, w: word, x: word, y: word, z: word, s: State, m: Block, t: nat, f: word)
    requires At(v, w, x, y, z, s, m, t)
    requires f == F(t, w, x, y)
    ensures At(AddTo(z, f, W(m, t), K(t), Rotl(v, 5)), v, Rotl(w, 30), x, y, s, m, t + 1)
  {
    AddToIsSum(z, f, W(m, t), K(t), Rotl(v, 5));
    hide W, Rotl, F, K, AddTo, Sum5;
  }

  method R0(block: array<word>, v: word, w: word, x: word, y: word, z: word, i: nat,
            ghost s: State, ghost m: Block, ghost t: nat)
    returns (w': word, z': word)
    requires block.Length == 16 && i == t < 16 && Window(block[..], m, t)
    requires At(v, w, x, y, z, s, m, t)
    ensures At(z', v, w', x, y, s, m, t + 1) && Window(block[..], m, t + 1)
  {
    hide Rotl, At, Choose, AddTo, Ch, W;
    z' := AddTo(z, Choose(w, x, y), block[i], 0x5a827999, Rotl(v, 5));
    w' := Rotl(w, 30);
    ChooseIsCh(w, x, y);
    assert block[..][i] == W(m, Kept(t, i)) == W(m, t);
    RoundDone(v, w, x, y, z, s, m, t, Ch(w, x, y));
  }

  /** The schedule moves on in place: the oldest word gives way to the next one. */
  method UpdateWord(block: array<word>, i: nat, ghost m: Block, ghost t: nat)
    requires block.Length == 16 && 16 <= t && i == t % 16 && Window(block[..], m, t)
    modifies block
    ensures Window(block[..], m, t + 1) && block[i] == W(m, t)
  {
    hide Window, W, Rotl;
    BlkIsNextWord(block[..], m, t, i);
    WindowMoves(block[..], m, t);
    block[i] := Blk(block[..], i);
  }

  method R1(block: array<word>, v: word, w: word, x: word, y: word, z: word, i: nat,
            ghost s: State, ghost m: Block, ghost t: nat)
    returns (w': word, z': word)
    requires block.Length == 16 && 16 <= t < 20 && i == t % 16 && Window(block[..], m, t)
    requires At(v, w, x, y, z, s, m, t)
    modifies block
    ensures At(z', v, w', x, y, s, m, t + 1) && Window(block[..], m, t + 1)
  {
    hide Rotl, Window, W, At, AddTo, Choose, Ch;
    UpdateWord(block, i, m, t);
    z' := AddTo(z, Choose(w, x, y), block[i], 0x5a827999, Rotl(v, 5));
    w' := Rotl(w, 30);
    ChooseIsCh(w, x, y);
    RoundDone(v, w, x, y, z, s, m, t, Ch(w, x, y));
  }

  method R2(block: array<word>, v: word, w: word, x: word, y: word, z: word, i: nat,
            ghost s: State, ghost m: Block, ghost t: nat)
    returns (w': word, z': word)
    requires block.Length == 16 && 20 <= t < 40 && i == t % 16 && Window(block[..], m, t)
    requires At(v, w, x, y, z, s, m, t)
    modifies block
    ensures At(z', v, w', x, y, s, m, t + 1) && Window(block[..], m, t + 1)
  {
    hide Rotl, Window, W, At, AddTo, Kept;
    UpdateWord(block, i, m, t);
    z' := AddTo(z, w ^ x ^ y, block[i], 0x6ed9eba1, Rotl(v, 5));
    w' := Rotl(w, 30);
    RoundDone(v, w, x, y, z, s, m, t, w ^ x ^ y);
  }

  method R3(block: array<word>, v: word, w: word, x: word, y: word, z: word, i: nat,
            ghost s: State, ghost m: Block, ghost t: nat)
    returns (w': word, z': word)
    requires block.Length == 16 && 40 <= t < 60 && i == t % 16 && Window(block[..], m, t)
    requires At(v, w, x, y, z, s, m, t)
    modifies block
    ensures At(z', v, w', x, y, s, m, t + 1) && Window(block[..], m, t + 1)
  {
    hide Rotl, Window, W, At, AddTo, Majority, Maj;
    UpdateWord(block, i, m, t);
    z' := AddTo(z, Majority(w, x, y), block[i], 0x8f1bbcdc, Rotl(v, 5));
    w' := Rotl(w, 30);
    MajorityIsMaj(w, x, y);
    RoundDone(v, w, x, y, z, s, m, t, Maj(w, x, y));
  }

  method R4(block: array<word>, v: word, w: word, x: word, y: word, z: word, i: nat,
            ghost s: State, ghost m: Block, ghost t: nat)
    returns (w': word, z': word)
    requires block.Length == 16 && 60 <= t < 80 && i == t % 16 && Window(block[..], m, t)
    requires At(v, w, x, y, z, s, m, t)
    modifies block
    ensures At(z', v, w', x, y, s, m, t + 1) && Window(block[..], m, t + 1)
  {
    hide Rotl, Window, W, At, AddTo, Kept;
    UpdateWord(block, i, m, t);
    z' := AddTo(z, w ^ x ^ y, block[i], 0xca62c1d6, Rotl(v, 5));
    w' := Rotl(w, 30);
    RoundDone(v, w, x, y, z, s, m, t, w ^ x ^ y);
  }

  // ----- Eighty rounds, with the registers rotated from call to call

  method Rounds0To19(block: array<word>, v: word, w: word, x: word, y: word, z: word,
    ghost s: State, ghost m: Block, ghost t: nat)
    returns (a: word, b: word, c: word, d: word, e: word)
    requires block.Length == 16 && t == 0 && Window(block[..], m, t)
    requires At(v, w, x, y, z, s, m, t)
    modifies block
    ensures At(a, b, c, d, e, s, m, 20) && Window(block[..], m, 20)
  {
    hide Window, At;
    a, b, c, d, e := v, w, x, y, z;
    b, e := R0(block, a, b, c, d, e, 0, s, m, t);
    a, d := R0(block, e, a, b, c, d, 1, s, m, t + 1);
    e, c := R0(block, d, e, a, b, c, 2, s, m, t + 2);
    d, b := R0(block, c, d, e, a, b, 3, s, m, t + 3);
    c, a := R0(block, b, c, d, e, a, 4, s, m, t + 4);
    b, e := R0(block, a, b, c, d, e, 5, s, m, t + 5);
    a, d := R0(block, e, a, b, c, d, 6, s, m, t + 6);
    e, c := R0(block, d, e, a, b, c, 7, s, m, t + 7);
    d, b := R0(block, c, d, e, a, b, 8, s, m, t + 8);
    c, a := R0(block, b, c, d, e, a, 9, s, m, t + 9);
    b, e := R0(block, a, b, c, d, e, 10, s, m, t + 10);
    a, d := R0(block, e, a, b, c, d, 11, s, m, t + 11);
    e, c := R0(block, d, e, a, b, c, 12, s, m, t + 12);
    d, b := R0(block, c, d, e, a, b, 13, s, m, t + 13);
    c, a := R0(block, b, c, d, e, a, 14, s, m, t + 14);
    b, e := R0(block, a, b, c, d, e, 15, s, m, t + 15);
    a, d := R1(block, e, a, b, c, d, 0, s, m, t + 16);
    e, c := R1(block, d, e, a, b, c, 1, s, m, t + 17);
    d, b := R1(block, c, d, e, a, b, 2, s, m, t + 18);
    c, a := R1(block, b, c, d, e, a, 3, s, m, t + 19);
  }

  method Rounds20To39(block: array<word>, v: word, w: word, x: word, y: word, z: word,
    ghost s: State, ghost m: Block, ghost t: nat)
    returns (a: word, b: word, c: word, d: word, e: word)
    requires block.Length == 16 && t == 20 && Window(block[..], m, t)
    requires At(v, w, x, y, z, s, m, t)
    modifies block
    ensures At(a, b, c, d, e, s, m, 40) && Window(block[..], m, 40)
  {
    hide Window, At;
    a, b, c, d, e := v, w, x, y, z;
    b, e := R2(block, a, b, c, d, e, 4, s, m, t);
    a, d := R2(block, e, a, b, c, d, 5, s, m, t + 1);
    e, c := R2(block, d, e, a, b, c, 6, s, m, t + 2);
    d, b := R2(block, c, d, e, a, b, 7, s, m, t + 3);
    c, a := R2(block, b, c, d, e, a, 8, s, m, t + 4);
    b, e := R2(block, a, b, c, d, e, 9, s, m, t + 5);
    a, d := R2(block, e, a, b, c, d, 10, s, m, t + 6);
    e, c := R2(block, d, e, a, b, c, 11, s, m, t + 7);
    d, b := R2(block, c, d, e, a, b, 12, s, m, t + 8);
    c, a := R2(block, b, c, d, e, a, 13, s, m, t + 9);
    b, e := R2(block, a, b, c, d, e, 14, s, m, t + 10);
    a, d := R2(block, e, a, b, c, d, 15, s, m, t + 11);
    e, c := R2(block, d, e, a, b, c, 0, s, m, t + 12);
    d, b := R2(block, c, d, e, a, b, 1, s, m, t + 13);
    c, a := R2(block, b, c, d, e, a, 2, s, m, t + 14);
    b, e := R2(block, a, b, c, d, e, 3, s, m, t + 15);
    a, d := R2(block, e, a, b, c, d, 4, s, m, t + 16);
    e, c := R2(block, d, e, a, b, c, 5, s, m, t + 17);
    d, b := R2(block, c, d, e, a, b, 6, s, m, t + 18);
    c, a := R2(block, b, c, d, e, a, 7, s, m, t + 19);
  }

  method Rounds40To59(block: array<word>, v: word, w: word, x: word, y: word, z: word,
    ghost s: State, ghost m: Block, ghost t: nat)
    returns (a: word, b: word, c: word, d: word, e: word)
    requires block.Length == 16 && t == 40 && Window(block[..], m, t)
    requires At(v, w, x, y, z, s, m, t)
    modifies block
    ensures At(a, b, c, d, e, s, m, 60) && Window(block[..], m, 60)
  {
    hide Window, At;
    a, b, c, d, e := v, w, x, y, z;
    b, e := R3(block, a, b, c, d, e, 8, s, m, t);
    a, d := R3(block, e, a, b, c, d, 9, s, m, t + 1);
    e, c := R3(block, d, e, a, b, c, 10, s, m, t + 2);
    d, b := R3(block, c, d, e, a, b, 11, s, m, t + 3);
    c, a := R3(block, b, c, d, e, a, 12, s, m, t + 4);
    b, e := R3(block, a, b, c, d, e, 13, s, m, t + 5);
    a, d := R3(block, e, a, b, c, d, 14, s, m, t + 6);
    e, c := R3(block, d, e, a, b, c, 15, s, m, t + 7);
    d, b := R3(block, c, d, e, a, b, 0, s, m, t + 8);
    c, a := R3(block, b, c, d, e, a, 1, s, m, t + 9);
    b, e := R3(block, a, b, c, d, e, 2, s, m, t + 10);
    a, d := R3(block, e, a, b, c, d, 3, s, m, t + 11);
    e, c := R3(block, d, e, a, b, c, 4, s, m, t + 12);
    d, b := R3(block, c, d, e, a, b, 5, s, m, t + 13);
    c, a := R3(block, b, c, d, e, a, 6, s, m, t + 14);
    b, e := R3(block, a, b, c, d, e, 7, s, m, t + 15);
    a, d := R3(block, e, a, b, c, d, 8, s, m, t + 16);
    e, c := R3(block, d, e, a, b, c, 9, s, m, t + 17);
    d, b := R3(block, c, d, e, a, b, 10, s, m, t + 18);
    c, a := R3(block, b, c, d, e, a, 11, s, m, t + 19);
  }

  method Rounds60To79(block: array<word>, v: word, w: word, x: word, y: word, z: word,
    ghost s: State, ghost m: Block, ghost t: nat)
    returns (a: word, b: word, c: word, d: word, e: word)
    requires block.Length == 16 && t == 60 && Window(block[..], m, t)
    requires At(v, w, x, y, z, s, m, t)
    modifies block
    ensures At(a, b, c, d, e, s, m, 80) && Window(block[..], m, 80)
  {
    hide Window, At;
    a, b, c, d, e := v, w, x, y, z;
    b, e := R4(block, a, b, c, d, e, 12, s, m, t);
    a, d := R4(block, e, a, b, c, d, 13, s, m, t + 1);
    e, c := R4(block, d, e, a, b, c, 14, s, m, t + 2);
    d, b := R4(block, c, d, e, a, b, 15, s, m, t + 3);
    c, a := R4(block, b, c, d, e, a, 0, s, m, t + 4);
    b, e := R4(block, a, b, c, d, e, 1, s, m, t + 5);
    a, d := R4(block, e, a, b, c, d, 2, s, m, t + 6);
    e, c := R4(block, d, e, a, b, c, 3, s, m, t + 7);
    d, b := R4(block, c, d, e, a, b, 4, s, m, t + 8);
    c, a := R4(block, b, c, d, e, a, 5, s, m, t + 9);
    b, e := R4(block, a, b, c, d, e, 6, s, m, t + 10);
    a, d := R4(block, e, a, b, c, d, 7, s, m, t + 11);
    e, c := R4(block, d, e, a, b, c, 8, s, m, t + 12);
    d, b := R4(block, c, d, e, a, b, 9, s, m, t + 13);
    c, a := R4(block, b, c, d, e, a, 10, s, m, t + 14);
    b, e := R4(block, a, b, c, d, e, 11, s, m, t + 15);
    a, d := R4(block, e, a, b, c, d, 12, s, m, t + 16);
    e, c := R4(block, d, e, a, b, c, 13, s, m, t + 17);
    d, b := R4(block, c, d, e, a, b, 14, s, m, t + 18);
    c, a := R4(block, b, c, d, e, a, 15, s, m, t + 19);
  }

  method AddToDigest(digest: array<word>, a: word, b: word, c: word, d: word, e: word)
    requires digest.Length == 5
    modifies digest
    ensures StateOf(digest[..]) == Sum(StateOf(old(digest[..])), State(a, b, c, d, e))
  {
    hide Plus;
    digest[0] := Plus(digest[0], a);
    digest[1] := Plus(digest[1], b);
    digest[2] := Plus(digest[2], c);
    digest[3] := Plus(digest[3], d);
    digest[4] := Plus(digest[4], e);
  }

  /** Adds the compression of `block` to `digest`. The array is overwritten on the way. */
  method Transform(digest: array<word>, block: array<word>)
    requires digest.Length == 5 && block.Length == 16 && digest != block
    modifies digest, block
    ensures StateOf(digest[..]) == Compress(StateOf(old(digest[..])), old(block[..]))
  {
    hide Window, At, W, Rounds, Rotl, Sum;
    var a, b, c, d, e := digest[0], digest[1], digest[2], digest[3], digest[4];
    ghost var s, m: Block := StateOf(digest[..]), block[..];
    StartRounds(s, m);
    a, b, c, d, e := Rounds0To19(block, a, b, c, d, e, s, m, 0);
    a, b, c, d, e := Rounds20To39(block, a, b, c, d, e, s, m, 20);
    a, b, c, d, e := Rounds40To59(block, a, b, c, d, e, s, m, 40);
    a, b, c, d, e := Rounds60To79(block, a, b, c, d, e, s, m, 60);
    EndRounds(a, b, c, d, e, s, m);
    AddToDigest(digest, a, b, c, d, e);
  }

  function StateOf(words: seq<word>): State
    requires |words| == 5
  {
    State(words[0], words[1], words[2], words[3], words[4])
  }

  lemma StartRounds(s: State, m: Block)
    ensures At(s.a, s.b, s.c, s.d, s.e, s, m, 0) && Window(m, m, 0)
  {
  }

  lemma EndRounds(a: word, b: word, c: word, d: word, e: word, s: State, m: Block)
    requires At(a, b, c, d, e, s, m, 80)
    ensures State(a, b, c, d, e) == Rounds(s, m, 80)
  {
    hide Rounds;
  }
}
