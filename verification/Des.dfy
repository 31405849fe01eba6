/** Feistel networks over halves of 32 bits, for any round function and any type
    of round keys. */
module Feistel {

  type Bit = b: int | 0 <= b < 2
  type Half = s: seq<Bit> | |s| == 32 witness seq(32, _ => 0)
  type RoundFunction<!K> = (Half, K) -> Half

  function Xor(a: Bit, b: Bit): Bit { if a == b then 0 else 1 }

  function XorHalf(a: Half, b: Half): (c: Half)
    ensures forall i | 0 <= i < 32 :: c[i] == Xor(a[i], b[i])
  {
    seq(32, i requires 0 <= i < 32 => Xor(a[i], b[i]))
  }

  datatype Pair = Pair(l: Half, r: Half) {
    function Swapped(): Pair { Pair(r, l) }
  }

  /** One round, with the halves changing places. */
  function Round<K>(f: RoundFunction<K>, s: Pair, k: K): Pair {
    Pair(s.r, XorHalf(s.l, f(s.r, k)))
  }

  function Rounds<K>(f: RoundFunction<K>, s: Pair, ks: seq<K>): Pair
    decreases |ks|
  {
    if ks == [] then s else Rounds(f, Round(f, s, ks[0]), ks[1..])
  }

  function Reverse<T>(s: seq<T>): (t: seq<T>)
    ensures |t| == |s| && forall i | 0 <= i < |s| :: t[i] == s[|s| - 1 - i]
  {
    if s == [] then [] else Reverse(s[1..]) + [s[0]]
  }

  lemma ReverseReverse<T>(s: seq<T>)
    ensures Reverse(Reverse(s)) == s
  {
  }

  lemma XorTwice(a: Half, b: Half)
    ensures XorHalf(XorHalf(a, b), b) == a
  {
  }

  lemma RoundInverse<K>(f: RoundFunction<K>, s: Pair, k: K)
    ensures Round(f, Round(f, s, k).Swapped(), k) == s.Swapped()
  {
    XorTwice(s.l, f(s.r, k));
  }

  lemma {:induction false} RoundsAppend<K>(f: RoundFunction<K>, s: Pair, ks: seq<K>, k: K)
    ensures Rounds(f, s, ks + [k]) == Round(f, Rounds(f, s, ks), k)
    decreases |ks|
  {
    if ks == [] {
      assert ks + [k] == [k] && [k][1..] == [];
    } else {
      assert (ks + [k])[1..] == ks[1..] + [k];
      RoundsAppend(f, Round(f, s, ks[0]), ks[1..], k);
    }
  }

  /** Running the rounds again on the swapped halves, keys reversed. */
  lemma {:induction false} RoundsInverse<K>(f: RoundFunction<K>, s: Pair, ks: seq<K>)
    ensures Rounds(f, Rounds(f, s, ks).Swapped(), Reverse(ks)) == s.Swapped()
    decreases |ks|
  {
    if ks != [] {
      var t := Round(f, s, ks[0]);
      RoundsInverse(f, t, ks[1..]);
      RoundsAppend(f, Rounds(f, t, ks[1..]).Swapped(), Reverse(ks[1..]), ks[0]);
      RoundInverse(f, s, ks[0]);
    }
  }

  lemma OneRound<K>(f: RoundFunction<K>, s: Pair, ks: seq<K>, i: nat)
    requires i < |ks|
    ensures Rounds(f, s, ks[i..]) == Rounds(f, Round(f, s, ks[i]), ks[i + 1..])
  {
    assert ks[i..][1..] == ks[i + 1..];
  }

  ghost predicate StepAt<K(!new)>(f: RoundFunction<K>, states: seq<Pair>, ks: seq<K>, i: int)
    requires |states| == |ks| + 1 && 0 <= i < |ks|
  {
    states[i + 1] == Round(f, states[i], ks[i])
  }

  /** States that follow each other by rounds are where the rounds lead. */
  lemma {:induction false} RunsThrough<K(!new)>(f: RoundFunction<K>, states: seq<Pair>, ks: seq<K>, i: nat)
    requires |states| == |ks| + 1 && i <= |ks| && forall j | 0 <= j < |ks| :: StepAt(f, states, ks, j)
    ensures Rounds(f, states[0], ks[..i]) == states[i]
  {
    if i > 0 {
      RunsThrough(f, states, ks, i - 1);
      assert StepAt(f, states, ks, i - 1);
      assert ks[..i] == ks[..i - 1] + [ks[i - 1]];
      RoundsAppend(f, states[0], ks[..i - 1], ks[i - 1]);
    }
  }

  lemma TwoRounds<K>(f: RoundFunction<K>, s: Pair, ks: seq<K>, i: nat)
    requires i + 2 <= |ks|
    ensures Rounds(f, s, ks[i..]) == Rounds(f, Round(f, Round(f, s, ks[i]), ks[i + 1]), ks[i + 2..])
  {
    OneRound(f, s, ks, i);
    OneRound(f, Round(f, s, ks[i]), ks, i + 1);
  }
}

/** The selection functions of FIPS 46-3 and the criteria they were designed by. */
module SelectionFunctions {

  /** Four rows of sixteen hexadecimal digits, as FIPS 46-3 prints them. */
  datatype Box = Box(r0: bv64, r1: bv64, r2: bv64, r3: bv64) {

    /** The outer two of the six input bits choose the row, the inner four the
        column; the source lists the 64 outputs by the input instead. */
    function Output(v: bv8): bv8 {
      var row := if v & 0x21 == 0 then r0 else if v & 0x21 == 1 then r1 else if v & 0x21 == 0x20 then r2 else r3;
      var shift: bv64 := (60 - (((v >> 1) & 15) << 2)) as bv64;
      ((row >> shift) & 15) as bv8
    }
  }

  const S_BOX: seq<Box> := [
    Box(0xE4D12FB83A6C5907, 0x0F74E2D1A6CB9538, 0x41E8D62BFC973A50, 0xFC8249175B3EA06D),
    Box(0xF18E6B34972DC05A, 0x3D47F28EC01A69B5, 0x0E7BA4D158C6932F, 0xD8A13F42B67C05E9),
    Box(0xA09E63F51DC7B428, 0xD709346A285ECBF1, 0xD6498F30B12C5AE7, 0x1AD069874FE3B52C),
    Box(0x7DE3069A1285BC4F, 0xD8B56F03472C1AE9, 0xA690CB7DF13E5284, 0x3F06A1D8945BC72E),
    Box(0x2C417AB6853FD0E9, 0xEB2C47D150FA3986, 0x421BAD78F9C5630E, 0xB8C71E2D6F09A453),
    Box(0xC1AF92680D34E75B, 0xAF427C9561DE0B38, 0x9EF528C3704A1DB6, 0x432C95FABE17608D),
    Box(0x4B2EF08D3C975A61, 0xD0B7491AE35C2F86, 0x14BDC37EAF680592, 0x6BD814A7950FE23C),
    Box(0xD2846FB1A93E50C7, 0x1FD8A374C56B0E92, 0x7B419CE206ADF358, 0x21E74A8DFC90356B)
  ]

  /** More than one bit is set. */
  predicate Several(x: bv8) { x & (x - 1) != 0 }

  /** A change of one input bit, or of the middle two. */
  predicate Change(d: bv8) { d == 1 || d == 2 || d == 4 || d == 8 || d == 16 || d == 32 || d == 12 }

  ghost predicate Differ(b: Box, v: bv8, w: bv8) {
    b.Output(v) != b.Output(w) && b.Output(v) < 16 && b.Output(w) < 16
  }

  /** At least two output bits change. */
  ghost predicate Spreads(b: Box, v: bv8, d: bv8) { Several(b.Output(v) ^ b.Output(v ^ d)) }

  /** Two inputs of one row. */
  predicate SameRow(v: bv8, w: bv8) { v < 64 && w < 64 && v & 0x21 == w & 0x21 && v != w }

  lemma Row0(v: bv8, w: bv8)
    requires SameRow(v, w)
    ensures Differ(S_BOX[0], v, w)
  {
  }

  lemma Spread0(v: bv8, d: bv8)
    requires v < 64 && Change(d)
    ensures Spreads(S_BOX[0], v, d)
  {
  }

  lemma Row1(v: bv8, w: bv8)
    requires SameRow(v, w)
    ensures Differ(S_BOX[1], v, w)
  {
  }

  lemma Spread1(v: bv8, d: bv8)
    requires v < 64 && Change(d)
    ensures Spreads(S_BOX[1], v, d)
  {
  }

  lemma Row2(v: bv8, w: bv8)
    requires SameRow(v, w)
    ensures Differ(S_BOX[2], v, w)
  {
  }

  lemma Spread2(v: bv8, d: bv8)
    requires v < 64 && Change(d)
    ensures Spreads(S_BOX[2], v, d)
  {
  }

  lemma Row3(v: bv8, w: bv8)
    requires SameRow(v, w)
    ensures Differ(S_BOX[3], v, w)
  {
  }

  lemma Spread3(v: bv8, d: bv8)
    requires v < 64 && Change(d)
    ensures Spreads(S_BOX[3], v, d)
  {
  }

  lemma Row4(v: bv8, w: bv8)
    requires SameRow(v, w)
    ensures Differ(S_BOX[4], v, w)
  {
  }

  lemma Spread4(v: bv8, d: bv8)
    requires v < 64 && Change(d)
    ensures Spreads(S_BOX[4], v, d)
  {
  }

  lemma Row5(v: bv8, w: bv8)
    requires SameRow(v, w)
    ensures Differ(S_BOX[5], v, w)
  {
  }

  lemma Spread5(v: bv8, d: bv8)
    requires v < 64 && Change(d)
    ensures Spreads(S_BOX[5], v, d)
  {
  }

  lemma Row6(v: bv8, w: bv8)
    requires SameRow(v, w)
    ensures Differ(S_BOX[6], v, w)
  {
  }

  lemma Spread6(v: bv8, d: bv8)
    requires v < 64 && Change(d)
    ensures Spreads(S_BOX[6], v, d)
  {
  }

  lemma Row7(v: bv8, w: bv8)
    requires SameRow(v, w)
    ensures Differ(S_BOX[7], v, w)
  {
  }

  lemma Spread7(v: bv8, d: bv8)
    requires v < 64 && Change(d)
    ensures Spreads(S_BOX[7], v, d)
  {
  }

  /** Each row of each box is a permutation of the sixteen four-bit values. */
  lemma RowsPermute(i: nat, v: bv8, w: bv8)
    requires i < 8 && SameRow(v, w)
    ensures Differ(S_BOX[i], v, w)
  {
    match i {
      case 0 => Row0(v, w);
      case 1 => Row1(v, w);
      case 2 => Row2(v, w);
      case 3 => Row3(v, w);
      case 4 => Row4(v, w);
      case 5 => Row5(v, w);
      case 6 => Row6(v, w);
      case 7 => Row7(v, w);
    }
  }

  /** Changing one input bit, or the middle two, changes at least two output bits. */
  lemma ChangesSpread(i: nat, v: bv8, d: bv8)
    requires i < 8 && v < 64 && Change(d)
    ensures Spreads(S_BOX[i], v, d)
  {
    match i {
      case 0 => Spread0(v, d);
      case 1 => Spread1(v, d);
      case 2 => Spread2(v, d);
      case 3 => Spread3(v, d);
      case 4 => Spread4(v, d);
      case 5 => Spread5(v, d);
      case 6 => Spread6(v, d);
      case 7 => Spread7(v, d);
    }
  }
}

/** DES on blocks of single bits (squid-2.7.STABLE9/lib/encrypt.c), for every
    key schedule and every expansion table. */
module Des {
  import opened Feistel
  import opened SelectionFunctions

  type Block = s: seq<Bit> | |s| == 64 witness seq(64, _ => 0)
  type SubKey = s: seq<Bit> | |s| == 48 witness seq(48, _ => 0)

  /** A salted expansion table: 48 indices into a half block. */
  type Expansion = s: seq<nat> | |s| == 48 && forall i | 0 <= i < 48 :: s[i] < 32 witness seq(48, _ => 0)

  // The tables, a line of the source each row.

  const IP: seq<seq<nat>> := [
    [57, 49, 41, 33, 25, 17, 9, 1],
    [59, 51, 43, 35, 27, 19, 11, 3],
    [61, 53, 45, 37, 29, 21, 13, 5],
    [63, 55, 47, 39, 31, 23, 15, 7],
    [56, 48, 40, 32, 24, 16, 8, 0],
    [58, 50, 42, 34, 26, 18, 10, 2],
    [60, 52, 44, 36, 28, 20, 12, 4],
    [62, 54, 46, 38, 30, 22, 14, 6]
  ]

  const EP: seq<seq<nat>> := [
    [7, 39, 15, 47, 23, 55, 31, 63],
    [6, 38, 14, 46, 22, 54, 30, 62],
    [5, 37, 13, 45, 21, 53, 29, 61],
    [4, 36, 12, 44, 20, 52, 28, 60],
    [3, 35, 11, 43, 19, 51, 27, 59],
    [2, 34, 10, 42, 18, 50, 26, 58],
    [1, 33, 9, 41, 17, 49, 25, 57],
    [0, 32, 8, 40, 16, 48, 24, 56]
  ]

  const PERM: seq<seq<nat>> := [
    [15, 6, 19, 20, 28, 11, 27, 16],
    [0, 14, 22, 25, 4, 17, 30, 9],
    [1, 7, 23, 13, 31, 26, 2, 8],
    [18, 12, 29, 5, 21, 10, 3, 24]
  ]

  // ---------- The cipher on values ----------

  function Entry(table: seq<seq<nat>>, r: nat, c: nat): nat {
    if r < |table| && c < |table[r]| then table[r][c] else 0
  }

  function At(table: seq<seq<nat>>, i: nat): nat { Entry(table, i / 8, i % 8) }

  /** The first j of the six input bits of S-box i, shifted in one by one. */
  function SboxInput(r: Half, k: SubKey, e: Expansion, i: nat, j: nat): bv8
    requires i < 8 && j <= 6
  {
    if j == 0 then 0
    else (SboxInput(r, k, e, i, j - 1) << 1) | LowBit(Xor(r[e[6 * i + j - 1]], k[6 * i + j - 1]))
  }

  function LowBit(b: Bit): bv8 { if b == 1 then 1 else 0 }

  /** Bit j of what S-box i reads. */
  function Mixed(r: Half, k: SubKey, e: Expansion, i: nat, j: nat): Bit
    requires i < 8 && j < 6
  {
    Xor(r[e[6 * i + j]], k[6 * i + j])
  }

  /** The number whose binary digits are given, the first one worth 32. */
  function Binary6(b0: Bit, b1: Bit, b2: Bit, b3: Bit, b4: Bit, b5: Bit): bv8 {
    (if b0 == 1 then 32 else 0) + (if b1 == 1 then 16 else 0) + (if b2 == 1 then 8 else 0)
    + (if b3 == 1 then 4 else 0) + (if b4 == 1 then 2 else 0) + (if b5 == 1 then 1 else 0)
  }

  lemma InputIs(r: Half, k: SubKey, e: Expansion, i: nat)
    requires i < 8
    ensures SboxInput(r, k, e, i, 6) == Binary6(Mixed(r, k, e, i, 0), Mixed(r, k, e, i, 1), Mixed(r, k, e, i, 2),
                                                Mixed(r, k, e, i, 3), Mixed(r, k, e, i, 4), Mixed(r, k, e, i, 5))
    ensures SboxInput(r, k, e, i, 6) < 64
  {
    assert SboxInput(r, k, e, i, 3) == (LowBit(Mixed(r, k, e, i, 0)) << 2) | (LowBit(Mixed(r, k, e, i, 1)) << 1) | LowBit(Mixed(r, k, e, i, 2)) by {
      assert SboxInput(r, k, e, i, 1) == LowBit(Mixed(r, k, e, i, 0));
    }
    assert SboxInput(r, k, e, i, 5) == (SboxInput(r, k, e, i, 3) << 2) | (LowBit(Mixed(r, k, e, i, 3)) << 1) | LowBit(Mixed(r, k, e, i, 4));
  }

  function Bits4(v: bv8): (b: seq<Bit>)
    ensures |b| == 4
  {
    [if v & 8 != 0 then 1 else 0, if v & 4 != 0 then 1 else 0, if v & 2 != 0 then 1 else 0, if v & 1 != 0 then 1 else 0]
  }

  /** Read with the first bit worth 8, the four bits are the value again. */
  lemma Bits4Are(v: bv8)
    requires v < 16
    ensures var b := Bits4(v);
      v == (if b[0] == 1 then 8 else 0) + (if b[1] == 1 then 4 else 0) + (if b[2] == 1 then 2 else 0) + (if b[3] == 1 then 1 else 0)
  {
  }

  /** The outputs of the first n S-boxes, four bits each. */
  function Substituted(r: Half, k: SubKey, e: Expansion, n: nat): (t: seq<Bit>)
    requires n <= 8
    ensures |t| == 4 * n
  {
    if n == 0 then []
    else Substituted(r, k, e, n - 1) + Bits4(S_BOX[n - 1].Output(SboxInput(r, k, e, n - 1, 6)))
  }

  function Permuted(t: seq<Bit>): (h: Half)
    requires |t| == 32
    ensures forall i | 0 <= i < 32 :: h[i] == PermBit(t, i)
  {
    seq(32, i requires 0 <= i < 32 => PermBit(t, i))
  }

  function PermBit(t: seq<Bit>, i: nat): Bit
    requires |t| == 32
  {
    if At(PERM, i) < 32 then t[At(PERM, i)] else 0
  }

  /** The round function: expand, mix with the subkey, substitute, permute. */
  function Scramble(r: Half, k: SubKey, e: Expansion): Half {
    Permuted(Substituted(r, k, e, 8))
  }

  function Perm(table: seq<seq<nat>>, s: Block): (t: Block)
    ensures forall i | 0 <= i < 64 :: t[i] == Pick(table, s, i)
  {
    seq(64, i requires 0 <= i < 64 => Pick(table, s, i))
  }

  function Pick(table: seq<seq<nat>>, s: Block, i: nat): Bit {
    if At(table, i) < 64 then s[At(table, i)] else 0
  }

  function EncryptedBy<K>(f: RoundFunction<K>, block: Block, keys: seq<K>, decr: bool): Block {
    var x := Perm(IP, block);
    var s := Rounds(f, Pair(x[..32], x[32..]), if decr then Reverse(keys) else keys);
    Perm(EP, s.l + s.r)
  }

  function Scrambler(e: Expansion): RoundFunction<SubKey> {
    (r: Half, k: SubKey) => Scramble(r, k, e)
  }

  function Encrypted(block: Block, keys: seq<SubKey>, e: Expansion, decr: bool): Block {
    EncryptedBy(Scrambler(e), block, keys, decr)
  }

  // ---------- What FIPS 46-3 says of the parts ----------

  /** The four bits of each S-box stand in the order of the boxes. */
  lemma {:induction false} SubstitutedAre(r: Half, k: SubKey, e: Expansion, i: nat, n: nat)
    requires i < n <= 8
    ensures NibbleAt(Substituted(r, k, e, n), i, Bits4(S_BOX[i].Output(SboxInput(r, k, e, i, 6))))
  {
    var before, last := Substituted(r, k, e, n - 1), Bits4(S_BOX[n - 1].Output(SboxInput(r, k, e, n - 1, 6)));
    if i < n - 1 {
      SubstitutedAre(r, k, e, i, n - 1);
      NibbleKept(before, last, i, Bits4(S_BOX[i].Output(SboxInput(r, k, e, i, 6))));
    } else {
      NibbleNew(before, last, i);
    }
  }

  ghost predicate NibbleAt(t: seq<Bit>, i: nat, b: seq<Bit>) {
    |b| == 4 && 4 * i + 4 <= |t| && t[4 * i] == b[0] && t[4 * i + 1] == b[1] && t[4 * i + 2] == b[2] && t[4 * i + 3] == b[3]
  }

  lemma NibbleKept(t: seq<Bit>, u: seq<Bit>, i: nat, b: seq<Bit>)
    requires NibbleAt(t, i, b)
    ensures NibbleAt(t + u, i, b)
  {
  }

  lemma NibbleNew(t: seq<Bit>, u: seq<Bit>, i: nat)
    requires |t| == 4 * i && |u| == 4
    ensures NibbleAt(t + u, i, u)
  {
  }

  /** Bit p of the round function is bit PERM(p) of the outputs: the one of S-box
      PERM(p) / 4 with the weight that its place there gives it. */
  lemma ScrambledBit(r: Half, k: SubKey, e: Expansion, p: nat, i: nat, j: nat)
    requires p < 32 && At(PERM, p) == 4 * i + j && i < 8 && j < 4
    ensures var out := S_BOX[i].Output(SboxInput(r, k, e, i, 6));
      Scramble(r, k, e)[p] == 1 <==> out & (if j == 0 then 8 else if j == 1 then 4 else if j == 2 then 2 else 1) != 0
  {
    SubstitutedAre(r, k, e, i, 8);
    BitOfNibble(S_BOX[i].Output(SboxInput(r, k, e, i, 6)), j);
  }

  lemma BitOfNibble(v: bv8, j: nat)
    requires j < 4
    ensures Bits4(v)[j] == 1 <==> v & (if j == 0 then 8 else if j == 1 then 4 else if j == 2 then 2 else 1) != 0
  {
  }

  const PERM_INVERSE: seq<seq<nat>> := [
    [8, 16, 22, 30, 12, 27, 1, 17],
    [23, 15, 29, 5, 25, 19, 9, 0],
    [7, 13, 24, 2, 3, 28, 10, 18],
    [31, 11, 21, 6, 4, 26, 14, 20]
  ]

  /** PERM is a permutation of the 32 places: its inverse is one on both sides. */
  lemma PermInjective(r: nat, c: nat)
    requires r < 4 && c < 8
    ensures Entry(PERM, r, c) < 32 && At(PERM_INVERSE, Entry(PERM, r, c)) == 8 * r + c
  {
  }

  lemma PermSurjective(r: nat, c: nat)
    requires r < 4 && c < 8
    ensures Entry(PERM_INVERSE, r, c) < 32 && At(PERM, Entry(PERM_INVERSE, r, c)) == 8 * r + c
  {
  }

  /** The four bits that PERM puts side by side come from four different S-boxes. */
  lemma PermMixes(r: nat, h: nat)
    requires r < 4 && (h == 0 || h == 4)
    ensures var a, b, c, d := BoxOf(r, h), BoxOf(r, h + 1), BoxOf(r, h + 2), BoxOf(r, h + 3);
      a != b && a != c && a != d && b != c && b != d && c != d
  {
  }

  /** The S-box whose bit goes to place 8 r + c. */
  function BoxOf(r: nat, c: nat): nat { Entry(PERM, r, c) / 4 }

  function Joined(a: Half, b: Half): Block {
    var s: seq<Bit> := a;
    s + b
  }

  /** The halves before round i + 1 of the sixteen, when the keys are used forwards
      or, to decrypt, backwards. */
  ghost predicate Transcript(l: seq<Half>, r: seq<Half>, keys: seq<SubKey>, e: Expansion, decr: bool) {
    && |l| == |r| == 17 && |keys| == 16
    && forall i | 0 <= i < 16 :: RoundAt(l, r, keys, e, decr, i)
  }

  ghost predicate RoundAt(l: seq<Half>, r: seq<Half>, keys: seq<SubKey>, e: Expansion, decr: bool, i: int)
    requires |l| == |r| == 17 && |keys| == 16 && 0 <= i < 16
  {
    l[i + 1] == r[i] && r[i + 1] == XorHalf(l[i], Scramble(r[i], keys[if decr then 15 - i else i], e))
  }

  lemma TranscriptRuns(l: seq<Half>, r: seq<Half>, keys: seq<SubKey>, e: Expansion, decr: bool)
    requires Transcript(l, r, keys, e, decr)
    ensures Rounds(Scrambler(e), Pair(l[0], r[0]), if decr then Reverse(keys) else keys) == Pair(l[16], r[16])
  {
    var ks := if decr then Reverse(keys) else keys;
    var states := seq(17, i requires 0 <= i < 17 => Pair(l[i], r[i]));
    forall i | 0 <= i < 16 ensures StepAt(Scrambler(e), states, ks, i) {
      assert RoundAt(l, r, keys, e, decr, i);
    }
    RunsThrough(Scrambler(e), states, ks, 16);
    assert ks[..16] == ks;
  }

  /** The whole cipher: where the first pair of a transcript is the permuted block,
      the result permuted alike is the last pair with its halves exchanged. */
  lemma EncryptedIs(block: Block, l: seq<Half>, r: seq<Half>, keys: seq<SubKey>, e: Expansion, decr: bool)
    requires Transcript(l, r, keys, e, decr) && Perm(IP, block) == Joined(l[0], r[0])
    ensures Perm(IP, Encrypted(block, keys, e, decr)) == Joined(r[16], l[16])
  {
    var x := Perm(IP, block);
    assert x[..32] == l[0] && x[32..] == r[0];
    TranscriptRuns(l, r, keys, e, decr);
    PermsCancel(Joined(l[16], r[16]));
    assert HalfSwap(Joined(l[16], r[16])) == Joined(r[16], l[16]);
  }

  /** The initial permutation takes the even bit positions, counted from one, into
      the first half and the odd ones into the second, each column from the last
      byte to the first. */
  lemma InitialBit(block: Block, r: nat, c: nat)
    requires r < 8 && c < 8
    ensures Perm(IP, block)[8 * r + c] == block[8 * (7 - c) + if r < 4 then 1 + 2 * r else 2 * (r - 4)]
  {
    TablesRegular();
    AtRow(IP, r, c);
  }

  // ---------- Decryption undoes encryption ----------

  /** The regularity of the two tables. */
  ghost predicate LikeIp(t: seq<seq<nat>>) {
    forall r: nat, c: nat | r < 8 && c < 8 :: Entry(t, r, c) == 8 * (7 - c) + if r < 4 then 1 + 2 * r else 2 * (r - 4)
  }

  ghost predicate LikeEp(t: seq<seq<nat>>) {
    forall r: nat, c: nat | r < 8 && c < 8 :: Entry(t, r, c) == (if c % 2 == 0 then 7 else 39) - r + 8 * (c / 2)
  }

  lemma IpEntry(r: nat, c: nat)
    requires r < 8 && c < 8
    ensures Entry(IP, r, c) == 8 * (7 - c) + if r < 4 then 1 + 2 * r else 2 * (r - 4)
  {
  }

  lemma EpEntry(r: nat, c: nat)
    requires r < 8 && c < 8
    ensures Entry(EP, r, c) == (if c % 2 == 0 then 7 else 39) - r + 8 * (c / 2)
  {
  }

  lemma TablesRegular()
    ensures LikeIp(IP) && LikeEp(EP)
  {
    forall r: nat, c: nat | r < 8 && c < 8
      ensures Entry(IP, r, c) == 8 * (7 - c) + if r < 4 then 1 + 2 * r else 2 * (r - 4)
    {
      IpEntry(r, c);
    }
    forall r: nat, c: nat | r < 8 && c < 8
      ensures Entry(EP, r, c) == (if c % 2 == 0 then 7 else 39) - r + 8 * (c / 2)
    {
      EpEntry(r, c);
    }
  }

  lemma AtRow(t: seq<seq<nat>>, r: nat, c: nat)
    requires c < 8
    ensures At(t, 8 * r + c) == Entry(t, r, c)
  {
    assert (8 * r + c) / 8 == r && (8 * r + c) % 8 == c;
  }

  /** EP after IP is exactly an exchange of the halves. */
  lemma IpThenEp(ip: seq<seq<nat>>, ep: seq<seq<nat>>, i: nat)
    requires LikeIp(ip) && LikeEp(ep) && i < 64
    ensures At(ip, i) < 64 && At(ep, At(ip, i)) == if i < 32 then i + 32 else i - 32
  {
    var r, c := i / 8, i % 8;
    var r', c' := 7 - c, if r < 4 then 1 + 2 * r else 2 * (r - 4);
    assert Entry(ip, r, c) == 8 * r' + c';
    AtRow(ep, r', c');
  }

  lemma EpThenIp(ip: seq<seq<nat>>, ep: seq<seq<nat>>, i: nat)
    requires LikeIp(ip) && LikeEp(ep) && i < 64
    ensures At(ep, i) < 64 && At(ip, if At(ep, i) < 32 then At(ep, i) + 32 else At(ep, i) - 32) == i
  {
    var r, c := i / 8, i % 8;
    var r', c' := if c % 2 == 0 then 4 + c / 2 else c / 2, 7 - r;
    assert Entry(ep, r, c) == (if c % 2 == 0 then 7 else 39) - r + 8 * (c / 2);
    AtRow(ip, r', c');
  }

  function HalfSwap(s: Block): Block { s[32..] + s[..32] }

  lemma PermsCancelWith(ip: seq<seq<nat>>, ep: seq<seq<nat>>, s: Block)
    requires LikeIp(ip) && LikeEp(ep)
    ensures Perm(ip, Perm(ep, s)) == HalfSwap(s) && Perm(ep, HalfSwap(Perm(ip, s))) == s
  {
    var x, y := Perm(ep, s), Perm(ip, s);
    forall i | 0 <= i < 64 ensures Perm(ip, x)[i] == HalfSwap(s)[i] {
      IpThenEp(ip, ep, i);
    }
    forall i | 0 <= i < 64 ensures Perm(ep, HalfSwap(y))[i] == s[i] {
      EpThenIp(ip, ep, i);
    }
  }

  lemma PermsCancel(s: Block)
    ensures Perm(IP, Perm(EP, s)) == HalfSwap(s) && Perm(EP, HalfSwap(Perm(IP, s))) == s
  {
    TablesRegular();
    PermsCancelWith(IP, EP, s);
  }

  /** Between these permutations, any Feistel network is undone by itself with the
      keys reversed. */
  lemma ReversedKeysUndo<K>(f: RoundFunction<K>, block: Block, keys: seq<K>, decr: bool)
    ensures EncryptedBy(f, EncryptedBy(f, block, keys, decr), keys, !decr) == block
  {
    var ks := if decr then Reverse(keys) else keys;
    ReverseReverse(keys);
    var x := Perm(IP, block);
    var s := Pair(x[..32], x[32..]);
    var t := Rounds(f, s, ks);
    PermsCancel(t.l + t.r);
    RoundsInverse(f, s, ks);
    var y := Perm(IP, EncryptedBy(f, block, keys, decr));
    assert y[..32] == t.r && y[32..] == t.l;
    assert s.r + s.l == HalfSwap(x);
    PermsCancel(block);
  }

  /** encrypt with decr set undoes encrypt without it, and the other way round,
      for every block, key schedule and expansion table. */
  lemma DecryptUndoesEncrypt(block: Block, keys: seq<SubKey>, e: Expansion, decr: bool)
    ensures Encrypted(Encrypted(block, keys, e, decr), keys, e, !decr) == block
  {
    ReversedKeysUndo(Scrambler(e), block, keys, decr);
  }

  // ---------- The cipher in place ----------

  method PermInto(a: array<Bit>, s: Block, table: seq<seq<nat>>)
    requires a.Length == 64
    modifies a
    ensures a[..] == Perm(table, s)
  {
    for i := 0 to 64
      invariant forall j | 0 <= j < i :: a[j] == Perm(table, s)[j]
    {
      a[i] := Pick(table, s, i);
    }
  }

  /** crypt_main on the halves at offsets l and r of one array. */
  method CryptMain(tmp: array<Bit>, l: nat, r: nat, k: SubKey, e: Expansion)
    requires tmp.Length == 64 && ((l == 0 && r == 32) || (l == 32 && r == 0))
    modifies tmp
    ensures tmp[r..r + 32] == old(tmp[r..r + 32])
    ensures tmp[l..l + 32] == XorHalf(old(tmp[l..l + 32]), Scramble(old(tmp[r..r + 32]), k, e))
  {
    var out := SubstituteAll(tmp, r, k, e);
    XorInto(tmp, l, Permuted(out));
  }

  method XorInto(tmp: array<Bit>, l: nat, h: Half)
    requires tmp.Length == 64 && (l == 0 || l == 32)
    modifies tmp
    ensures tmp[l..l + 32] == XorHalf(old(tmp[l..l + 32]), h)
    ensures tmp[32 - l..64 - l] == old(tmp[32 - l..64 - l])
  {
    ghost var was := tmp[..];
    for i := 0 to 32
      invariant forall j | 0 <= j < 64 :: tmp[j] == if l <= j < l + i then Xor(was[j], h[j - l]) else was[j]
    {
      tmp[l + i] := Xor(tmp[l + i], h[i]);
    }
  }

  method SubstituteAll(tmp: array<Bit>, r: nat, k: SubKey, e: Expansion) returns (out: seq<Bit>)
    requires tmp.Length == 64 && r + 32 <= 64
    ensures out == Substituted(tmp[r..r + 32], k, e, 8)
  {
    out := [];
    for i := 0 to 8
      invariant out == Substituted(tmp[r..r + 32], k, e, i)
    {
      var sbval := ReadSix(tmp, r, k, e, i);
      out := out + Bits4(S_BOX[i].Output(sbval));
    }
  }

  method ReadSix(tmp: array<Bit>, r: nat, k: SubKey, e: Expansion, i: nat) returns (sbval: bv8)
    requires tmp.Length == 64 && r + 32 <= 64 && i < 8
    ensures sbval == SboxInput(tmp[r..r + 32], k, e, i, 6)
  {
    ghost var right: Half := tmp[r..r + 32];
    sbval := 0;
    for j := 0 to 6
      invariant sbval == SboxInput(right, k, e, i, j)
    {
      assert tmp[r + e[6 * i + j]] == right[e[6 * i + j]];
      sbval := (sbval << 1) | LowBit(Xor(tmp[r + e[6 * i + j]], k[6 * i + j]));
    }
  }

  ghost function Halves(tmp: array<Bit>): Pair
    requires tmp.Length == 64
    reads tmp
  {
    Pair(tmp[0..32], tmp[32..64])
  }

  /** Two rounds leave the halves in place. */
  method RoundPair(tmp: array<Bit>, k: SubKey, k': SubKey, e: Expansion)
    requires tmp.Length == 64
    modifies tmp
    ensures Halves(tmp) == Round(Scrambler(e), Round(Scrambler(e), old(Halves(tmp)), k), k')
  {
    CryptMain(tmp, 0, 32, k, e);
    CryptMain(tmp, 32, 0, k', e);
  }

  /** Which key rounds 2 i and 2 i + 1 use. */
  lemma KeyPair(keys: seq<SubKey>, ks: seq<SubKey>, decr: bool, i: nat)
    requires |keys| == 16 && ks == (if decr then Reverse(keys) else keys) && i < 8
    ensures |ks| == 16
    ensures if decr then ks[2 * i] == keys[15 - 2 * i] && ks[2 * i + 1] == keys[14 - 2 * i]
            else ks[2 * i] == keys[2 * i] && ks[2 * i + 1] == keys[2 * i + 1]
  {
  }

  /** The key index before rounds 2 i and 2 i + 1. */
  function KeyAt(decr: bool, i: nat): int { if decr then 15 - 2 * i else 2 * i }

  /** Rounds 2 i and 2 i + 1. */
  method NextPair(tmp: array<Bit>, keys: seq<SubKey>, e: Expansion, decr: bool, schl: int, ghost ks: seq<SubKey>, ghost i: nat)
    returns (schl': int)
    requires tmp.Length == 64 && |keys| == 16 && ks == (if decr then Reverse(keys) else keys)
    requires i < 8 && schl == KeyAt(decr, i)
    modifies tmp
    ensures schl' == KeyAt(decr, i + 1) && |ks| == 16
    ensures Rounds(Scrambler(e), Halves(tmp), ks[2 * i + 2..]) == Rounds(Scrambler(e), old(Halves(tmp)), ks[2 * i..])
  {
    KeyPair(keys, ks, decr, i);
    TwoRounds(Scrambler(e), Halves(tmp), ks, 2 * i);
    var next := if decr then schl - 1 else schl + 1;
    RoundPair(tmp, keys[schl], keys[next], e);
    schl' := if decr then next - 1 else next + 1;
  }

  /** The sixteen rounds, with the keys taken from either end. */
  method RunRounds(tmp: array<Bit>, keys: seq<SubKey>, e: Expansion, decr: bool)
    requires tmp.Length == 64 && |keys| == 16
    modifies tmp
    ensures Halves(tmp) == Rounds(Scrambler(e), old(Halves(tmp)), if decr then Reverse(keys) else keys)
  {
    ghost var ks := if decr then Reverse(keys) else keys;
    ghost var goal := Rounds(Scrambler(e), Halves(tmp), ks);
    var schl := KeyAt(decr, 0);
    assert ks[2 * 0..] == ks;
    for i := 0 to 8
      invariant schl == KeyAt(decr, i) && Rounds(Scrambler(e), Halves(tmp), ks[2 * i..]) == goal
    {
      schl := NextPair(tmp, keys, e, decr, schl, ks, i);
    }
    assert ks[2 * 8..] == [];
  }

  /** IP, with the two halves of the result named. */
  method Scatter(tmp: array<Bit>, block: Block)
    requires tmp.Length == 64
    modifies tmp
    ensures var x := Perm(IP, block); Halves(tmp) == Pair(x[..32], x[32..])
  {
    PermInto(tmp, block, IP);
    assert tmp[0..32] == tmp[..][..32] && tmp[32..64] == tmp[..][32..];
  }

  /** EP, from the two halves. */
  method Gather(nachr: array<Bit>, tmp: array<Bit>)
    requires nachr.Length == 64 && tmp.Length == 64
    modifies nachr
    ensures nachr[..] == Perm(EP, old(Halves(tmp).l + Halves(tmp).r))
  {
    assert tmp[..] == tmp[0..32] + tmp[32..64];
    PermInto(nachr, tmp[..], EP);
  }

  method Encrypt(nachr: array<Bit>, keys: seq<SubKey>, e: Expansion, decr: bool)
    requires nachr.Length == 64 && |keys| == 16
    modifies nachr
    ensures nachr[..] == Encrypted(old(nachr[..]), keys, e, decr)
  {
    var tmp := new Bit[64](_ => 0);
    Scatter(tmp, nachr[..]);
    RunRounds(tmp, keys, e, decr);
    Gather(nachr, tmp);
  }
}
