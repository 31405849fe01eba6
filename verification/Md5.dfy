/** MD5 streaming (squid-2.7.STABLE9/lib/md5.c): block buffering, the carrying
    byte count and the padding of sections 3.1 to 3.5 of RFC 1321, for any
    64-byte compression function. */
module Md5 {
  import Division

  const RANGE32 := 0x1_0000_0000
  const RANGE64 := 0x1_0000_0000_0000_0000

  type Byte = x: int | 0 <= x < 256
  type Word = x: int | 0 <= x < RANGE32
  type State = s: seq<Word> | |s| == 4 witness [0, 0, 0, 0]
  type Compression = (State, seq<Word>) -> State

  const IV: State := [0x67452301, 0xefcdab89, 0x98badcfe, 0x10325476]

  // ---------- RFC 1321 on whole messages ----------

  function LittleEndian(b0: int, b1: int, b2: int, b3: int): int {
    b0 + 0x100 * b1 + 0x1_0000 * b2 + 0x100_0000 * b3
  }

  /** The little-endian words of a byte string. */
  function Words(b: seq<Byte>): (w: seq<Word>)
    ensures |w| == |b| / 4
    ensures forall i | 0 <= i < |b| / 4 :: w[i] == LittleEndian(b[4 * i], b[4 * i + 1], b[4 * i + 2], b[4 * i + 3])
  {
    seq(|b| / 4, i requires 0 <= i < |b| / 4 => LittleEndian(b[4 * i], b[4 * i + 1], b[4 * i + 2], b[4 * i + 3]))
  }

  function WordBytes(w: Word): (b: seq<Byte>)
    ensures |b| == 4
  {
    [w % 0x100, w / 0x100 % 0x100, w / 0x1_0000 % 0x100, w / 0x100_0000]
  }

  lemma WordBytesInvertWords(w: Word)
    ensures Words(WordBytes(w)) == [w]
  {
    var a := w / 0x100;
    var b := a / 0x100;
    assert w / 0x1_0000 == b && w / 0x100_0000 == b / 0x100;
    assert w == w % 0x100 + 0x100 * (a % 0x100 + 0x100 * (b % 0x100 + 0x100 * (b / 0x100)));
  }

  function Fold(f: Compression, h: State, m: seq<Byte>): State
    requires |m| % 64 == 0
    decreases |m|
  {
    if m == [] then h else Fold(f, f(h, Words(m[..64])), m[64..])
  }

  function Zeros(n: nat): (z: seq<Byte>)
    ensures |z| == n && forall i | 0 <= i < n :: z[i] == 0
  {
    seq(n, _ => 0)
  }

  /** The number of bits, modulo 2^64, low-order word first. */
  function BitCount(n: nat): (b: seq<Byte>)
    ensures |b| == 8
  {
    var bits := 8 * n % RANGE64;
    WordBytes(bits % RANGE32) + WordBytes(bits / RANGE32)
  }

  lemma PadAligned(n: nat)
    ensures (n + 1 + (55 - n) % 64 + 8) % 64 == 0
  {
    var q := (55 - n) / 64;
    Division.Unique(n + 1 + (55 - n) % 64 + 8, 64, 1 - q, 0);
  }

  /** Sections 3.1 and 3.2: a one bit, then zeros up to 56 modulo 64, then the
      bit count. */
  function Pad(m: seq<Byte>): (p: seq<Byte>)
    ensures |p| % 64 == 0 && m <= p && |m| + 9 <= |p| < |m| + 73
  {
    PadAligned(|m|);
    m + [0x80] + Zeros((55 - |m|) % 64) + BitCount(|m|)
  }

  function Digest(f: Compression, m: seq<Byte>): seq<Byte> {
    var h := Fold(f, IV, Pad(m));
    WordBytes(h[0]) + WordBytes(h[1]) + WordBytes(h[2]) + WordBytes(h[3])
  }

  // ---------- What the sections of RFC 1321 say ----------

  /** Section 3.3: the bytes of the initial state count up and down again. */
  lemma InitialBytes()
    ensures WordBytes(IV[0]) + WordBytes(IV[1]) == [0x01, 0x23, 0x45, 0x67, 0x89, 0xab, 0xcd, 0xef]
    ensures WordBytes(IV[2]) + WordBytes(IV[3]) == [0xfe, 0xdc, 0xba, 0x98, 0x76, 0x54, 0x32, 0x10]
  {
    assert IV[0] == 0x67452301 && IV[1] == 0xefcdab89 && IV[2] == 0x98badcfe && IV[3] == 0x10325476;
    assert WordBytes(0x67452301) == [0x01, 0x23, 0x45, 0x67];
    assert WordBytes(0xefcdab89) == [0x89, 0xab, 0xcd, 0xef];
    assert WordBytes(0x98badcfe) == [0xfe, 0xdc, 0xba, 0x98];
    assert WordBytes(0x10325476) == [0x76, 0x54, 0x32, 0x10];
  }

  /** Bit i of a byte string, high-order bits of a byte first. */
  function Bit(b: seq<Byte>, i: nat): int
    requires i < 8 * |b|
  {
    var k := i % 8;
    var byte := b[i / 8];
    if k == 0 then byte / 128 else if k == 1 then byte / 64 % 2 else if k == 2 then byte / 32 % 2
    else if k == 3 then byte / 16 % 2 else if k == 4 then byte / 8 % 2 else if k == 5 then byte / 4 % 2
    else if k == 6 then byte / 2 % 2 else byte % 2
  }

  /** Sections 3.1 and 3.2: the message, a single 1 bit, and as few 0 bits as bring
      the length to 448 modulo 512; then the length in bits modulo 2^64 as two
      words, the low-order word first. */
  lemma PadIs(m: seq<Byte>)
    ensures var p, n := Pad(m), 8 * |m|;
      && m <= p && 8 * |p| % 512 == 0 && n + 64 < 8 * |p| <= n + 64 + 512
      && (forall i | n <= i < 8 * |p| - 64 :: Bit(p, i) == if i == n then 1 else 0)
      && Words(p[|p| - 8..]) == [n % RANGE64 % RANGE32, n % RANGE64 / RANGE32]
  {
    var p, n := Pad(m), 8 * |m|;
    PadWhole(m);
    forall i | n <= i < 8 * |p| - 64 ensures Bit(p, i) == if i == n then 1 else 0 {
      PadBit(m, i);
    }
    PadCount(m);
  }

  lemma PadWhole(m: seq<Byte>)
    ensures 8 * |Pad(m)| % 512 == 0
  {
    var p := Pad(m);
    Division.Unique(8 * |p|, 512, |p| / 64, 0);
  }

  lemma PadBit(m: seq<Byte>, i: nat)
    requires 8 * |m| <= i < 8 * |Pad(m)| - 64
    ensures Bit(Pad(m), i) == if i == 8 * |m| then 1 else 0
  {
    PadByte(m, i / 8);
    if i / 8 == |m| { assert i % 8 == i - 8 * |m|; }
  }

  lemma PadCount(m: seq<Byte>)
    ensures var p, n := Pad(m), 8 * |m|;
      Words(p[|p| - 8..]) == [n % RANGE64 % RANGE32, n % RANGE64 / RANGE32]
  {
    assert Pad(m)[|Pad(m)| - 8..] == BitCount(|m|);
    var bits := 8 * |m| % RANGE64;
    TwoWords(bits % RANGE32, bits / RANGE32);
  }

  lemma PadByte(m: seq<Byte>, k: nat)
    requires |m| <= k < |Pad(m)| - 8
    ensures Pad(m)[k] == if k == |m| then 0x80 else 0
  {
  }

  lemma TwoWords(a: Word, b: Word)
    ensures Words(WordBytes(a) + WordBytes(b)) == [a, b]
  {
    WordBytesInvertWords(a);
    WordBytesInvertWords(b);
    WordsAppend(WordBytes(a), WordBytes(b));
  }

  lemma WordsAppend(a: seq<Byte>, b: seq<Byte>)
    requires |a| % 4 == 0 && |b| % 4 == 0
    ensures Words(a + b) == Words(a) + Words(b)
  {
    var k := |a| / 4;
    forall i | 0 <= i < |a + b| / 4 ensures Words(a + b)[i] == (Words(a) + Words(b))[i] {
      if i >= k { assert 4 * i == |a| + 4 * (i - k); }
    }
  }

  /** Section 3.5: the digest is sixteen bytes that read as the words of the state,
      in order. */
  lemma DigestIs(f: Compression, m: seq<Byte>)
    ensures |Digest(f, m)| == 16 && Words(Digest(f, m)) == Fold(f, IV, Pad(m))
  {
    var h := Fold(f, IV, Pad(m));
    TwoWords(h[0], h[1]);
    TwoWords(h[2], h[3]);
    WordsAppend(WordBytes(h[0]) + WordBytes(h[1]), WordBytes(h[2]) + WordBytes(h[3]));
    assert Digest(f, m) == (WordBytes(h[0]) + WordBytes(h[1])) + (WordBytes(h[2]) + WordBytes(h[3]));
  }

  lemma {:induction false} FoldAppend(f: Compression, h: State, a: seq<Byte>, b: seq<Byte>)
    requires |a| % 64 == 0 && |b| % 64 == 0
    ensures Fold(f, h, a + b) == Fold(f, Fold(f, h, a), b)
    decreases |a|
  {
    if a == [] {
      assert a + b == b;
    } else {
      assert (a + b)[..64] == a[..64] && (a + b)[64..] == a[64..] + b;
      FoldAppend(f, f(h, Words(a[..64])), a[64..], b);
    }
  }

  lemma FoldBlock(f: Compression, h: State, a: seq<Byte>, block: seq<Byte>)
    requires |a| % 64 == 0 && |block| == 64
    ensures Fold(f, h, a + block) == f(Fold(f, h, a), Words(block))
  {
    FoldAppend(f, h, a, block);
    assert block[..64] == block;
    assert Fold(f, f(Fold(f, h, a), Words(block)), block[64..]) == f(Fold(f, h, a), Words(block));
  }

  // ---------- The byte count ----------

  /** The 64-bit length the context keeps as two 32-bit halves. */
  ghost predicate Counts(lo: Word, hi: Word, n: nat) {
    hi * RANGE32 + lo == n % RANGE64
  }

  lemma CountAdd(lo: Word, hi: Word, n: nat, len: Word)
    requires Counts(lo, hi, n)
    ensures var lo' := (lo + len) % RANGE32;
      Counts(lo', if lo' < lo then (hi + 1) % RANGE32 else hi, n + len)
  {
    var q, sum := n / RANGE64, lo + len;
    if sum < RANGE32 {
      Division.Unique(sum, RANGE32, 0, sum);
      Recount(sum, hi, n + len, q);
    } else {
      Division.Unique(sum, RANGE32, 1, sum - RANGE32);
      Division.Unique(hi + 1, RANGE32, if hi + 1 < RANGE32 then 0 else 1, if hi + 1 < RANGE32 then hi + 1 else 0);
      Recount(sum - RANGE32, (hi + 1) % RANGE32, n + len, if hi + 1 < RANGE32 then q else q + 1);
    }
  }

  lemma Recount(lo: Word, hi: Word, n: nat, q: int)
    requires n == RANGE64 * q + (hi * RANGE32 + lo)
    ensures Counts(lo, hi, n)
  {
    Division.Unique(n, RANGE64, q, hi * RANGE32 + lo);
  }

  lemma ModShift(k: int, r: int)
    ensures (64 * k + r) % 64 == r % 64
  {
    Division.Unique(64 * k + r, 64, k + r / 64, r % 64);
  }

  lemma CountBlock(lo: Word, hi: Word, n: nat)
    requires Counts(lo, hi, n)
    ensures lo % 64 == n % 64
  {
    var k := n / RANGE64 * (RANGE64 / 64) + hi * (RANGE32 / 64);
    assert n == 64 * k + lo;
    ModShift(k, lo);
  }

  /** Three bits to the left, as a low word and what leaves it. */
  lemma ShiftWord(w: Word)
    ensures 8 * w == 8 * w % RANGE32 + RANGE32 * (w / 0x2000_0000) && w / 0x2000_0000 < 8
    ensures 8 * w % RANGE32 + 7 < RANGE32
  {
    var q, r := w / 0x2000_0000, w % 0x2000_0000;
    assert w == 0x2000_0000 * q + r;
    Division.Unique(8 * w, RANGE32, q, 8 * r);
  }

  /** Eight times the length, split over the two words that SQUID_MD5Final shifts
      out of its byte count. */
  lemma CountShift(lo: Word, hi: Word, n: nat)
    requires Counts(lo, hi, n)
    ensures var a, b := 8 * lo % RANGE32, 8 * hi % RANGE32 + lo / 0x2000_0000;
      0 <= b < RANGE32 && 8 * n % RANGE64 == b * RANGE32 + a
  {
    ShiftWord(lo);
    ShiftWord(hi);
    var a, b := 8 * lo % RANGE32, 8 * hi % RANGE32 + lo / 0x2000_0000;
    Division.Unique(8 * n, RANGE64, 8 * (n / RANGE64) + hi / 0x2000_0000, b * RANGE32 + a);
  }

  /** The two words appended by SQUID_MD5Final are the bit count of RFC 1321. */
  lemma CountBits(lo: Word, hi: Word, n: nat)
    requires Counts(lo, hi, n)
    ensures 0 <= 8 * hi % RANGE32 + lo / 0x2000_0000 < RANGE32
    ensures BitCount(n) == WordBytes(8 * lo % RANGE32) + WordBytes(8 * hi % RANGE32 + lo / 0x2000_0000)
  {
    CountShift(lo, hi, n);
    Division.Unique(8 * n % RANGE64, RANGE32, 8 * hi % RANGE32 + lo / 0x2000_0000, 8 * lo % RANGE32);
  }

  // ---------- The streaming context ----------

  /** The padded message, cut after the whole blocks of m: one block more when
      marker and count fit behind what is left over, else two. */
  lemma PadCut(done: seq<Byte>, rest: seq<Byte>)
    requires |done| % 64 == 0 && |rest| < 64
    ensures var n, r := |done + rest|, rest + [0x80];
      Pad(done + rest) ==
        if |r| <= 56
        then done + (r + Zeros(56 - |r|) + BitCount(n))
        else done + (r + Zeros(64 - |r|)) + (Zeros(56) + BitCount(n))
  {
    var n, r := |done + rest|, rest + [0x80];
    ZeroCount(|done|, |r|);
    if |r| > 56 {
      assert Zeros(120 - |r|) == Zeros(64 - |r|) + Zeros(56);
    }
  }

  lemma ZeroCount(d: nat, r: nat)
    requires d % 64 == 0 && 1 <= r <= 64
    ensures (55 - (d + r - 1)) % 64 == if r <= 56 then 56 - r else 120 - r
  {
    var q := d / 64;
    if r <= 56 {
      Division.Unique(56 - d - r, 64, -q, 56 - r);
    } else {
      Division.Unique(56 - d - r, 64, -q - 1, 120 - r);
    }
  }

  lemma CutTwice(a: seq<Byte>, b: seq<Byte>, d: seq<Byte>, k: nat)
    requires k <= |d|
    ensures a + b + d == a + (b + d[..k]) + d[k..]
  {
  }

  class Context {
    const f: Compression
    var buf: State
    var bytes0: Word
    var bytes1: Word
    const inp: array<Byte>
    ghost var done: seq<Byte>  // the whole blocks absorbed so far
    ghost var rest: seq<Byte>  // what followed them

    ghost predicate Valid()
      reads this, inp
    {
      && inp.Length == 64
      && Counts(bytes0, bytes1, |done + rest|)
      && |done| % 64 == 0 && |rest| < 64
      && buf == Fold(f, IV, done)
      && inp[..|rest|] == rest
    }

    /** Everything absorbed so far. */
    ghost function Message(): seq<Byte>
      reads this
    {
      done + rest
    }

    /** SQUID_MD5Init */
    constructor (f: Compression)
      ensures Valid() && this.f == f && Message() == [] && fresh(inp)
    {
      this.f := f;
      buf := IV;
      bytes0, bytes1 := 0, 0;
      inp := new Byte[64](_ => 0);
      done, rest := [], [];
    }

    method CopyIn(at: nat, data: seq<Byte>)
      requires at + |data| <= inp.Length
      modifies inp
      ensures inp[..at] == old(inp[..at]) && inp[at..at + |data|] == data
    {
      for i := 0 to |data|
        invariant inp[..at] == old(inp[..at]) && inp[at..at + i] == data[..i]
      {
        inp[at + i] := data[i];
      }
    }

    /** One SQUID_MD5Transform, on a buffer that holds a whole block. */
    method Compress(ghost block: seq<Byte>)
      requires |done| % 64 == 0 && buf == Fold(f, IV, done) && |block| == 64 && inp[..] == block
      modifies this`buf, this`done, this`rest
      ensures done == old(done) + block && rest == [] && |done| % 64 == 0 && buf == Fold(f, IV, done)
    {
      FoldBlock(f, IV, done, block);
      buf := f(buf, Words(inp[..]));
      done, rest := done + block, [];
    }

    /** Adds len to the byte count; fill is the number of bytes buffered. */
    method AddCount(len: Word) returns (fill: nat)
      requires Valid()
      modifies this`bytes0, this`bytes1
      ensures Counts(bytes0, bytes1, |Message()| + len) && fill == |rest|
    {
      CountAdd(bytes0, bytes1, |Message()|, len);
      fill := Fill();
      var t := bytes0;
      bytes0 := (t + len) % RANGE32;
      if bytes0 < t {
        bytes1 := (bytes1 + 1) % RANGE32;
      }
    }

    method Fill() returns (fill: nat)
      requires Valid()
      ensures fill == |rest|
    {
      CountBlock(bytes0, bytes1, |Message()|);
      ModShift(|done| / 64, |rest|);
      fill := bytes0 % 64;
    }

    /** SQUID_MD5Update: absorbs data, whatever the fill of the buffer. */
    method Update(data: seq<Byte>)
      requires Valid() && |data| < RANGE32
      modifies this, inp
      ensures Valid() && Message() == old(Message()) + data
    {
      ghost var m := Message();
      var fill := AddCount(|data|);
      var room := 64 - fill;
      if room > |data| {
        CopyIn(fill, data);
        rest := rest + data;
        assert Message() == m + data;
        return;
      }
      CopyIn(fill, data[..room]);
      ghost var before := done;
      Compress(rest + data[..room]);
      CutTwice(before, old(rest), data, room);
      AbsorbFrom(data[room..]);
    }

    /** The block loop of SQUID_MD5Update and the remaining bytes. */
    method AbsorbFrom(data: seq<Byte>)
      requires inp.Length == 64 && |done| % 64 == 0 && buf == Fold(f, IV, done)
      requires Counts(bytes0, bytes1, |done + data|)
      modifies this`buf, this`done, this`rest, inp
      ensures Valid() && Message() == old(done) + data
    {
      var at := 0;
      while |data| - at >= 64
        invariant 0 <= at <= |data|
        invariant |done| % 64 == 0 && buf == Fold(f, IV, done) && old(done) + data == done + data[at..]
      {
        CopyIn(0, data[at..at + 64]);
        assert data[at..] == data[at..at + 64] + data[at + 64..];
        Compress(data[at..at + 64]);
        at := at + 64;
      }
      CopyIn(0, data[at..]);
      rest := data[at..];
    }

    /** SQUID_MD5Final: the digest of everything absorbed. */
    method Final() returns (digest: seq<Byte>)
      requires Valid()
      modifies this, inp
      ensures digest == Digest(f, old(Message()))
    {
      AppendPadding();
      digest := WordBytes(buf[0]) + WordBytes(buf[1]) + WordBytes(buf[2]) + WordBytes(buf[3]);
      buf := buf[0 := 0];  // only a pointer-sized prefix of the context is cleared
    }

    method AppendPadding()
      requires Valid()
      modifies this`buf, this`done, this`rest, inp
      ensures done == Pad(old(Message())) && buf == Fold(f, IV, done)
    {
      ghost var n := |Message()|;
      PadCut(done, rest);
      var fill := Fill();
      CopyIn(fill, [0x80]);
      ghost var tail := rest + [0x80];
      var at := fill + 1;
      assert inp[..at] == tail;
      if 56 - 1 - fill as int < 0 {
        ExtraBlock(at, tail);
        LastBlock(0, [], n);
        assert [] + Zeros(56) == Zeros(56);
      } else {
        LastBlock(at, tail, n);
      }
    }

    /** Zeros up to the count, and the count. */
    method LastBlock(at: nat, ghost tail: seq<Byte>, ghost n: nat)
      requires inp.Length == 64 && |done| % 64 == 0 && buf == Fold(f, IV, done)
      requires |tail| == at <= 56 && inp[..at] == tail && Counts(bytes0, bytes1, n)
      modifies this`buf, this`done, this`rest, inp
      ensures done == old(done) + (tail + Zeros(56 - at) + BitCount(n)) && |done| % 64 == 0 && buf == Fold(f, IV, done)
    {
      CopyIn(at, Zeros(56 - at));
      assert inp[..56] == inp[..at] + inp[at..56];
      AppendCount(tail + Zeros(56 - at), n);
    }

    /** Padding forces an extra block: fill the current one up and transform it. */
    method ExtraBlock(at: nat, ghost tail: seq<Byte>)
      requires inp.Length == 64 && |done| % 64 == 0 && buf == Fold(f, IV, done)
      requires |tail| == at <= 64 && inp[..at] == tail
      modifies this`buf, this`done, this`rest, inp
      ensures done == old(done) + (tail + Zeros(64 - at)) && |done| % 64 == 0 && buf == Fold(f, IV, done)
    {
      CopyIn(at, Zeros(64 - at));
      assert inp[..] == inp[..at] + inp[at..64];
      Compress(tail + Zeros(64 - at));
    }

    /** Append the length in bits, as the words in[14] and in[15], and transform. */
    method AppendCount(ghost filled: seq<Byte>, ghost n: nat)
      requires inp.Length == 64 && |done| % 64 == 0 && buf == Fold(f, IV, done)
      requires |filled| == 56 && inp[..56] == filled && Counts(bytes0, bytes1, n)
      modifies this`buf, this`done, this`rest, inp
      ensures |done| % 64 == 0 && done == old(done) + (filled + BitCount(n)) && buf == Fold(f, IV, done)
    {
      CountBits(bytes0, bytes1, n);
      CopyIn(56, WordBytes(8 * bytes0 % RANGE32) + WordBytes(8 * bytes1 % RANGE32 + bytes0 / 0x2000_0000));
      Compress(filled + BitCount(n));
    }
  }

  // ---------- Independence from how the input is cut ----------

  function Concat(pieces: seq<seq<Byte>>): seq<Byte> {
    if pieces == [] then [] else Concat(pieces[..|pieces| - 1]) + pieces[|pieces| - 1]
  }

  /** Init, one Update per piece, Final: the digest of the concatenation. */
  method HashPieces(f: Compression, pieces: seq<seq<Byte>>) returns (digest: seq<Byte>)
    requires forall p | p in pieces :: |p| < RANGE32
    ensures digest == Digest(f, Concat(pieces))
  {
    var ctx := new Context(f);
    for i := 0 to |pieces|
      invariant ctx.Valid() && ctx.f == f && fresh(ctx) && fresh(ctx.inp)
      invariant ctx.Message() == Concat(pieces[..i])
    {
      ctx.Update(pieces[i]);
      assert pieces[..i + 1][..i] == pieces[..i];
    }
    assert pieces[..|pieces|] == pieces;
    digest := ctx.Final();
  }
}
