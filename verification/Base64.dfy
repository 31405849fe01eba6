/** Base64 as squid-2.7.STABLE9/lib/base64.c has it, over the alphabet of section
    4 of RFC 4648, with its fixed result buffers. */
module Base64 {

  type Byte = b: int | 0 <= b < 256

  const RESULT_SZ := 8192
  const PAD: Byte := 0x3D  // '='

  /** The alphabet: A-Z, a-z, 0-9, + and /. */
  function Code(v: nat): Byte
    requires v < 64
  {
    if v < 26 then 0x41 + v
    else if v < 52 then 0x61 + v - 26
    else if v < 62 then 0x30 + v - 52
    else if v == 62 then 0x2B
    else 0x2F
  }

  /** The meaning of a character; negative when it is not in the alphabet.  The
      padding character counts as zero. */
  function Value(c: Byte): (v: int)
    ensures -1 <= v < 64
  {
    if 0x41 <= c <= 0x5A then c - 0x41
    else if 0x61 <= c <= 0x7A then c - 0x61 + 26
    else if 0x30 <= c <= 0x39 then c - 0x30 + 52
    else if c == 0x2B then 62
    else if c == 0x2F then 63
    else if c == PAD then 0
    else -1
  }

  lemma CodeValue(v: nat)
    requires v < 64
    ensures Code(v) != 0 && Code(v) != PAD && Value(Code(v)) == v
  {
  }

  lemma ValueCode(c: Byte)
    requires Value(c) >= 0 && c != PAD
    ensures Code(Value(c)) == c
  {
  }

  // ---------- The code on whole strings ----------

  function Word(a: int, b: int, c: int): int { a * 0x1_0000 + b * 0x100 + c }

  /** The four characters of 24 bits. */
  function Quantum(n: int): (q: seq<Byte>)
    requires 0 <= n < 0x100_0000
    ensures |q| == 4
  {
    [Code(n / 0x4_0000), Code(n / 0x1000 % 64), Code(n / 64 % 64), Code(n % 64)]
  }

  /** One to three bytes as 24 bits, with zeros for those that are missing. */
  function WordOf(g: seq<Byte>): int
    requires 1 <= |g| <= 3
  {
    Word(g[0], if |g| > 1 then g[1] else 0, if |g| > 2 then g[2] else 0)
  }

  /** The four characters of one to three bytes. */
  function Group(g: seq<Byte>): seq<Byte> {
    if |g| == 1 then WordBound(g); Quantum(WordOf(g))[..2] + [PAD, PAD]
    else if |g| == 2 then WordBound(g); Quantum(WordOf(g))[..3] + [PAD]
    else if |g| == 3 then WordBound(g); Quantum(WordOf(g))
    else []
  }

  /** The encoding as groups of three bytes, for any coding of groups. */
  function EncodeBy(f: seq<Byte> -> seq<Byte>, d: seq<Byte>): seq<Byte> {
    if d == [] then [] else if |d| <= 3 then f(d) else f(d[..3]) + EncodeBy(f, d[3..])
  }

  function Encode(d: seq<Byte>): seq<Byte> { EncodeBy(Group, d) }

  lemma WordBound(g: seq<Byte>)
    requires 1 <= |g| <= 3
    ensures 0 <= WordOf(g) < 0x100_0000
  {
  }

  /** The values of the characters up to the terminator, others skipped. */
  function Values(p: seq<Byte>): (vs: seq<int>)
    ensures forall i | 0 <= i < |vs| :: 0 <= vs[i] < 64
  {
    if p == [] || p[0] == 0 then []
    else (if Value(p[0]) < 0 then [] else [Value(p[0])]) + Values(p[1..])
  }

  /** The three bytes of 24 bits. */
  function Bytes(n: int): (b: seq<Byte>)
    requires 0 <= n < 0x100_0000
    ensures |b| == 3
  {
    [n / 0x1_0000, n / 0x100 % 0x100, n % 0x100]
  }

  function Join(v0: int, v1: int, v2: int, v3: int): int { ((v0 * 64 + v1) * 64 + v2) * 64 + v3 }

  lemma JoinBound(v0: int, v1: int, v2: int, v3: int)
    requires 0 <= v0 < 64 && 0 <= v1 < 64 && 0 <= v2 < 64 && 0 <= v3 < 64
    ensures 0 <= Join(v0, v1, v2, v3) < 0x100_0000
  {
  }

  function DecodeValues(vs: seq<int>): seq<Byte>
    requires forall i | 0 <= i < |vs| :: 0 <= vs[i] < 64
  {
    if |vs| < 4 then []
    else JoinBound(vs[0], vs[1], vs[2], vs[3]); Bytes(Join(vs[0], vs[1], vs[2], vs[3])) + DecodeValues(vs[4..])
  }

  /** How many bytes are missing to a multiple of three. */
  function Missing(n: nat): nat { (3 - n % 3) % 3 }

  function Zeros(n: nat): seq<Byte> { seq(n, _ => 0) }

  // ---------- Round trip ----------

  lemma Digits256(x: int, r: Byte)
    ensures (x * 0x100 + r) / 0x100 == x && (x * 0x100 + r) % 0x100 == r
  {
  }

  lemma BytesOfWord(a: Byte, b: Byte, c: Byte)
    ensures 0 <= Word(a, b, c) < 0x100_0000 && Bytes(Word(a, b, c)) == [a, b, c]
  {
    var x := a as int * 0x100 + b as int;
    var n := Word(a, b, c);
    assert n == x * 0x100 + c;
    Digits256(x, c);
    Digits256(a, b);
    assert n / 0x1_0000 == n / 0x100 / 0x100;
  }

  lemma Sextets(n: int)
    requires 0 <= n < 0x100_0000
    ensures Join(n / 0x4_0000, n / 0x1000 % 64, n / 64 % 64, n % 64) == n
  {
    var x := n / 64;
    var y := x / 64;
    assert n / 0x1000 == y && n / 0x4_0000 == y / 64;
  }

  lemma ValuesOfFour(q: seq<Byte>, rest: seq<Byte>)
    requires |q| == 4 && forall i | 0 <= i < 4 :: q[i] != 0 && Value(q[i]) >= 0
    ensures Values(q + rest) == [Value(q[0]), Value(q[1]), Value(q[2]), Value(q[3])] + Values(rest)
  {
    var p := q + rest;
    assert p[1..][1..] == p[2..] && p[2..][1..] == p[3..] && p[3..][1..] == rest;
    assert Values(p[3..]) == [Value(q[3])] + Values(rest);
    assert Values(p[2..]) == [Value(q[2])] + Values(p[3..]);
    assert Values(p[1..]) == [Value(q[1])] + Values(p[2..]);
  }

  /** One quantum of text, whose values join to n, decodes to the bytes of n. */
  lemma DecodeQuantum(q: seq<Byte>, rest: seq<Byte>, n: int)
    requires 0 <= n < 0x100_0000 && Spells(q, n)
    ensures DecodeValues(Values(q + rest)) == Bytes(n) + DecodeValues(Values(rest))
  {
    ValuesOfFour(q, rest);
    assert Values(q + rest)[4..] == Values(rest);
  }

  /** Four characters that are read, and whose values join to n. */
  ghost predicate Spells(q: seq<Byte>, n: int) {
    && |q| == 4 && (forall i | 0 <= i < 4 :: q[i] != 0 && Value(q[i]) >= 0)
    && n == Join(Value(q[0]), Value(q[1]), Value(q[2]), Value(q[3]))
  }

  lemma QuantumSpells(n: int)
    requires 0 <= n < 0x100_0000
    ensures Spells(Quantum(n), n)
    ensures n % 64 == 0 ==> Spells(Quantum(n)[..3] + [PAD], n)
    ensures n % 0x1000 == 0 ==> Spells(Quantum(n)[..2] + [PAD, PAD], n)
  {
    Sextets(n);
    CodeValue(n / 0x4_0000);
    CodeValue(n / 0x1000 % 64);
    CodeValue(n / 64 % 64);
    CodeValue(n % 64);
    if n % 0x1000 == 0 {
      LowSextets(n);
    }
  }

  lemma LowSextets(n: int)
    requires 0 <= n && n % 0x1000 == 0
    ensures n % 64 == 0 && n / 64 % 64 == 0
  {
    var k := n / 0x1000;
    assert n == 64 * (64 * k);
  }

  lemma ShortGroups(g: seq<Byte>)
    requires 1 <= |g| <= 3
    ensures |g| == 1 ==> WordOf(g) % 0x1000 == 0
    ensures |g| == 2 ==> WordOf(g) % 64 == 0
  {
    if |g| == 1 {
      Multiple(0x1000, 16 * g[0] as int);
      assert WordOf(g) == 0x1000 * (16 * g[0] as int);
    } else if |g| == 2 {
      Multiple(64, 1024 * g[0] as int + 4 * g[1] as int);
      assert WordOf(g) == 64 * (1024 * g[0] as int + 4 * g[1] as int);
    }
  }

  lemma PadForms(n: int, g: seq<Byte>)
    requires 1 <= |g| <= 3 && n == WordOf(g) && 0 <= n < 0x100_0000
    ensures Group(g) == if |g| == 1 then Quantum(n)[..2] + [PAD, PAD] else if |g| == 2 then Quantum(n)[..3] + [PAD] else Quantum(n)
  {
  }

  /** A group, padded or not, spells its bytes. */
  lemma GroupSpells(g: seq<Byte>)
    requires 1 <= |g| <= 3
    ensures Spells(Group(g), WordOf(g))
  {
    WordBound(g);
    ShortGroups(g);
    var n := WordOf(g);
    PadForms(n, g);
    QuantumSpells(n);
  }

  lemma Multiple(m: int, k: int)
    requires m == 64 || m == 0x1000
    ensures m * k % m == 0
  {
  }

  lemma BytesOfGroup(g: seq<Byte>)
    requires 1 <= |g| <= 3
    ensures 0 <= WordOf(g) < 0x100_0000 && Bytes(WordOf(g)) == g + Zeros(3 - |g|)
  {
    BytesOfWord(g[0], if |g| > 1 then g[1] else 0, if |g| > 2 then g[2] else 0);
  }

  lemma GroupDecodes(g: seq<Byte>, rest: seq<Byte>)
    requires 1 <= |g| <= 3
    ensures DecodeValues(Values(Group(g) + rest)) == g + Zeros(3 - |g|) + DecodeValues(Values(rest))
  {
    GroupSpells(g);
    BytesOfGroup(g);
    DecodeQuantum(Group(g), rest, WordOf(g));
  }

  /** Decoder dec reads what f writes. */
  ghost predicate Reads(dec: seq<Byte> -> seq<Byte>, f: seq<Byte> -> seq<Byte>) {
    && dec([]) == []
    && forall g, rest {:trigger dec(f(g) + rest)} | 1 <= |g| <= 3 :: dec(f(g) + rest) == g + Zeros(3 - |g|) + dec(rest)
  }

  lemma PadLater(g: seq<Byte>, rest: seq<Byte>, d: seq<Byte>)
    requires |g| == 3 && d == g + rest
    ensures g + Zeros(0) + (rest + Zeros(Missing(|rest|))) == d + Zeros(Missing(|d|))
  {
    assert Missing(|d|) == Missing(|rest|);
  }

  lemma {:induction false} RoundTripBy(dec: seq<Byte> -> seq<Byte>, f: seq<Byte> -> seq<Byte>, d: seq<Byte>)
    requires Reads(dec, f)
    ensures dec(EncodeBy(f, d)) == d + Zeros(Missing(|d|))
    decreases |d|
  {
    if d == [] {
      assert d + Zeros(Missing(0)) == [];
    } else if |d| <= 3 {
      assert f(d) + [] == f(d);
      assert dec(f(d) + []) == d + Zeros(3 - |d|) + [];
    } else {
      var g, rest := d[..3], d[3..];
      assert d == g + rest;
      assert dec(f(g) + EncodeBy(f, rest)) == g + Zeros(0) + dec(EncodeBy(f, rest));
      RoundTripBy(dec, f, rest);
      PadLater(g, rest, d);
    }
  }

  function DecodeText(p: seq<Byte>): seq<Byte> { DecodeValues(Values(p)) }

  /** Decoding what was encoded gives the bytes back, followed only by zeros up
      to a multiple of three. */
  lemma RoundTrip(d: seq<Byte>)
    ensures DecodeValues(Values(Encode(d))) == d + Zeros(Missing(|d|))
  {
    forall g: seq<Byte>, rest: seq<Byte> | 1 <= |g| <= 3
      ensures DecodeText(Group(g) + rest) == g + Zeros(3 - |g|) + DecodeText(rest)
    {
      GroupDecodes(g, rest);
    }
    RoundTripBy(DecodeText, Group, d);
  }

  /** Characters outside the alphabet, other than NUL and the padding, can be
      inserted anywhere without changing the decoding. */
  lemma {:induction false} JunkIgnored(x: seq<Byte>, junk: seq<Byte>, y: seq<Byte>)
    requires forall i | 0 <= i < |junk| :: junk[i] != 0 && Value(junk[i]) < 0
    ensures Values(x + junk + y) == Values(x + y)
    decreases |x|, |junk|
  {
    if x != [] {
      assert (x + junk + y)[1..] == x[1..] + junk + y && (x + y)[1..] == x[1..] + y;
      JunkIgnored(x[1..], junk, y);
    } else if junk != [] {
      assert (x + junk + y)[1..] == [] + junk[1..] + y && x + y == [] + y;
      JunkIgnored([], junk[1..], y);
    } else {
      assert x + junk + y == x + y;
    }
  }

  // ---------- The code with its buffers ----------

  ghost predicate Initialized(table: array<int>)
    reads table
  {
    table.Length == 256 && forall c: Byte :: table[c] == Value(c)
  }

  /** base64_init */
  method Init() returns (table: array<int>)
    ensures fresh(table) && Initialized(table)
  {
    table := new int[256](_ => -1);
    for i := 0 to 64
      invariant forall c: Byte :: table[c] == if c != PAD && 0 <= Value(c) < i then Value(c) else -1
    {
      table[Code(i)] := i;
    }
    table[PAD] := 0;
  }

  lemma {:induction false} EncodeAppend(f: seq<Byte> -> seq<Byte>, x: seq<Byte>, y: seq<Byte>, k: nat)
    requires |x| == 3 * k
    ensures EncodeBy(f, x + y) == EncodeBy(f, x) + EncodeBy(f, y)
    decreases k
  {
    if k == 0 {
      assert x == [] && x + y == y;
    } else {
      assert (x + y)[3..] == x[3..] + y && (x + y)[..3] == x[..3];
      assert k == 1 ==> x[..3] == x && x[3..] == [];
      EncodeAppend(f, x[3..], y, k - 1);
      if y == [] { assert x + y == x; }
    }
  }

  /** The bytes from 3 * k on, at most three of them, extend the encoding. */
  lemma EncodeExtended(f: seq<Byte> -> seq<Byte>, data: seq<Byte>, k: nat, i: nat)
    requires 3 * k < i <= 3 * k + 3 && i <= |data|
    ensures EncodeBy(f, data[..i]) == EncodeBy(f, data[..3 * k]) + f(data[3 * k..i])
  {
    assert data[..i] == data[..3 * k] + data[3 * k..i];
    EncodeAppend(f, data[..3 * k], data[3 * k..i], k);
  }

  /** The most that base64_encode_bin encodes. */
  const ENCODE_MAX := 6141

  function Encodable(data: seq<Byte>): seq<Byte> {
    if |data| <= ENCODE_MAX then data else data[..ENCODE_MAX]
  }

  /** f codes groups as Group does. */
  ghost predicate CodesGroups(f: seq<Byte> -> seq<Byte>) {
    forall g: seq<Byte> {:trigger Group(g)} | 1 <= |g| <= 3 :: f(g) == Group(g)
  }

  /** Writes the characters of a group; n holds its bits. */
  method PutGroup(result: array<Byte>, at: nat, charCount: nat, n: int, ghost f: seq<Byte> -> seq<Byte>, ghost g: seq<Byte>)
    requires at + 4 <= result.Length && CodesGroups(f) && charCount == |g| && 1 <= |g| <= 3 && n == WordOf(g)
    modifies result
    ensures result[at..at + 4] == f(g) && result[..at] == old(result[..at])
  {
    WordBound(g);
    result[at] := Code(n / 0x4_0000);
    result[at + 1] := Code(n / 0x1000 % 64);
    result[at + 2] := if charCount == 1 then PAD else Code(n / 64 % 64);
    result[at + 3] := if charCount <= 2 then PAD else Code(n % 64);
    assert result[at..at + 4] == Group(g);
  }

  /** What the encoding loop has read of a group, shifted as far as it does. */
  function Pending(data: seq<Byte>, i: nat, charCount: nat): int
    requires charCount <= i <= |data|
  {
    if charCount == 0 then 0
    else if charCount == 1 then data[i - 1] as int * 0x100
    else if charCount == 2 then (data[i - 2] as int * 0x100 + data[i - 1] as int) * 0x100
    else if charCount == 3 then (data[i - 3] as int * 0x100 + data[i - 2] as int) * 0x100 + data[i - 1] as int
    else 0
  }

  /** Writes group k, the bytes from 3 * k up to i, behind those before it. */
  method Extend(data: seq<Byte>, result: array<Byte>, ghost k: nat, i: nat, charCount: nat, at: nat, bits: int,
                ghost f: seq<Byte> -> seq<Byte>)
    requires 1 <= charCount <= 3 && i == 3 * k + charCount <= |data|
    requires at + 4 <= result.Length && CodesGroups(f) && result[..at] == EncodeBy(f, data[..3 * k])
    requires bits == Pending(data, i, charCount)
    modifies result
    ensures result[..at + 4] == EncodeBy(f, data[..i])
  {
    EncodeExtended(f, data, k, i);
    PutGroup(result, at, charCount, if charCount == 1 then bits * 0x100 else bits, f, data[3 * k..i]);
    assert result[..at + 4] == result[..at] + result[at..at + 4];
  }

  lemma Exhausted(data: seq<Byte>, i: nat, k: nat, charCount: nat)
    requires i == 3 * k + charCount <= |data| && charCount < 3 && 4 * k <= RESULT_SZ - 4
    requires i == |data| || 4 * k >= RESULT_SZ - 5
    requires charCount != 0 ==> 4 * k < RESULT_SZ - 5
    ensures data[..i] == Encodable(data)
  {
  }

  method EncodeLoop(data: seq<Byte>, result: array<Byte>, ghost f: seq<Byte> -> seq<Byte>) returns (outCnt: nat)
    requires result.Length == RESULT_SZ && CodesGroups(f)
    modifies result
    ensures outCnt < RESULT_SZ && result[..outCnt] == EncodeBy(f, Encodable(data))
  {
    outCnt := 0;
    var i, bits: int, charCount := 0, 0, 0;
    ghost var k := 0;  // groups written
    while i < |data| && outCnt < RESULT_SZ - 5
      invariant 0 <= i <= |data| && i == 3 * k + charCount && 0 <= charCount < 3
      invariant outCnt == 4 * k <= RESULT_SZ - 4 && result[..outCnt] == EncodeBy(f, data[..3 * k])
      invariant bits == Pending(data, i, charCount) && (charCount != 0 ==> outCnt < RESULT_SZ - 5)
    {
      bits := bits + data[i] as int;
      charCount := charCount + 1;
      i := i + 1;
      if charCount == 3 {
        Extend(data, result, k, i, 3, outCnt, bits, f);
        outCnt := outCnt + 4;
        bits, charCount, k := 0, 0, k + 1;
      } else {
        bits := bits * 0x100;
      }
    }
    Exhausted(data, i, k, charCount);
    if charCount != 0 {
      Extend(data, result, k, i, charCount, outCnt, bits, f);
      outCnt := outCnt + 4;
    }
  }

  /** base64_encode_bin: the text and its length in a buffer of RESULT_SZ. */
  method EncodeBin(data: seq<Byte>) returns (result: array<Byte>, outCnt: nat)
    ensures fresh(result) && result.Length == RESULT_SZ && outCnt < RESULT_SZ && result[outCnt] == 0
    ensures result[..outCnt] == Encode(Encodable(data))
  {
    result := new Byte[RESULT_SZ](_ => 0);
    outCnt := EncodeLoop(data, result, Group);
    result[outCnt] := 0;
  }

  // ---------- Decoding with its buffer ----------

  ghost predicate Sixes(vs: seq<int>) { forall i | 0 <= i < |vs| :: 0 <= vs[i] < 64 }

  lemma {:induction false} DecodeAppend(x: seq<int>, y: seq<int>, k: nat)
    requires |x| == 4 * k && Sixes(x) && Sixes(y) && Sixes(x + y)
    ensures DecodeValues(x + y) == DecodeValues(x) + DecodeValues(y) && |DecodeValues(x)| == 3 * k
    decreases k
  {
    if k == 0 {
      assert x == [] && x + y == y;
    } else {
      assert (x + y)[4..] == x[4..] + y;
      DecodeAppend(x[4..], y, k - 1);
    }
  }

  /** The most that base64_decode stores. */
  const DECODE_MAX := 8190

  function Stored(d: seq<Byte>): seq<Byte> { if |d| <= DECODE_MAX then d else d[..DECODE_MAX] }

  /** The value accumulated over an incomplete quantum. */
  function Accumulated(c: seq<int>): int {
    if c == [] then 0 else Accumulated(c[..|c| - 1]) * 64 + c[|c| - 1]
  }

  method LookUp(table: array<int>, c: Byte) returns (v: int)
    requires Initialized(table)
    ensures v == Value(c)
  {
    v := table[c];
  }

  /** Whole quanta done are stored in result; part of the next is in val. */
  ghost predicate Decoding(result: array<Byte>, j: nat, val: int, done: seq<int>, part: seq<int>, k: nat)
    reads result
  {
    && result.Length == RESULT_SZ
    && Sixes(done) && Sixes(part) && |part| < 4 && |done| == 4 * k && val == Accumulated(part)
    && j == 3 * k <= DECODE_MAX && result[..j] == DecodeValues(done)
    && (part != [] ==> j + 4 < RESULT_SZ)
  }

  /** What the loop does with the value of one character. */
  method Feed(result: array<Byte>, j: nat, c: nat, val: int, v: int, ghost done: seq<int>, ghost part: seq<int>, ghost k: nat)
    returns (j': nat, c': nat, val': int, ghost done': seq<int>, ghost part': seq<int>, ghost k': nat)
    requires Decoding(result, j, val, done, part, k) && c == |part| && j + 4 < RESULT_SZ && 0 <= v < 64
    modifies result
    ensures Decoding(result, j', val', done', part', k') && c' == |part'| && done' + part' == done + part + [v]
  {
    val' := val * 64 + v;
    c' := c + 1;
    assert (part + [v])[..|part|] == part;
    if c' < 4 {
      j', done', part', k' := j, done, part + [v], k;
    } else {
      j' := Store(result, j, done, part + [v], val', k);
      done', part', k' := done + (part + [v]), [], k + 1;
      val', c' := 0, 0;
    }
  }

  /** The scanning loop of base64_decode, up to where it stops. */
  method DecodeLoop(p: seq<Byte>, table: array<int>, result: array<Byte>)
    returns (j: nat, ghost i: nat, ghost val: int, ghost done: seq<int>, ghost part: seq<int>, ghost k: nat)
    requires Initialized(table) && result.Length == RESULT_SZ
    modifies result
    ensures Decoding(result, j, val, done, part, k)
    ensures i <= |p| && Values(p) == done + part + Values(p[i..])
    ensures i == |p| || p[i] == 0 || j + 4 >= RESULT_SZ
  {
    var at, bits, c := 0, 0, 0;
    j, done, part, k := 0, [], [], 0;
    assert p[0..] == p;
    while at < |p| && p[at] != 0 && j + 4 < RESULT_SZ
      invariant 0 <= at <= |p| && Initialized(table)
      invariant Decoding(result, j, bits, done, part, k) && c == |part|
      invariant Values(p) == done + part + Values(p[at..])
      decreases |p| - at
    {
      var v := LookUp(table, p[at]);
      ScanOne(p, at, done + part, v);
      at := at + 1;
      if v < 0 {
        continue;
      }
      j, c, bits, done, part, k := Feed(result, j, c, bits, v, done, part, k);
    }
    i, val := at, bits;
  }

  /** base64_decode: the bytes and their number in a buffer of RESULT_SZ. */
  method Decode(p: seq<Byte>) returns (result: array<Byte>, j: nat)
    ensures fresh(result) && result.Length == RESULT_SZ && j < RESULT_SZ && result[j] == 0
    ensures result[..j] == Stored(DecodeValues(Values(p)))
  {
    var table := Init();
    result := new Byte[RESULT_SZ](_ => 0);
    ghost var i, val, done, part, k;
    j, i, val, done, part, k := DecodeLoop(p, table, result);
    AllStored(p, i, done, part, k);
    result[j] := 0;
  }

  lemma BufferFull(k: nat)
    requires 3 * k <= DECODE_MAX && 3 * k + 4 >= RESULT_SZ
    ensures 3 * k == DECODE_MAX
  {
    assert k == 2730;
  }

  lemma AllStored(p: seq<Byte>, i: nat, done: seq<int>, part: seq<int>, k: nat)
    requires i <= |p| && Values(p) == done + part + Values(p[i..])
    requires Sixes(done) && Sixes(part) && |done| == 4 * k && |part| < 4 && 3 * k <= DECODE_MAX
    requires part != [] ==> 3 * k + 4 < RESULT_SZ
    requires i == |p| || p[i] == 0 || 3 * k + 4 >= RESULT_SZ
    ensures Stored(DecodeValues(Values(p))) == DecodeValues(done)
  {
    if i < |p| && p[i] != 0 {
      BufferFull(k);
    }
    DecodeStops(done, part, Values(p[i..]), k);
  }

  lemma ScanOne(p: seq<Byte>, i: nat, read: seq<int>, v: int)
    requires i < |p| && p[i] != 0 && v == Value(p[i]) && Values(p) == read + Values(p[i..])
    ensures Values(p) == (if v < 0 then read else read + [v]) + Values(p[i + 1..])
  {
    assert p[i..][1..] == p[i + 1..];
    if v >= 0 {
      assert read + ([v] + Values(p[i + 1..])) == read + [v] + Values(p[i + 1..]);
    } else {
      assert [] + Values(p[i + 1..]) == Values(p[i + 1..]);
    }
  }

  method Store(result: array<Byte>, at: nat, ghost done: seq<int>, ghost part: seq<int>, val: int, ghost k: nat)
    returns (j: nat)
    requires result.Length == RESULT_SZ && at + 4 < RESULT_SZ
    requires Sixes(done) && Sixes(part) && |part| == 4 && |done| == 4 * k && val == Accumulated(part)
    requires result[..at] == DecodeValues(done)
    modifies result
    ensures Sixes(done + part)
    ensures j == at + 3 && result[..j] == DecodeValues(done + part)
  {
    ghost var b := Grown(done, part, k);
    PutBytes(result, at, val, b);
    j := at + 3;
    assert result[..j] == result[..at] + result[at..j];
  }

  method PutBytes(result: array<Byte>, at: nat, val: int, ghost b: seq<Byte>)
    requires at + 3 <= result.Length && 0 <= val < 0x100_0000 && b == Bytes(val)
    modifies result
    ensures result[..at] == old(result[..at]) && result[at..at + 3] == b
  {
    result[at] := val / 0x1_0000;
    result[at + 1] := val / 0x100 % 0x100;
    result[at + 2] := val % 0x100;
  }

  lemma Grown(done: seq<int>, part: seq<int>, k: nat) returns (b: seq<Byte>)
    requires Sixes(done) && Sixes(part) && |part| == 4 && |done| == 4 * k
    ensures Sixes(done + part)
    ensures DecodeValues(done + part) == DecodeValues(done) + b && |b| == 3
    ensures 0 <= Accumulated(part) < 0x100_0000 && b == Bytes(Accumulated(part))
  {
    AccumulatedFour(part);
    DecodeAppend(done, part, k);
    b := Bytes(Accumulated(part));
  }

  lemma AccumulatedFour(c: seq<int>)
    requires |c| == 4 && Sixes(c)
    ensures Accumulated(c) == Join(c[0], c[1], c[2], c[3]) && 0 <= Accumulated(c) < 0x100_0000
    ensures DecodeValues(c) == Bytes(Accumulated(c))
  {
    assert c[..3][..2] == c[..2] && c[..2][..1] == c[..1] && c[..1][..0] == [];
    assert Accumulated(c[..1]) == c[0];
    assert Accumulated(c[..2]) == c[0] * 64 + c[1];
    assert Accumulated(c[..3]) == (c[0] * 64 + c[1]) * 64 + c[2];
    assert c[4..] == [];
  }

  /** Where the loop stops, what is stored is all, or as much as fits. */
  lemma DecodeStops(done: seq<int>, part: seq<int>, rest: seq<int>, k: nat)
    requires Sixes(done) && Sixes(part) && Sixes(rest) && |done| == 4 * k && |part| < 4 && 3 * k <= DECODE_MAX
    requires rest == [] || (3 * k == DECODE_MAX && part == [])
    ensures Sixes(done + part + rest) && Stored(DecodeValues(done + part + rest)) == DecodeValues(done)
  {
    var y := part + rest;
    assert done + part + rest == done + y;
    DecodeAppend(done, y, k);
  }

  /** Encoding and then decoding any byte string that fits the buffer. */
  method Transfer(data: seq<Byte>) returns (back: seq<Byte>)
    requires |data| <= ENCODE_MAX
    ensures back == data + Zeros(Missing(|data|))
  {
    var text, n := EncodeBin(data);
    var bytes, m := Decode(text[..n + 1]);
    back := bytes[..m];
    assert text[..n + 1] == Encode(data) + [0];
    TerminatorEnds(Encode(data));
    RoundTrip(data);
  }

  lemma {:induction false} TerminatorEnds(p: seq<Byte>)
    ensures Values(p + [0]) == Values(p)
  {
    if p != [] {
      assert (p + [0])[1..] == p[1..] + [0];
      TerminatorEnds(p[1..]);
    }
  }
}
