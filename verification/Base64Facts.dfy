/** What the base64 of Base64.dfy is, without its own encoding functions: the text
    of some bytes is the same number, written to base 64 instead of 256, in the
    digits and with the padding of section 4 of RFC 4648. */
module Base64Facts {
  import opened Base64

  const ALPHABET: seq<string> := [
    "ABCDEFGH", "IJKLMNOP", "QRSTUVWX", "YZabcdef", "ghijklmn", "opqrstuv", "wxyz0123", "456789+/"
  ]

  /** The alphabet and the padding, spelled out. */
  lemma AlphabetSpelled(r: nat, c: nat)
    requires r < 8 && c < 8
    ensures |ALPHABET[r]| == 8 && Code(8 * r + c) == ALPHABET[r][c] as int && PAD == '=' as int
  {
  }

  /** Digits to a base, the most significant first. */
  function Number(base: int, s: seq<int>): int {
    if s == [] then 0 else Number(base, s[..|s| - 1]) * base + s[|s| - 1]
  }

  lemma NumberOne(base: int, s: seq<int>, v: int)
    ensures Number(base, s + [v]) == Number(base, s) * base + v
  {
    assert (s + [v])[..|s + [v]| - 1] == s;
  }

  lemma NumberFour(s: seq<int>, a: int, b: int, c: int, d: int)
    ensures Number(64, s + [a, b, c, d]) == Number(64, s) * 0x100_0000 + Join(a, b, c, d)
  {
    NumberOne(64, s, a);
    NumberOne(64, s + [a], b);
    NumberOne(64, s + [a] + [b], c);
    NumberOne(64, s + [a] + [b] + [c], d);
    assert s + [a, b, c, d] == s + [a] + [b] + [c] + [d];
  }

  lemma NumberThree(s: seq<int>, a: int, b: int, c: int)
    ensures Number(256, s + [a, b, c]) == Number(256, s) * 0x100_0000 + Word(a, b, c)
  {
    NumberOne(256, s, a);
    NumberOne(256, s + [a], b);
    NumberOne(256, s + [a] + [b], c);
    assert s + [a, b, c] == s + [a] + [b] + [c];
  }

  lemma BytesAreDigits(n: int)
    requires 0 <= n < 0x100_0000
    ensures var b := Bytes(n); n == Word(b[0], b[1], b[2])
  {
    assert n == n / 0x100 * 0x100 + n % 0x100;
    assert n / 0x100 == n / 0x100 / 0x100 * 0x100 + n / 0x100 % 0x100;
    assert n / 0x100 / 0x100 == n / 0x1_0000;
  }

  /** Decoding keeps the number. */
  lemma {:induction false} DecodingKeepsNumber(vs: seq<int>, k: nat)
    requires |vs| == 4 * k && Sixes(vs)
    ensures Number(256, DecodeValues(vs)) == Number(64, vs)
    decreases k
  {
    if k > 0 {
      var n := 4 * (k - 1);
      var x, y := vs[..n], vs[n..];
      assert vs == x + y;
      DecodeAppend(x, y, k - 1);
      DecodingKeepsNumber(x, k - 1);
      LastQuantum(x, y);
    }
  }

  lemma LastQuantum(x: seq<int>, y: seq<int>)
    requires Sixes(x) && Sixes(y) && |y| == 4
    requires Number(256, DecodeValues(x)) == Number(64, x)
    ensures Number(256, DecodeValues(x) + DecodeValues(y)) == Number(64, x + y)
  {
    JoinBound(y[0], y[1], y[2], y[3]);
    var n := Join(y[0], y[1], y[2], y[3]);
    var b := Bytes(n);
    assert y == [y[0], y[1], y[2], y[3]] && y[4..] == [];
    assert DecodeValues(y) == b + DecodeValues(y[4..]) == b == [b[0], b[1], b[2]];
    BytesAreDigits(n);
    NumberThree(DecodeValues(x), b[0], b[1], b[2]);
    NumberFour(x, y[0], y[1], y[2], y[3]);
  }

  /** Four characters for every three bytes begun, each of them read. */
  lemma {:induction false} EncodingShape(d: seq<Byte>)
    ensures |Encode(d)| == 4 * ((|d| + 2) / 3) && |Values(Encode(d))| == |Encode(d)|
    decreases |d|
  {
    if d == [] {
    } else if |d| <= 3 {
      GroupShape(d, []);
      assert Group(d) + [] == Group(d);
    } else {
      EncodingShape(d[3..]);
      GroupShape(d[..3], Encode(d[3..]));
    }
  }

  lemma GroupShape(g: seq<Byte>, rest: seq<Byte>)
    requires 1 <= |g| <= 3
    ensures |Group(g)| == 4 && |Values(Group(g) + rest)| == 4 + |Values(rest)|
  {
    GroupSpells(g);
    ValuesOfFour(Group(g), rest);
  }

  /** The padding stands at the end, one character for each byte that is missing to
      a multiple of three, and nowhere else. */
  lemma {:induction false} PaddingAtEnd(d: seq<Byte>, i: nat)
    requires i < |Encode(d)|
    ensures Encode(d)[i] == PAD <==> i >= |Encode(d)| - Missing(|d|)
    decreases |d|
  {
    EncodingShape(d);
    if 0 < |d| <= 3 {
      GroupPadding(d, i);
    } else if |d| > 3 {
      EncodingShape(d[3..]);
      var head, rest := Group(d[..3]), Encode(d[3..]);
      assert Encode(d) == head + rest && Missing(|d|) == Missing(|d| - 3) && Missing(|d|) <= |rest|;
      if i < 4 {
        GroupPadding(d[..3], i);
      } else {
        PaddingAtEnd(d[3..], i - 4);
      }
    }
  }

  lemma GroupPadding(g: seq<Byte>, i: nat)
    requires 1 <= |g| <= 3 && i < 4
    ensures |Group(g)| == 4 && (Group(g)[i] == PAD <==> i >= |g| + 1)
  {
    WordBound(g);
    var n := WordOf(g);
    PadForms(n, g);
    CodeValue(n / 0x4_0000);
    CodeValue(n / 0x1000 % 64);
    CodeValue(n / 64 % 64);
    CodeValue(n % 64);
  }

  /** The encoding of d, read to base 64, is d filled up with zero bytes and read to
      base 256. */
  lemma TextIsNumber(d: seq<Byte>)
    ensures Number(64, Values(Encode(d))) == Number(256, d + Zeros(Missing(|d|)))
  {
    EncodingShape(d);
    RoundTrip(d);
    DecodingKeepsNumber(Values(Encode(d)), (|d| + 2) / 3);
  }
}
