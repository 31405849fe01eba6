/** Package version order (scripts/ipkg-utils/ipkg-compare-versions.c).  Strings
    are ASCII without NUL; advancing a pointer is dropping a prefix. */
module Versions {
  import opened Wrappers
  import Division

  const INT_MAX := 0x7fff_ffff

  /** The return of a long as an int: the low 32 bits, two's complement. */
  function Narrow(d: int): (r: int)
    ensures -0x8000_0000 <= r < 0x8000_0000 && (d - r) % 0x1_0000_0000 == 0
  {
    var r := (d + 0x8000_0000) % 0x1_0000_0000 - 0x8000_0000;
    Division.Unique(d - r, 0x1_0000_0000, (d + 0x8000_0000) / 0x1_0000_0000, 0);
    r
  }

  predicate IsDigit(c: char) { '0' <= c <= '9' }
  predicate IsAlpha(c: char) { 'a' <= c <= 'z' || 'A' <= c <= 'Z' }
  predicate IsSeparator(c: char) { c == '.' || c == '-' }

  /** Letters sort before every other character. */
  function Rank(c: char): int {
    if IsAlpha(c) then c as int else c as int + 256
  }

  predicate NoDigits(s: string) { forall i | 0 <= i < |s| :: !IsDigit(s[i]) }
  predicate AllDigits(s: string) { forall i | 0 <= i < |s| :: IsDigit(s[i]) }

  /** The first index from i on whose character is a digit, or is not one. */
  function Skip(s: string, digits: bool, i: nat): (k: nat)
    requires i <= |s|
    ensures i <= k <= |s| && (k < |s| ==> IsDigit(s[k]) != digits)
    ensures forall j | i <= j < k :: IsDigit(s[j]) == digits
    decreases |s| - i
  {
    if i == |s| || IsDigit(s[i]) != digits then i else Skip(s, digits, i + 1)
  }

  function TextEnd(s: string): nat { Skip(s, false, 0) }
  function NumberEnd(s: string): nat { Skip(s, true, TextEnd(s)) }

  function DigitValue(c: char): nat
    requires IsDigit(c)
  {
    c as int - '0' as int
  }

  function Decimal(d: string): nat
    requires AllDigits(d)
  {
    if d == [] then 0 else 10 * Decimal(d[..|d| - 1]) + DigitValue(d[|d| - 1])
  }

  /** strtol: saturates at the largest long.  An absent number counts as 0. */
  function StrToL(longMax: nat, d: string): nat
    requires AllDigits(d)
  {
    if Decimal(d) > longMax then longMax else Decimal(d)
  }

  /** A version string as the comparison reads it: text, number, and then either
      the end or, at a separator or not, another round. */
  datatype Rounds =
    | Last(text: string, number: nat)
    | More(text: string, number: nat, atSeparator: bool, rest: Rounds)

  function Read(longMax: nat, s: string): Rounds
    decreases |s|
  {
    var i, j := TextEnd(s), NumberEnd(s);
    var n := StrToL(longMax, s[i..j]);
    if j == |s| then Last(s[..i], n) else More(s[..i], n, IsSeparator(s[j]), Read(longMax, s[j..]))
  }

  // ---------- verrevcmp, with its exact return value ----------

  function CmpText(a: string, b: string): int {
    var vc := if a == [] then 0 else Rank(a[0]);
    var rc := if b == [] then 0 else Rank(b[0]);
    if vc != rc then vc - rc
    else if a == [] || b == [] then 0
    else CmpText(a[1..], b[1..])
  }

  function CmpRounds(v: Rounds, r: Rounds): int {
    var d, n := CmpText(v.text, r.text), v.number - r.number;
    if d != 0 then d
    else if n != 0 then Narrow(n)
    else if v.Last? && r.Last? then 0
    else if v.Last? then -1
    else if r.Last? then 1
    else if v.atSeparator && !r.atSeparator then -1
    else if !v.atSeparator && r.atSeparator then 1
    else CmpRounds(v.rest, r.rest)
  }

  function VerRevCmp(longMax: nat, val: string, ref: string): int {
    CmpRounds(Read(longMax, val), Read(longMax, ref))
  }

  /** The source's outer loop.  The end of a string counts as a separator there,
      because strchr finds the terminator of ".-". */
  method CompareStrings(longMax: nat, val: string, ref: string) returns (res: int)
    ensures res == VerRevCmp(longMax, val, ref)
  {
    var v, r := val, ref;
    while true
      invariant VerRevCmp(longMax, v, r) == VerRevCmp(longMax, val, ref)
      decreases |v|
    {
      var vp := SkipText(v);
      var rp := SkipText(r);
      var d := CompareTexts(v[..vp], r[..rp]);
      if d != 0 {
        return d;
      }
      var vl, ve := ReadNumber(longMax, v, vp);
      var rl, re := ReadNumber(longMax, r, rp);
      if vl != rl {
        return Narrow(vl as int - rl as int);
      }
      var v', r' := v[ve..], r[re..];
      var vsep := v' == [] || IsSeparator(v'[0]);
      var rsep := r' == [] || IsSeparator(r'[0]);
      if vsep && !rsep { return -1; }
      if !vsep && rsep { return 1; }
      if v' == [] && r' == [] { return 0; }
      if v' == [] { return -1; }
      if r' == [] { return 1; }
      v, r := v', r';
    }
  }

  /** The source's inner loop, up to the ends that it has found before. */
  method CompareTexts(a: string, b: string) returns (d: int)
    ensures d == CmpText(a, b)
  {
    var v, r := a, b;
    while true
      invariant CmpText(v, r) == CmpText(a, b)
      decreases |v|
    {
      var vc := if v == [] then 0 else Rank(v[0]);
      var rc := if r == [] then 0 else Rank(r[0]);
      if vc == 0 && rc == 0 { return 0; }
      if vc != rc { return vc - rc; }
      v, r := v[1..], r[1..];
    }
  }

  method SkipText(s: string) returns (i: nat)
    ensures i == TextEnd(s)
  {
    i := 0;
    while i < |s| && !IsDigit(s[i])
      invariant 0 <= i <= |s| && Skip(s, false, 0) == Skip(s, false, i)
    {
      i := i + 1;
    }
  }

  method ReadNumber(longMax: nat, s: string, at: nat) returns (n: nat, i: nat)
    requires at <= |s|
    ensures i == Skip(s, true, at) && n == StrToL(longMax, s[at..i])
  {
    i, n := at, 0;
    while i < |s| && IsDigit(s[i])
      invariant at <= i <= |s| && AllDigits(s[at..i]) && Skip(s, true, at) == Skip(s, true, i)
      invariant n == StrToL(longMax, s[at..i])
    {
      DecimalStep(s, at, i);
      n := 10 * n + DigitValue(s[i]);
      if n > longMax { n := longMax; }
      i := i + 1;
    }
  }

  lemma SliceStep<T>(s: seq<T>, at: nat, i: nat)
    requires at <= i < |s|
    ensures s[at..i + 1][..i - at] == s[at..i]
  {
  }

  lemma DecimalStep(s: string, at: nat, i: nat)
    requires at <= i < |s| && AllDigits(s[at..i]) && IsDigit(s[i])
    ensures AllDigits(s[at..i + 1]) && Decimal(s[at..i + 1]) == 10 * Decimal(s[at..i]) + DigitValue(s[i])
  {
    SliceStep(s, at, i);
    assert s[at..i + 1] == s[at..i] + [s[i]];
    assert forall k | at <= k < i :: s[k] == s[at..i][k - at];
  }

  // ---------- The order it means ----------

  function Ranks(t: string): seq<int> {
    if t == [] then [] else [Rank(t[0])] + Ranks(t[1..])
  }

  /** A version as a list of integers to be compared lexicographically: for each
      round the ranks of the text, 0, the number and what follows it, where the
      end sorts before a separator and a separator before anything else. */
  function Key(v: Rounds): seq<int> {
    match v
    case Last(t, n) => Ranks(t) + [0, n, 0] + []
    case More(t, n, sep, rest) => Ranks(t) + [0, n, if sep then 1 else 2] + Key(rest)
  }

  function Lex(a: seq<int>, b: seq<int>): int {
    if a == [] && b == [] then 0
    else if a == [] then -1
    else if b == [] then 1
    else if a[0] != b[0] then Sign(a[0] - b[0])
    else Lex(a[1..], b[1..])
  }

  function Sign(x: int): int { if x < 0 then -1 else if x > 0 then 1 else 0 }

  lemma {:induction false} LexOrder(a: seq<int>, b: seq<int>, c: seq<int>)
    ensures Lex(a, b) == 0 <==> a == b
    ensures Lex(b, a) == -Lex(a, b)
    ensures Lex(a, b) <= 0 && Lex(b, c) <= 0 ==> Lex(a, c) <= 0
    ensures Lex(a, b) < 0 && Lex(b, c) <= 0 ==> Lex(a, c) < 0
    ensures Lex(a, b) <= 0 && Lex(b, c) < 0 ==> Lex(a, c) < 0
    decreases |a| + |b| + |c|
  {
    if a != [] && b != [] {
      LexOrder(a[1..], b[1..], if c == [] then [] else c[1..]);
      if a[0] == b[0] && a[1..] == b[1..] {
        assert a == [a[0]] + a[1..] && b == [b[0]] + b[1..];
      }
    }
  }

  lemma {:induction false} LexPrefix(p: seq<int>, x: seq<int>, y: seq<int>)
    ensures Lex(p + x, p + y) == Lex(x, y)
  {
    if p == [] {
      assert p + x == x && p + y == y;
    } else {
      assert (p + x)[1..] == p[1..] + x && (p + y)[1..] == p[1..] + y;
      LexPrefix(p[1..], x, y);
    }
  }

  /** Texts closed by 0 compare as CmpText compares them; equal texts leave the
      decision to what follows. */
  lemma {:induction false} LexText(a: string, b: string, x: seq<int>, y: seq<int>)
    ensures Lex(Ranks(a) + [0] + x, Ranks(b) + [0] + y) ==
      if CmpText(a, b) != 0 then Sign(CmpText(a, b)) else Lex(x, y)
    ensures CmpText(a, b) == 0 <==> a == b
    decreases |a|
  {
    var l, r := Ranks(a) + [0] + x, Ranks(b) + [0] + y;
    if a != [] { assert l[1..] == Ranks(a[1..]) + [0] + x; } else { assert l == [0] + x && l[1..] == x; }
    if b != [] { assert r[1..] == Ranks(b[1..]) + [0] + y; } else { assert r == [0] + y && r[1..] == y; }
    if a != [] && b != [] {
      LexText(a[1..], b[1..], x, y);
      if a[0] == b[0] && a[1..] == b[1..] {
        assert a == [a[0]] + a[1..] && b == [b[0]] + b[1..];
      }
    }
  }

  lemma LexRound(t: string, u: string, n: int, m: int, c: int, d: int, x: seq<int>, y: seq<int>)
    ensures Lex(Ranks(t) + [0, n, c] + x, Ranks(u) + [0, m, d] + y) ==
      if t != u then Sign(CmpText(t, u))
      else if n != m then Sign(n - m)
      else if c != d then Sign(c - d)
      else Lex(x, y)
    ensures CmpText(t, u) == 0 <==> t == u
  {
    LexText(t, u, [n, c] + x, [m, d] + y);
    assert Ranks(t) + [0, n, c] + x == Ranks(t) + [0] + ([n, c] + x);
    assert Ranks(u) + [0, m, d] + y == Ranks(u) + [0] + ([m, d] + y);
    assert ([n, c] + x)[1..] == [c] + x && ([m, d] + y)[1..] == [d] + y;
    assert ([c] + x)[1..] == x && ([d] + y)[1..] == y;
  }

  // ---------- The order on strings, character by character ----------

  /** Where two texts part: a letter sorts before any other character, and within
      the letters and within the others the code decides. */
  lemma {:induction false} TextsPart(p: string, c: char, d: char, x: string, y: string)
    requires c != d
    ensures var letter := (e: char) => 'a' <= e <= 'z' || 'A' <= e <= 'Z';
      CmpText(p + [c] + x, p + [d] + y) < 0 <==> if letter(c) == letter(d) then c < d else letter(c)
    ensures CmpText(p + [c] + x, p + [d] + y) != 0
  {
    PrefixedText(p, [c] + x, [d] + y);
    assert p + [c] + x == p + ([c] + x) && p + [d] + y == p + ([d] + y);
  }

  /** The end of a text sorts before anything that could follow. */
  lemma TextEnds(p: string, c: char, x: string)
    ensures CmpText(p, p + [c] + x) < 0 < CmpText(p + [c] + x, p)
  {
    PrefixedText(p, [], [c] + x);
    PrefixedText(p, [c] + x, []);
    assert p + [c] + x == p + ([c] + x) && p + [] == p;
  }

  lemma {:induction false} PrefixedText(p: string, x: string, y: string)
    ensures CmpText(p + x, p + y) == CmpText(x, y)
  {
    if p == [] {
      assert p + x == x && p + y == y;
    } else {
      assert (p + x)[1..] == p[1..] + x && (p + y)[1..] == p[1..] + y;
      PrefixedText(p[1..], x, y);
    }
  }

  lemma DigitsAre(c: char)
    ensures IsDigit(c) <==> c in "0123456789"
    ensures IsDigit(c) ==> DigitValue(c) < 10 && "0123456789"[DigitValue(c)] == c
  {
  }

  /** Of two numerals of one length the first difference decides. */
  lemma {:induction false} NumeralsPart(p: string, c: char, d: char, x: string, y: string)
    requires AllDigits(p + [c] + x) && AllDigits(p + [d] + y) && c < d && |x| == |y|
    ensures Decimal(p + [c] + x) < Decimal(p + [d] + y)
    decreases |x|
  {
    var a, b := p + [c] + x, p + [d] + y;
    var n := |a| - 1;
    if x == [] {
      assert a == p + [c] && b == p + [d] && a[..n] == p == b[..n];
    } else {
      var m := |x| - 1;
      assert a[..n] == p + [c] + x[..m] && b[..n] == p + [d] + y[..m];
      assert forall i | 0 <= i < n :: IsDigit(a[..n][i]) && IsDigit(b[..n][i]);
      NumeralsPart(p, c, d, x[..m], y[..m]);
    }
  }

  /** Leading zeros do not count. */
  lemma {:induction false} LeadingZero(x: string)
    requires AllDigits(x)
    ensures AllDigits(['0'] + x) && Decimal(['0'] + x) == Decimal(x)
  {
    var z := ['0'] + x;
    if x != [] {
      var n := |x| - 1;
      assert z[..n + 1] == ['0'] + x[..n];
      LeadingZero(x[..n]);
    }
  }

  /** A digit run after the same text is decided by its value. */
  lemma NumbersDecide(longMax: nat, t: string, d: string, x: string, e: string, y: string)
    requires Run(t, d, x) && Run(t, e, y) && StrToL(longMax, d) < StrToL(longMax, e) <= INT_MAX
    ensures VerRevCmp(longMax, t + d + x, t + e + y) < 0 < VerRevCmp(longMax, t + e + y, t + d + x)
  {
    ReadParts(longMax, t, d, x);
    ReadParts(longMax, t, e, y);
    NumbersPart(Read(longMax, t + d + x), Read(longMax, t + e + y));
  }

  lemma NumbersPart(v: Rounds, r: Rounds)
    requires v.text == r.text && v.number < r.number <= INT_MAX
    ensures CmpRounds(v, r) < 0 < CmpRounds(r, v)
  {
    LexText(v.text, r.text, [], []);
    NarrowInRange(v.number - r.number);
    NarrowInRange(r.number - v.number);
  }

  /** A text, the digits after it and what follows them; without digits nothing
      follows. */
  ghost predicate Run(t: string, d: string, x: string) {
    NoDigits(t) && AllDigits(d) && (x == [] || (!IsDigit(x[0]) && d != []))
  }

  /** After equal texts and numbers the end comes first, then a dot or a hyphen,
      then anything else; where both go on alike, what follows decides. */
  lemma FollowersDecide(longMax: nat, t: string, d: string, x: string, e: string, y: string)
    requires Run(t, d, x) && Run(t, e, y) && StrToL(longMax, d) == StrToL(longMax, e)
    ensures var kind := (s: string) => if s == [] then 0 else if s[0] == '.' || s[0] == '-' then 1 else 2;
      var r := VerRevCmp(longMax, t + d + x, t + e + y);
      if kind(x) < kind(y) then r < 0
      else if kind(x) > kind(y) then r > 0
      else if x == [] then r == 0
      else r == VerRevCmp(longMax, x, y)
  {
    ReadParts(longMax, t, d, x);
    ReadParts(longMax, t, e, y);
    LexText(t, t, [], []);
  }

  /** Different texts before the first digit decide at once. */
  lemma TextsDecide(longMax: nat, t: string, d: string, x: string, u: string, e: string, y: string)
    requires Run(t, d, x) && Run(u, e, y) && t != u
    ensures VerRevCmp(longMax, t + d + x, u + e + y) == CmpText(t, u) != 0
  {
    ReadParts(longMax, t, d, x);
    ReadParts(longMax, u, e, y);
    LexText(t, u, [], []);
  }

  /** No number is above INT_MAX. */
  predicate Fits(v: Rounds) {
    v.number <= INT_MAX && (v.More? ==> Fits(v.rest))
  }

  /** Where long is no wider than int, saturation makes every string fit. */
  lemma {:induction false} NarrowLongAlwaysFits(longMax: nat, s: string)
    requires longMax <= INT_MAX
    ensures Fits(Read(longMax, s))
    decreases |s|
  {
    if NumberEnd(s) < |s| {
      NarrowLongAlwaysFits(longMax, s[NumberEnd(s)..]);
    }
  }

  ghost predicate OrdersRight(v: Rounds, r: Rounds) {
    Sign(CmpRounds(v, r)) == Lex(Key(v), Key(r))
  }

  lemma KeyRound(v: Rounds, r: Rounds)
    ensures Lex(Key(v), Key(r)) ==
      if CmpText(v.text, r.text) != 0 then Sign(CmpText(v.text, r.text))
      else if v.number != r.number then Sign(v.number - r.number)
      else if v.Last? && r.Last? then 0
      else if v.Last? then -1
      else if r.Last? then 1
      else if v.atSeparator != r.atSeparator then if v.atSeparator then -1 else 1
      else Lex(Key(v.rest), Key(r.rest))
  {
    LexRound(v.text, r.text, v.number, r.number,
             if v.Last? then 0 else if v.atSeparator then 1 else 2, if r.Last? then 0 else if r.atSeparator then 1 else 2,
             if v.Last? then [] else Key(v.rest), if r.Last? then [] else Key(r.rest));
  }

  lemma NarrowInRange(d: int)
    requires -INT_MAX <= d <= INT_MAX
    ensures Narrow(d) == d
  {
  }

  lemma {:induction false} OrdersRightIfFits(v: Rounds, r: Rounds)
    requires Fits(v) && Fits(r)
    ensures OrdersRight(v, r)
  {
    KeyRound(v, r);
    NarrowInRange(v.number - r.number);
    if v.More? && r.More? {
      OrdersRightIfFits(v.rest, r.rest);
    }
  }

  // ---------- A number above INT_MAX breaks it ----------

  function Numeral(n: nat): (d: string)
    ensures AllDigits(d) && Decimal(d) == n
  {
    if n == 0 then []
    else
      var d := Numeral(n / 10) + [('0' as int + n % 10) as char];
      assert d[..|d| - 1] == Numeral(n / 10);
      d
  }

  /** A number not above INT_MAX from which n differs, narrowed, by at most 0. */
  function Confused(n: nat): (m: nat)
    requires n > INT_MAX
    ensures m <= INT_MAX && Narrow(n - m) <= 0
  {
    var low := n % 0x1_0000_0000;
    assert n == n / 0x1_0000_0000 * 0x1_0000_0000 + low;
    if low > INT_MAX then low - INT_MAX - 1 else low
  }

  /** v cut after its first number above INT_MAX, with that number replaced. */
  function Smaller(v: Rounds): Rounds
    requires !Fits(v)
  {
    if v.number > INT_MAX then Last(v.text, Confused(v.number)) else v.(rest := Smaller(v.rest))
  }

  lemma {:induction false} SmallerConfuses(v: Rounds)
    requires !Fits(v)
    ensures Fits(Smaller(v)) && CmpRounds(v, Smaller(v)) <= 0 < Lex(Key(v), Key(Smaller(v)))
  {
    KeyRound(v, Smaller(v));
    LexRound(v.text, v.text, 0, 0, 0, 0, [], []);
    if v.number <= INT_MAX {
      SmallerConfuses(v.rest);
    }
  }

  lemma SkipAppend(t: string, u: string, digits: bool, i: nat)
    requires i <= |t| && forall j | i <= j < |t| :: IsDigit(t[j]) == digits
    requires u != [] ==> IsDigit(u[0]) != digits
    ensures Skip(t + u, digits, i) == |t|
  {
    var k := Skip(t + u, digits, i);
    assert forall j | i <= j < |t| :: (t + u)[j] == t[j];
    if u != [] { assert (t + u)[|t|] == u[0]; }
  }

  lemma ReadParts(longMax: nat, t: string, d: string, r: string)
    requires NoDigits(t) && AllDigits(d) && (r == [] || (!IsDigit(r[0]) && d != []))
    ensures Read(longMax, t + d + r) ==
      if r == [] then Last(t, StrToL(longMax, d)) else More(t, StrToL(longMax, d), IsSeparator(r[0]), Read(longMax, r))
  {
    var s := t + d + r;
    assert s == t + (d + r);
    SkipAppend(t, d + r, false, 0);
    SkipAppend(t + d, r, true, |t|);
    assert s[..|t|] == t && s[|t|..|t + d|] == d && s[|t + d|..] == r;
  }

  /** Smaller versions come from strings too. */
  lemma {:induction false} SmallerString(longMax: nat, s: string) returns (b: string)
    requires !Fits(Read(longMax, s))
    ensures Read(longMax, b) == Smaller(Read(longMax, s))
    ensures s != [] && (!IsDigit(s[0]) ==> b != [] && b[0] == s[0])
    decreases |s|
  {
    var i, j := TextEnd(s), NumberEnd(s);
    var v := Read(longMax, s);
    assert AllDigits([]) && Decimal([]) == 0;
    if v.number > INT_MAX {
      var m := Confused(v.number);
      ReadParts(longMax, s[..i], Numeral(m), []);
      b := s[..i] + Numeral(m) + [];
    } else {
      var r := SmallerString(longMax, s[j..]);
      ReadParts(longMax, s[..i], s[i..j], r);
      b := s[..i] + s[i..j] + r;
    }
  }

  /** verrevcmp orders a string rightly against every fitting string exactly when
      the string fits itself. */
  lemma OrdersRightIffFits(longMax: nat, a: string)
    ensures Fits(Read(longMax, a)) <==>
      forall b | Fits(Read(longMax, b)) :: OrdersRight(Read(longMax, a), Read(longMax, b))
  {
    if Fits(Read(longMax, a)) {
      forall b | Fits(Read(longMax, b)) ensures OrdersRight(Read(longMax, a), Read(longMax, b)) {
        OrdersRightIfFits(Read(longMax, a), Read(longMax, b));
      }
    } else {
      var b := SmallerString(longMax, a);
      SmallerConfuses(Read(longMax, a));
      assert Fits(Read(longMax, b)) && !OrdersRight(Read(longMax, a), Read(longMax, b));
    }
  }

  lemma ReadNumeral(longMax: nat, a: string)
    requires AllDigits(a)
    ensures Read(longMax, a) == Last([], StrToL(longMax, a))
  {
    ReadParts(longMax, [], a, []);
    assert [] + a + [] == a;
  }

  lemma CompareNumbers(longMax: nat, a: string, b: string)
    requires AllDigits(a) && AllDigits(b) && StrToL(longMax, a) != StrToL(longMax, b)
    ensures VerRevCmp(longMax, a, b) == Narrow(StrToL(longMax, a) - StrToL(longMax, b))
  {
    ReadNumeral(longMax, a);
    ReadNumeral(longMax, b);
  }

  /** Where a long holds more than an int, the narrowing loses even sign
      antisymmetry: two numerals 2^31 apart are each below the other. */
  lemma WideLongBreaksAntisymmetry(longMax: nat, a: string, b: string)
    requires AllDigits(a) && AllDigits(b) && Decimal(b) + INT_MAX + 1 == Decimal(a) <= longMax
    ensures VerRevCmp(longMax, a, b) < 0 && VerRevCmp(longMax, b, a) < 0
  {
    CompareNumbers(longMax, a, b);
    CompareNumbers(longMax, b, a);
  }

  // ---------- Versions with epochs ----------

  datatype Version = Version(epoch: nat, version: string)

  function VersionCompare(longMax: nat, a: Version, b: Version): int {
    if a.epoch > b.epoch then 1
    else if a.epoch < b.epoch then -1
    else VerRevCmp(longMax, a.version, b.version)
  }

  /** cmp is reflexive, antisymmetric in sign and transitive at a, b and c. */
  ghost predicate PreorderAt<T(!new)>(cmp: (T, T) -> int, a: T, b: T, c: T) {
    && cmp(a, a) == 0
    && Sign(cmp(b, a)) == -Sign(cmp(a, b))
    && (cmp(a, b) <= 0 && cmp(b, c) <= 0 ==> cmp(a, c) <= 0)
    && (cmp(a, b) < 0 && cmp(b, c) <= 0 ==> cmp(a, c) < 0)
    && (cmp(a, b) <= 0 && cmp(b, c) < 0 ==> cmp(a, c) < 0)
  }

  lemma RoundsPreorder(a: Rounds, b: Rounds, c: Rounds)
    requires Fits(a) && Fits(b) && Fits(c)
    ensures PreorderAt(CmpRounds, a, b, c)
  {
    OrdersRightIfFits(a, a);
    OrdersRightIfFits(a, b);
    OrdersRightIfFits(b, a);
    OrdersRightIfFits(b, c);
    OrdersRightIfFits(a, c);
    LexOrder(Key(a), Key(a), Key(a));
    LexOrder(Key(a), Key(b), Key(c));
  }

  /** versioncompare is a total preorder on all versions whose numbers fit. */
  lemma VersionPreorder(longMax: nat, a: Version, b: Version, c: Version)
    requires Fits(Read(longMax, a.version)) && Fits(Read(longMax, b.version)) && Fits(Read(longMax, c.version))
    ensures PreorderAt((x, y) => VersionCompare(longMax, x, y), a, b, c)
  {
    RoundsPreorder(Read(longMax, a.version), Read(longMax, b.version), Read(longMax, c.version));
  }

  /** The higher epoch wins; within an epoch the order of the strings decides. */
  lemma EpochsFirst(longMax: nat, a: Version, b: Version)
    requires Fits(Read(longMax, a.version)) && Fits(Read(longMax, b.version))
    ensures Sign(VersionCompare(longMax, a, b)) ==
      Lex([a.epoch as int] + Key(Read(longMax, a.version)), [b.epoch as int] + Key(Read(longMax, b.version)))
  {
    var k, l := Key(Read(longMax, a.version)), Key(Read(longMax, b.version));
    assert ([a.epoch as int] + k)[1..] == k && ([b.epoch as int] + l)[1..] == l;
    OrdersRightIfFits(Read(longMax, a.version), Read(longMax, b.version));
  }

  /** versionsatisfied3; None is the exit on an unknown operator. */
  function Satisfied(r: int, op: string): Option<bool> {
    if op == "<=" || op == "<" then Some(r <= 0)
    else if op == ">=" || op == ">" then Some(r >= 0)
    else if op == "<<" then Some(r < 0)
    else if op == ">>" then Some(r > 0)
    else if op == "=" then Some(r == 0)
    else None
  }

  /** What the operators say of two versions in the reference order: two that are
      strict, one that is equality, and four that admit equality, although < and >
      look strict. */
  lemma OperatorsMean(longMax: nat, a: Version, b: Version, op: string)
    requires Fits(Read(longMax, a.version)) && Fits(Read(longMax, b.version))
    ensures var x, y := [a.epoch as int] + Key(Read(longMax, a.version)), [b.epoch as int] + Key(Read(longMax, b.version));
      var holds := Satisfied(VersionCompare(longMax, a, b), op);
      && (op in {"<<", "<=", "<", "=", ">=", ">", ">>"} <==> holds.Some?)
      && (op == "<<" ==> (holds == Some(true) <==> Lex(x, y) < 0))
      && (op in {"<=", "<"} ==> (holds == Some(true) <==> Lex(x, y) < 0 || x == y))
      && (op == "=" ==> (holds == Some(true) <==> x == y))
      && (op in {">=", ">"} ==> (holds == Some(true) <==> Lex(y, x) < 0 || x == y))
      && (op == ">>" ==> (holds == Some(true) <==> Lex(y, x) < 0))
  {
    var x, y := [a.epoch as int] + Key(Read(longMax, a.version)), [b.epoch as int] + Key(Read(longMax, b.version));
    EpochsFirst(longMax, a, b);
    LexOrder(x, y, x);
  }

  /** Exit status of the command; a version that does not parse is None. */
  function ExitStatus(longMax: nat, it: Option<Version>, ref: Option<Version>, op: string): int {
    if it == None || ref == None then 2
    else if Satisfied(VersionCompare(longMax, it.value, ref.value), op) == Some(true) then 0
    else 1
  }
}

/** The package index (scripts/ipkg-utils/ipkg.py, class Packages), which keeps
    one package per name and architecture by running the version command. */
module PackageIndex {
  import opened Wrappers
  import opened Versions

  datatype Package = Package(package: string, architecture: string, version: Option<Version>)

  function Name(p: Package): string { p.package + ":" + p.architecture }

  /** Two packages without a colon in their names share an entry exactly when they
      agree in name and architecture. */
  lemma NamesDiffer(p: Package, q: Package)
    requires ':' !in p.package && ':' !in q.package
    ensures Name(p) == Name(q) <==> p.package == q.package && p.architecture == q.architecture
  {
    if Name(p) == Name(q) {
      FirstColon(p);
      FirstColon(q);
    }
  }

  lemma FirstColon(p: Package)
    requires ':' !in p.package
    ensures var n := |p.package|;
      |Name(p)| > n && Name(p)[..n] == p.package && Name(p)[n] == ':' && Name(p)[n + 1..] == p.architecture
    ensures forall i | 0 <= i < |p.package| :: Name(p)[i] != ':'
  {
    forall i | 0 <= i < |p.package| ensures Name(p)[i] != ':' {
      assert Name(p)[i] == p.package[i] && p.package[i] in p.package;
    }
  }

  /** With a colon in a name, different packages can share an entry. */
  lemma ColonsConfuse(p: string, q: string, a: string, v: Option<Version>, w: Option<Version>)
    ensures Name(Package(p + ":" + q, a, v)) == Name(Package(p, q + ":" + a, w))
  {
    assert (p + ":" + q) + ":" + a == p + ":" + (q + ":" + a);
  }

  /** Whether the command "p > kept" exits with status 0. */
  function VersionCommand(longMax: nat): (Package, Package) -> bool {
    (p: Package, kept: Package) => ExitStatus(longMax, p.version, kept.version, ">") == 0
  }

  // ---------- What is kept, for any command that decides a preorder ----------

  function Added<K, P>(name: P -> K, newer: (P, P) -> bool, m: map<K, P>, p: P): map<K, P> {
    var m' := if name(p) in m then m else m[name(p) := p];
    if newer(p, m'[name(p)]) then m'[name(p) := p] else m'
  }

  function IndexBy<K, P>(name: P -> K, newer: (P, P) -> bool, h: seq<P>): map<K, P> {
    if h == [] then map[] else Added(name, newer, IndexBy(name, newer, h[..|h| - 1]), h[|h| - 1])
  }

  ghost predicate Decides<P(!new)>(newer: (P, P) -> bool, cmp: (P, P) -> int, h: seq<P>) {
    && (forall p, q | p in h && q in h :: newer(p, q) <==> cmp(p, q) >= 0)
    && (forall p, q, r | p in h && q in h && r in h :: PreorderAt(cmp, p, q, r))
  }

  /** Entry i is the last of the newest that were added under its name. */
  ghost predicate LastOfNewest<K, P>(name: P -> K, cmp: (P, P) -> int, h: seq<P>, i: nat) {
    && i < |h|
    && (forall j | 0 <= j < |h| && name(h[j]) == name(h[i]) :: cmp(h[j], h[i]) <= 0)
    && (forall j | i < j < |h| && name(h[j]) == name(h[i]) :: cmp(h[j], h[i]) < 0)
  }

  lemma NewestExtended<K, P(!new)>(name: P -> K, newer: (P, P) -> bool, cmp: (P, P) -> int, g: seq<P>, p: P, i: nat)
    requires Decides(newer, cmp, g + [p]) && LastOfNewest(name, cmp, g, i) && name(p) == name(g[i])
    ensures LastOfNewest(name, cmp, g + [p], if newer(p, g[i]) then |g| else i)
  {
    var h := g + [p];
    assert p in h && g[i] in h && h[i] == g[i];
    assert PreorderAt(cmp, p, g[i], p) && PreorderAt(cmp, g[i], p, p);
    forall j | 0 <= j < |g| && name(h[j]) == name(p)
      ensures cmp(h[j], g[i]) <= 0 && (i < j ==> cmp(h[j], g[i]) < 0)
      ensures cmp(g[i], p) <= 0 ==> cmp(h[j], p) <= 0
    {
      assert h[j] in h && h[j] == g[j] && PreorderAt(cmp, h[j], g[i], p);
    }
  }

  ghost predicate Keeps<K(!new), P>(name: P -> K, newer: (P, P) -> bool, cmp: (P, P) -> int, h: seq<P>, k: K, i: nat) {
    var m := IndexBy(name, newer, h);
    LastOfNewest(name, cmp, h, i) && name(h[i]) == k && k in m && m[k] == h[i]
  }

  lemma {:induction false} NamesIndexed<K(!new), P(!new)>(name: P -> K, newer: (P, P) -> bool, h: seq<P>, k: K)
    ensures k in IndexBy(name, newer, h) <==> exists i :: 0 <= i < |h| && name(h[i]) == k
  {
    if h != [] {
      var n := |h| - 1;
      assert h == h[..n] + [h[n]];
      NamesIndexed(name, newer, h[..n], k);
    }
  }

  lemma {:induction false} KeepsLastOfNewest<K(!new), P(!new)>(name: P -> K, newer: (P, P) -> bool, cmp: (P, P) -> int, h: seq<P>, k: K)
    requires Decides(newer, cmp, h)
    ensures k in IndexBy(name, newer, h) <==> exists i :: 0 <= i < |h| && name(h[i]) == k
    ensures k in IndexBy(name, newer, h) ==> exists i: nat :: Keeps(name, newer, cmp, h, k, i)
  {
    NamesIndexed(name, newer, h, k);
    if h != [] {
      var n := |h| - 1;
      var g, p := h[..n], h[n];
      assert h == g + [p];
      KeepsLastOfNewest(name, newer, cmp, g, k);
      if k in IndexBy(name, newer, g) {
        var i: nat :| Keeps(name, newer, cmp, g, k, i);
        assert h[i] == g[i];
        if name(p) == k {
          NewestExtended(name, newer, cmp, g, p, i);
        }
        assert Keeps(name, newer, cmp, h, k, if name(p) == k && newer(p, g[i]) then n else i);
      } else if name(p) == k {
        assert p in h && PreorderAt(cmp, p, p, p);
        assert Keeps(name, newer, cmp, h, k, n);
      }
    }
  }

  // ---------- With the real command ----------

  function Index(longMax: nat, h: seq<Package>): map<string, Package> {
    IndexBy(Name, VersionCommand(longMax), h)
  }

  class Packages {
    const longMax: nat
    var packages: map<string, Package>
    ghost var history: seq<Package>

    ghost predicate Valid()
      reads this
    {
      packages == Index(longMax, history)
    }

    constructor (longMax: nat)
      ensures Valid() && history == [] && this.longMax == longMax
    {
      this.longMax := longMax;
      packages, history := map[], [];
    }

    method AddPackage(p: Package) returns (rc: int)
      requires Valid()
      modifies this`packages, this`history
      ensures Valid() && history == old(history) + [p]
      ensures rc == 0 <==> ExitStatus(longMax, p.version,
                                      (if Name(p) in old(packages) then old(packages)[Name(p)] else p).version, ">") == 0
      ensures rc == 0 || rc == 1
    {
      var name := Name(p);
      if name !in packages {
        packages := packages[name := p];
      }
      assert VersionCommand(longMax)(p, packages[name]) == (ExitStatus(longMax, p.version, packages[name].version, ">") == 0);
      var s := ExitStatus(longMax, p.version, packages[name].version, ">");
      if s == 0 {
        packages := packages[name := p];
        rc := 0;
      } else {
        rc := 1;
      }
      IndexStep(longMax, history, p);
      history := history + [p];
    }
  }

  lemma IndexStep(longMax: nat, h: seq<Package>, p: Package)
    ensures Index(longMax, h + [p]) == Added(Name, VersionCommand(longMax), Index(longMax, h), p)
  {
    assert (h + [p])[..|h + [p]| - 1] == h;
  }

  function PackageOrder(longMax: nat): (Package, Package) -> int {
    (p: Package, q: Package) =>
      if p.version.Some? && q.version.Some? then VersionCompare(longMax, p.version.value, q.version.value) else 0
  }

  /** Every version parses, and its numbers fit. */
  ghost predicate Comparable(longMax: nat, h: seq<Package>) {
    forall p | p in h :: p.version.Some? && Fits(Read(longMax, p.version.value.version))
  }

  lemma CommandDecides(longMax: nat, h: seq<Package>)
    requires Comparable(longMax, h)
    ensures Decides(VersionCommand(longMax), PackageOrder(longMax), h)
  {
    var cmp := PackageOrder(longMax);
    forall p, q, r | p in h && q in h && r in h ensures PreorderAt(cmp, p, q, r) {
      VersionPreorder(longMax, p.version.value, q.version.value, r.version.value);
    }
  }

  /** Whatever was added in whatever order, there is an entry for exactly the
      names added, and it is the last added among the newest added under it. */
  lemma IndexKeepsLastOfNewest(longMax: nat, h: seq<Package>, name: string)
    requires Comparable(longMax, h)
    ensures name in Index(longMax, h) <==> exists i :: 0 <= i < |h| && Name(h[i]) == name
    ensures name in Index(longMax, h) ==>
      exists i: nat :: LastOfNewest(Name, PackageOrder(longMax), h, i) && Name(h[i]) == name && Index(longMax, h)[name] == h[i]
  {
    CommandDecides(longMax, h);
    KeepsLastOfNewest(Name, VersionCommand(longMax), PackageOrder(longMax), h, name);
    if name in Index(longMax, h) {
      var i: nat :| Keeps(Name, VersionCommand(longMax), PackageOrder(longMax), h, name, i);
      assert LastOfNewest(Name, PackageOrder(longMax), h, i);
    }
  }

  /** Two histories with the same packages keep equally new ones. */
  lemma OrderOfAddingIrrelevant(longMax: nat, g: seq<Package>, h: seq<Package>, name: string)
    requires Comparable(longMax, g) && Comparable(longMax, h)
    requires forall p :: p in g <==> p in h
    requires name in Index(longMax, g)
    ensures name in Index(longMax, h)
    ensures PackageOrder(longMax)(Index(longMax, g)[name], Index(longMax, h)[name]) == 0
  {
    var cmp := PackageOrder(longMax);
    IndexKeepsLastOfNewest(longMax, g, name);
    IndexKeepsLastOfNewest(longMax, h, name);
    var i: nat :| LastOfNewest(Name, cmp, g, i) && Name(g[i]) == name && Index(longMax, g)[name] == g[i];
    assert g[i] in h;
    var j: nat :| LastOfNewest(Name, cmp, h, j) && Name(h[j]) == name && Index(longMax, h)[name] == h[j];
    assert h[j] in g;
    CommandDecides(longMax, g);
    assert PreorderAt(cmp, g[i], h[j], g[i]);
  }

  /** An entry whose version does not parse is never replaced. */
  lemma {:induction false} UnparsableSticks(longMax: nat, h: seq<Package>, more: seq<Package>, name: string)
    requires name in Index(longMax, h) && Index(longMax, h)[name].version == None
    ensures name in Index(longMax, h + more) && Index(longMax, h + more)[name] == Index(longMax, h)[name]
    decreases |more|
  {
    if more == [] {
      assert h + more == h;
    } else {
      var n := |more| - 1;
      UnparsableSticks(longMax, h, more[..n], name);
      assert (h + more)[..|h + more| - 1] == h + more[..n] && (h + more)[|h + more| - 1] == more[n];
    }
  }
}
