/** The 48-bit linear congruential generator on 16-bit limbs
    (squid-2.7.STABLE9/lib/drand48.c). */
module Drand48 {
  import Division

  const B := 0x1_0000
  const RANGE32 := 0x1_0000_0000
  const RANGE48 := 0x1_0000_0000_0000

  const X0 := 0x330E
  const X1 := 0xABCD
  const X2 := 0x1234
  const A0 := 0xE66D
  const A1 := 0xDEEC
  const A2 := 0x5
  const C := 0xB

  /** One step of the recurrence that POSIX gives for drand48. */
  function Lcg(x: int): int { (0x5DEECE66D * x + 0xB) % RANGE48 }

  function LcgSteps(x: int, n: nat): int {
    if n == 0 then x else Lcg(LcgSteps(x, n - 1))
  }

  /** The first state after the initial one, whose value is 0.39646477376027534. */
  lemma FirstState()
    ensures Lcg(0x1234ABCD330E) == 0x657eb7255101
  {
  }

  function Value(x0: int, x1: int, x2: int): int { x0 + B * x1 + B * B * x2 }

  predicate Limb(v: int) { 0 <= v < B }

  function Low(v: int): int { v % B }
  function High(v: int): int { v / B % B }
  function Carry(x: int, y: int): int { if x + y > B - 1 then 1 else 0 }

  /** The limb that is congruent to v is LOW of v. */
  lemma LowUnique(v: int, k: int, r: int)
    requires v == r + B * k && Limb(r)
    ensures Low(v) == r
  {
    Division.Unique(v, B, k, r);
  }

  /** Wrapping at 32 bits does not reach the low limb. */
  lemma LowOfWrapped(s: int)
    ensures Low(s % RANGE32) == s % B
  {
    var q, k, r := s / RANGE32, s / B, s % B;
    assert s == RANGE32 * q + s % RANGE32 && s == B * k + r;
    LowUnique(s % RANGE32, k - B * q, r);
  }

  /** A 32-bit signed long holds v modulo 2^32; a wider one holds v. */
  function Long(wide: bool, v: int): int {
    if wide || v < RANGE32 / 2 then v else v - RANGE32
  }

  /** The halves that MUL takes out of a product of limbs are the right ones even
      where the product does not fit a 32-bit long. */
  lemma MulExact(wide: bool, product: int)
    requires 0 <= product < B * B
    ensures var l := Long(wide, product);
      product == Low(l) + B * High(l) && Limb(Low(l)) && Limb(High(l))
  {
    var l, hi, lo := Long(wide, product), product / B, product % B;
    assert product == B * hi + lo;
    var k := if l == product then hi else hi - B;
    Division.Unique(l, B, k, lo);
    Division.Unique(k, B, if l == product then 0 else -1, hi);
  }

  /** Schoolbook multiplication by 0x5DEECE66D on limbs, carry by carry. */
  lemma LimbStep(x0: int, x1: int, x2: int, p0: int, p1: int, k1: int, q0: int, q1: int, n: int, k2: int,
                 r0: int, r1: int, y1: int, k3: int, y2: int, t: int)
    requires Limb(p0) && Limb(y1) && Limb(y2)
    requires A0 * x0 + C == p0 + B * (p1 + B * k1)
    requires A0 * x1 == q0 + B * q1 && p1 + q0 == n + B * k2
    requires A1 * x0 == r0 + B * r1 && n + r0 == y1 + B * k3
    requires k2 + k1 + k3 + q1 + r1 + A0 * x2 + A1 * x1 + A2 * x0 == y2 + B * t
    ensures Value(p0, y1, y2) == Lcg(Value(x0, x1, x2))
  {
    var k := t + A1 * x2 + A2 * x1 + B * (A2 * x2);
    Division.Unique(0x5DEECE66D * Value(x0, x1, x2) + 0xB, RANGE48, k, Value(p0, y1, y2));
  }

  // ---------- Doubles ----------

  const PRECISION: int := 0x20_0000_0000_0000  // 2^53

  /** m units of 2^-(16 k), where m has at most 53 bits: such a value is a double. */
  ghost predicate Units(v: real, m: int, k: nat) {
    0 <= m < PRECISION && k <= 3 && v * Scale(k) == m as real
  }

  function Scale(k: nat): real {
    if k == 0 then 1.0 else if k == 1 then 65536.0 else if k == 2 then 4294967296.0 else 281474976710656.0
  }

  /** No rounding is needed to hold v as a double. */
  ghost predicate Exact(v: real) {
    exists m: int, k: nat :: Units(v, m, k)
  }

  function Scaled(x0: int, x1: int, x2: int): real {
    var two16m := 1.0 / 65536.0;
    two16m * (two16m * (two16m * x0 as real + x1 as real) + x2 as real)
  }

  /** What drand48 computes step by step: every intermediate result is a double,
      so that none is rounded, and the last is the state over 2^48. */
  lemma ScalingExact(x0: int, x1: int, x2: int)
    requires Limb(x0) && Limb(x1) && Limb(x2)
    ensures var m := 1.0 / 65536.0;
      var a := m * x0 as real;
      var b := a + x1 as real;
      var c := m * b;
      var d := c + x2 as real;
      && Exact(m) && Exact(a) && Exact(b) && Exact(c) && Exact(d) && Exact(m * d) && Scaled(x0, x1, x2) == m * d
  {
    var m := 1.0 / 65536.0;
    var a := m * x0 as real;
    var b := a + x1 as real;
    var c := m * b;
    var d := c + x2 as real;
    assert Units(m, 1, 1) && Units(a, x0, 1) && Units(b, x0 + B * x1, 1);
    assert Units(c, x0 + B * x1, 2) && Units(d, Value(x0, x1, x2), 2) && Units(m * d, Value(x0, x1, x2), 3);
  }

  lemma ScaledValue(x0: int, x1: int, x2: int)
    requires Limb(x0) && Limb(x1) && Limb(x2)
    ensures var r := Scaled(x0, x1, x2);
      Exact(r) && r * RANGE48 as real == Value(x0, x1, x2) as real && 0.0 <= r < 1.0
  {
    ScalingExact(x0, x1, x2);
    assert 0 <= Value(x0, x1, x2) < RANGE48;
  }

  class Generator {
    const wide: bool  // whether a long has more than 32 bits
    const x: array<int>

    ghost predicate Valid()
      reads x
    {
      x.Length == 3 && Limb(x[0]) && Limb(x[1]) && Limb(x[2])
    }

    ghost function State(): int
      requires Valid()
      reads x
    {
      Value(x[0], x[1], x[2])
    }

    constructor (wide: bool)
      ensures Valid() && fresh(x) && State() == 0x1234ABCD330E && this.wide == wide
    {
      this.wide := wide;
      x := new int[3][X0, X1, X2];
    }

    /** next(): multiply and add with explicit carries. */
    method Next()
      requires Valid()
      modifies x
      ensures Valid() && State() == Lcg(old(State()))
    {
      var x0, x1, x2 := x[0], x[1], x[2];
      var p0, p1 := Mul(A0, x0);
      var carry0, carry1;
      p0, carry0 := AddEqu(p0, C);
      p1, carry1 := AddEqu(p1, carry0);
      ghost var m := p1;
      var q0, q1 := Mul(A0, x1);
      p1, carry0 := AddEqu(p1, q0);
      var r0, r1 := Mul(A1, x0);
      var y1, carry := AddEqu(p1, r0);  // CARRY(p[1], r[0]) and LOW(p[1] + r[0])
      ghost var t;
      x[2], t := LowOf(carry0 + carry1 + carry + q1 + r1 + A0 * x2 + A1 * x1 + A2 * x0);
      x[1] := y1;
      x[0] := p0;
      LimbStep(x0, x1, x2, p0, m, carry1, q0, q1, p1, carry0, r0, r1, y1, carry, x[2], t);
    }

    /** LOW of a sum computed in 32 bits. */
    method LowOf(sum: int) returns (lo: int, ghost t: int)
      ensures sum == lo + B * t && Limb(lo)
    {
      LowOfWrapped(sum);
      lo, t := Low(sum % RANGE32), sum / B;
    }

    /** The MUL macro: the two halves of a product of limbs. */
    method Mul(v: int, w: int) returns (lo: int, hi: int)
      requires 0 <= v * w < B * B
      ensures v * w == lo + B * hi && Limb(lo) && Limb(hi)
    {
      var l := Long(wide, v * w);
      MulExact(wide, v * w);
      lo, hi := Low(l), High(l);
    }

    /** The ADDEQU macro. */
    method AddEqu(v: int, w: int) returns (sum: int, carry: int)
      requires Limb(v) && Limb(w)
      ensures v + w == sum + B * carry && Limb(sum) && 0 <= carry <= 1
    {
      carry := Carry(v, w);
      sum := Low(v + w);
    }

    /** drand48(): no operation on doubles is rounded. */
    method Draw() returns (r: real)
      requires Valid()
      modifies x
      ensures Valid() && State() == Lcg(old(State()))
      ensures r * RANGE48 as real == State() as real && Exact(r) && 0.0 <= r < 1.0
    {
      Next();
      ScaledValue(x[0], x[1], x[2]);
      r := Scaled(x[0], x[1], x[2]);
    }

    /** Any number of calls follows the recurrence. */
    method Advance(n: nat)
      requires Valid()
      modifies x
      ensures Valid() && State() == LcgSteps(old(State()), n)
    {
      for i := 0 to n
        invariant Valid() && State() == LcgSteps(old(State()), i)
      {
        Next();
      }
    }
  }
}
