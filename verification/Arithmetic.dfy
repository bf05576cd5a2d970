/** 64-bit division built from a 32-bit hardware divide (lib/arithmetic.c). */
module Arithmetic {
  import opened Common

  const B: nat := 0x1_0000_0000
  const W: nat := 0x1_0000_0000_0000_0000

  /** What a divide leaves behind: a quotient, or the processor's divide error. */
  datatype Division = Trap | Quotient(q: nat)

  // ---------- Truncation and shifts ----------

  /** The low 32 bits. */
  function Low32(x: nat): (r: nat)
    ensures r < B
  {
    if x < B then x else x % B
  }

  /** The low 64 bits. */
  function Low64(x: nat): (r: nat)
    ensures r < W
  {
    if x < W then x else x % W
  }

  /** x << k on unbounded numbers. */
  function Shl(x: nat, k: nat): nat {
    if k == 0 then x else 2 * Shl(x, k - 1)
  }

  function Pow2(k: nat): (p: nat)
    ensures p > 0
  {
    if k == 0 then 1 else 2 * Pow2(k - 1)
  }

  lemma {:induction false} ShlIsTimes(x: nat, k: nat)
    ensures Shl(x, k) == x * Pow2(k)
  {
    if k > 0 {
      ShlIsTimes(x, k - 1);
      Double(x, Pow2(k - 1));
    }
  }

  lemma {:induction false} ShlAdd(x: nat, a: nat, b: nat)
    ensures Shl(Shl(x, a), b) == Shl(x, a + b)
  {
    if b > 0 {
      ShlAdd(x, a, b - 1);
    }
  }

  lemma Pow2Add(a: nat, b: nat)
    ensures Pow2(a + b) == Pow2(a) * Pow2(b)
  {
    ShlAdd(1, a, b);
    ShlIsTimes(1, a);
    ShlIsTimes(1, a + b);
    ShlIsTimes(Pow2(a), b);
  }

  lemma Shl1And2(x: nat)
    ensures Shl(x, 1) == 2 * x && Shl(x, 2) == 4 * x
  {
    assert Shl(x, 2) == 2 * Shl(x, 1);
  }

  lemma Shl4(x: nat)
    ensures Shl(x, 4) == 16 * x
  {
    Shl1And2(x);
    Shl1And2(4 * x);
    ShlAdd(x, 2, 2);
  }

  lemma Shl8(x: nat)
    ensures Shl(x, 8) == 0x100 * x
  {
    Shl4(x);
    Shl4(16 * x);
    ShlAdd(x, 4, 4);
  }

  lemma Shl16(x: nat)
    ensures Shl(x, 16) == 0x1_0000 * x
  {
    Shl8(x);
    Shl8(0x100 * x);
    ShlAdd(x, 8, 8);
  }

  lemma Shl32(x: nat)
    ensures Shl(x, 32) == B * x
  {
    Shl16(x);
    Shl16(0x1_0000 * x);
    ShlAdd(x, 16, 16);
  }

  /** Shifting by k more places multiplies by the matching power of two. */
  lemma ShiftOn(x0: nat, n: nat, x: nat, k: nat, p: nat)
    requires x == Shl(x0, n)
    requires (k, p) == (1, 2) || (k, p) == (2, 4) || (k, p) == (4, 16) || (k, p) == (8, 0x100) ||
             (k, p) == (16, 0x1_0000)
    ensures x * p == Shl(x0, n + k)
  {
    ShlAdd(x0, n, k);
    Shl1And2(x);
    Shl4(x);
    Shl8(x);
    Shl16(x);
  }

  /** The number of leading zero bits: the shift that brings the top set bit to position 31. */
  method Nlz(x0: nat) returns (n: nat)
    requires 0 < x0 < B
    ensures n <= 31
    ensures B / 2 <= Shl(x0, n) < B
  {
    var x := x0;
    n := 0;
    if x <= 0x0000_FFFF {
      ShiftOn(x0, n, x, 16, 0x1_0000);
      n := n + 16;
      x := Low32(x * 0x1_0000);
    }
    assert 0x1_0000 <= x < B && x == Shl(x0, n);
    if x <= 0x00FF_FFFF {
      ShiftOn(x0, n, x, 8, 0x100);
      n := n + 8;
      x := Low32(x * 0x100);
    }
    assert 0x100_0000 <= x < B && x == Shl(x0, n);
    if x <= 0x0FFF_FFFF {
      ShiftOn(x0, n, x, 4, 16);
      n := n + 4;
      x := Low32(x * 16);
    }
    assert 0x1000_0000 <= x < B && x == Shl(x0, n);
    if x <= 0x3FFF_FFFF {
      ShiftOn(x0, n, x, 2, 4);
      n := n + 2;
      x := Low32(x * 4);
    }
    assert 0x4000_0000 <= x < B && x == Shl(x0, n);
    if x <= 0x7FFF_FFFF {
      ShiftOn(x0, n, x, 1, 2);
      n := n + 1;
    }
  }

  // ---------- Floors without the division operator ----------

  /** q is the floor of n / d. */
  predicate Floor(n: nat, d: nat, q: nat) {
    q * d <= n < q * d + d
  }

  lemma MulMono(a: nat, b: nat, c: nat)
    requires a <= b
    ensures a * c <= b * c
  {
  }

  lemma Double(a: nat, b: nat)
    ensures (2 * a) * b == 2 * (a * b) == a * (2 * b)
  {
  }

  lemma FloorOf(n: nat, d: nat)
    requires d > 0
    ensures Floor(n, d, n / d)
  {
    assert n == (n / d) * d + n % d;
  }

  lemma FloorExists(n: nat, d: nat) returns (q: nat)
    requires d > 0
    ensures Floor(n, d, q)
  {
    q := n / d;
    FloorOf(n, d);
  }

  lemma FloorUnique(n: nat, d: nat, q: nat, q': nat)
    requires Floor(n, d, q) && Floor(n, d, q')
    ensures q == q'
  {
    if q < q' {
      MulMono(q + 1, q', d);
    } else if q' < q {
      MulMono(q' + 1, q, d);
    }
  }

  lemma FloorIs(n: nat, d: nat, q: nat)
    requires d > 0 && Floor(n, d, q)
    ensures n / d == q
  {
    FloorOf(n, d);
    FloorUnique(n, d, q, n / d);
  }

  lemma FloorBelow(n: nat, d: nat, q: nat, b: nat)
    requires Floor(n, d, q) && n < b * d
    ensures q < b
  {
    if b <= q {
      MulMono(b, q, d);
    }
  }

  lemma FloorLe(n: nat, d: nat, q: nat)
    requires Floor(n, d, q) && d > 0
    ensures q <= n
  {
    assert q * d >= q by {
      MulMono(1, d, q);
    }
  }

  /** Dividing twice is dividing once by the product. */
  lemma FloorFloor(n: nat, a: nat, m: nat, b: nat, q: nat)
    requires Floor(n, a, m) && Floor(m, b, q)
    ensures Floor(n, a * b, q)
  {
    MulMono(q * b, m, a);
    MulMono(m + 1, q * b + b, a);
    assert q * (a * b) == (q * b) * a;
    assert q * (a * b) + a * b == (q * b + b) * a;
    assert (m + 1) * a == m * a + a;
  }

  // ---------- The two branches of udiv64 ----------

  /** The processor's 64-by-32-bit divide: it traps when the quotient does not fit 32 bits. */
  function Divl(n: nat, d: nat): Division
    requires n < W && d < B
  {
    if d == 0 || n / d >= B then Trap else Quotient(n / d)
  }

  lemma DivlIs(n: nat, d: nat, q: nat)
    requires n < W && 0 < d < B && q < B && Floor(n, d, q)
    ensures Divl(n, d) == Quotient(q)
  {
    FloorIs(n, d, q);
  }

  /** Long division on two 32-bit digits. */
  lemma LongDivision(n1: nat, n0: nat, d: nat, q1: nat, r: nat, q0: nat)
    requires n0 < B && r < d
    requires n1 == q1 * d + r
    requires Floor(B * r + n0, d, q0)
    ensures Floor(B * n1 + n0, d, q0 + B * q1)
    ensures q0 < B
  {
    assert (q0 + B * q1) * d == q0 * d + B * (q1 * d);
    FloorBelow(B * r + n0, d, q0, B);
  }

  lemma DivMod(n: nat, d: nat)
    requires d > 0
    ensures n == (n / d) * d + n % d && n % d < d
  {
  }

  lemma SmallDivisorAt(n: nat, n1: nat, n0: nat, d: nat, q1: nat, r: nat, q0: nat)
    requires n < W && 0 < d < B && n0 < B && n == B * n1 + n0
    requires n1 == q1 * d + r && r < d
    requires Floor(B * r + n0, d, q0)
    ensures Divl(B * r + n0, d) == Quotient(q0)
    ensures q0 + B * q1 == n / d < W
  {
    LongDivision(n1, n0, d, q1, r, q0);
    DivlIs(B * r + n0, d, q0);
    FloorIs(n, d, q0 + B * q1);
    FloorLe(n, d, q0 + B * q1);
  }

  /** The small-divisor branch: neither a trap nor an error. */
  lemma SmallDivisor(n: nat, d: nat, r: nat, q1: nat)
    requires n < W && 0 < d < B && r == n / B % d && q1 == n / B / d
    ensures B * r + n % B < W
    ensures Divl(B * r + n % B, d).Quotient?
    ensures Divl(B * r + n % B, d).q + B * q1 == n / d < W
  {
    var n1, n0 := n / B, n % B;
    DivMod(n1, d);
    var q0 := FloorExists(B * r + n0, d);
    SmallDivisorAt(n, n1, n0, d, q1, r, q0);
  }

  /**
   * The shifted divisor's high half v is d / 2^(32-s): all 32 bits of it are used, and v * 2^(32-s)
   * is d with its low bits cleared. Here e = 2^s, p = 2^(32-s) and d1 is the high half of d.
   */
  lemma Truncated(d: nat, d1: nat, e: nat, p: nat, v: nat)
    requires Floor(d, B, d1) && e * p == B && e > 0 && p > 0
    requires B / 2 <= d1 * e < B
    requires Floor(d, p, v)
    ensures Floor(d * e, B, v)
    ensures B / 2 <= v < B
    ensures d * e < W
  {
    assert (v * p) * e == v * B by { assert (v * p) * e == v * (e * p); }
    MulMono(v * p, d, e);
    MulMono(d + 1, v * p + p, e);
    assert (v * p + p) * e == v * B + B by { assert (v * p + p) * e == (v * p) * e + p * e; }
    assert (d + 1) * e == d * e + e;
    assert (d1 * B) * e == B * (d1 * e);
    MulMono(d1 * B, d, e);
    TopDigit(d1, e, p);
    assert (d1 * B + B) * e == B * (d1 * e + e);
    MulMono(d + 1, d1 * B + B, e);
  }

  lemma TopDigit(d1: nat, e: nat, p: nat)
    requires e * p == B && e > 0 && d1 * e < B
    ensures d1 * e + e <= B
  {
    if d1 >= p {
      MulMono(p, d1, e);
    } else {
      MulMono(d1 + 1, p, e);
      assert (d1 + 1) * e == d1 * e + e;
    }
  }

  /** Truncating the divisor from d to t never loses a quotient. */
  lemma EstimateNotBelow(n: nat, d: nat, t: nat, q: nat, q': nat)
    requires t <= d && Floor(n, d, q) && Floor(n, t, q')
    ensures q <= q'
  {
    MulMono(t, d, q);
    if q' < q {
      MulMono(q' + 1, q, t);
    }
  }

  /** ... and it gains at most one when the accumulated error fits one truncated divisor. */
  lemma EstimateNotFarAbove(n: nat, d: nat, t: nat, q: nat, q': nat)
    requires t <= d && Floor(n, d, q) && Floor(n, t, q')
    requires (q + 1) * (d - t) <= t
    ensures q' <= q + 1
  {
    assert (q + 1) * d == (q + 1) * t + (q + 1) * (d - t);
    assert (q + 1) * d == q * d + d;
    assert (q + 2) * t == (q + 1) * t + t;
    FloorBelow(n, t, q', q + 2);
  }

  /** c * p = 2^33 and d >= 2^31 * p, so c bounds the quotient of any 64-bit number. */
  lemma QuotientBelow(n: nat, d: nat, q: nat, c: nat, p: nat)
    requires n < W && Floor(n, d, q)
    requires d >= (B / 2) * p && c * p == 2 * B
    ensures q + 1 <= c
  {
    assert c * ((B / 2) * p) == (B / 2) * (c * p);
    MulMono((B / 2) * p, d, c);
    FloorBelow(n, d, q, c);
  }

  /** At most c times, truncation drops at most p - 1: this fits one truncated divisor. */
  lemma ErrorFits(q: nat, dropped: nat, t: nat, c: nat, p: nat)
    requires q + 1 <= c && dropped < p
    requires t >= (B / 2) * p && c * p == 2 * B
    requires p >= 4 || (p == 2 && c == B)
    ensures (q + 1) * dropped <= t
  {
    MulMono(q + 1, c, dropped);
    MulMono(dropped, p - 1, c);
    assert (p - 1) * c == c * p - c;
  }

  /** q' comes from the truncated divisor v * p, q from the divisor itself: q' is q or one more. */
  lemma EstimateBound(n: nat, d: nat, v: nat, p: nat, c: nat, q: nat, q': nat)
    requires n < W && Floor(n, d, q) && Floor(d, p, v) && v >= B / 2
    requires Floor(n, v * p, q') && c * p == 2 * B
    requires p >= 4 || (p == 2 && c == B)
    ensures q <= q' <= q + 1
  {
    var t := v * p;
    MulMono(B / 2, v, p);
    EstimateNotBelow(n, d, t, q, q');
    QuotientBelow(n, d, q, c, p);
    ErrorFits(q, d - t, t, c, p);
    EstimateNotFarAbove(n, d, t, q, q');
  }

  /** Halving n, dividing by v and shifting right by k's exponent is dividing by v * 2k. */
  lemma ShiftedQuotient(n: nat, v: nat, m: nat, k: nat, q: nat)
    requires Floor(n / 2, v, m) && Floor(m, k, q)
    ensures Floor(n, v * (2 * k), q)
  {
    assert Floor(n, 2, n / 2);
    FloorFloor(n, 2, n / 2, v, m);
    FloorFloor(n, 2 * v, m, k, q);
    assert (2 * v) * k == v * (2 * k);
  }

  lemma Pow2Split(s: nat)
    requires s <= 31
    ensures Pow2(s) * Pow2(32 - s) == B
    ensures Pow2(32 - s) == 2 * Pow2(31 - s)
    ensures Pow2(32 - s) >= 4 || (Pow2(32 - s) == 2 && Pow2(s) == B / 2)
  {
    Pow2Add(s, 32 - s);
    Shl32(1);
    ShlIsTimes(1, 32);
    if s <= 30 {
      assert Pow2(32 - s) == 4 * Pow2(30 - s);
    } else {
      assert Pow2(32 - s) == 2 * Pow2(0);
    }
  }

  /** The high half v of the shifted divisor. */
  lemma ShiftedDivisor(d: nat, s: nat, v: nat)
    requires B <= d < W && s <= 31
    requires B / 2 <= Shl(d / B, s) < B
    requires Floor(d, Pow2(32 - s), v)
    ensures Low64(Shl(d, s)) / B == v && B / 2 <= v < B
  {
    var d1, e, p := d / B, Pow2(s), Pow2(32 - s);
    Pow2Split(s);
    FloorOf(d, B);
    ShlIsTimes(d1, s);
    ShlIsTimes(d, s);
    Truncated(d, d1, e, p, v);
    FloorIs(d * e, B, v);
  }

  lemma DivlOfHalf(n: nat, v: nat, m: nat)
    requires n < W && B / 2 <= v < B && Floor(n / 2, v, m)
    ensures Divl(n / 2, v) == Quotient(m)
  {
    FloorBelow(n / 2, v, m, B);
    DivlIs(n / 2, v, m);
  }

  /** The large-divisor branch: the divide does not trap, and the estimate is the quotient or one more. */
  lemma LargeDivisor(n: nat, d: nat, s: nat, v: nat, m: nat, q: nat, q': nat)
    requires B <= d <= n < W && s <= 31
    requires B / 2 <= Shl(d / B, s) < B
    requires Floor(d, Pow2(32 - s), v) && Floor(n / 2, v, m) && Floor(m, Pow2(31 - s), q') && Floor(n, d, q)
    ensures Low64(Shl(d, s)) / B == v < B
    ensures Divl(n / 2, v) == Quotient(m)
    ensures q <= q' <= q + 1
  {
    ShiftedDivisor(d, s, v);
    DivlOfHalf(n, v, m);
    assert q <= q' <= q + 1 by {
      var k, p, c := Pow2(31 - s), Pow2(32 - s), 2 * Pow2(s);
      assert p == 2 * k && c * p == 2 * B && (p >= 4 || (p == 2 && c == B)) by {
        Pow2Split(s);
        Double(Pow2(s), p);
      }
      ShiftedQuotient(n, v, m, k, q');
      EstimateBound(n, d, v, p, c, q, q');
    }
  }

  /** The last correction picks the true quotient q out of an estimate q' in {q, q + 1}. */
  lemma Correction(n: nat, d: nat, q: nat, q': nat)
    requires d <= n && Floor(n, d, q) && q <= q' <= q + 1
    ensures q >= 1
    ensures 0 <= (q' - 1) * d <= n
    ensures n - (q' - 1) * d < d <==> q' == q + 1
  {
    if q' == q {
      assert (q' - 1) * d == q * d - d;
    }
  }

  /** The final correction; the products wrap at 64 bits in the C code, but never get there. */
  method Corrected(n: nat, d: nat, q: nat, ghost t: nat) returns (r: Division)
    requires 0 < d <= n < W && Floor(n, d, t) && t <= q <= t + 1
    ensures r == Quotient(n / d)
  {
    FloorIs(n, d, t);
    FloorLe(n, d, t);
    Correction(n, d, t, q);
    r := Quotient(if Low64(n - Low64((q - 1) * d)) < d then q - 1 else q);
  }

  /** The estimate and its correction, once the divisor's leading zeros are known. */
  method LargeQuotient(n: nat, d: nat, s: nat) returns (r: Division)
    requires B <= d <= n < W && s <= 31
    requires B / 2 <= Shl(d / B, s) < B
    ensures r == Quotient(n / d)
  {
    ghost var v := FloorExists(d, Pow2(32 - s));
    assert Low64(Shl(d, s)) / B == v >= B / 2 by { ShiftedDivisor(d, s, v); }
    ghost var m := FloorExists(n / 2, v);
    ghost var q' := FloorExists(m, Pow2(31 - s));
    ghost var t := FloorExists(n, d);
    LargeDivisor(n, d, s, v, m, t, q');
    FloorIs(m, Pow2(31 - s), q');
    var e := Divl(n / 2, Low64(Shl(d, s)) / B);
    if e.Trap? {
      return Trap;
    }
    var q := e.q / Pow2(31 - s);
    r := Corrected(n, d, q, t);
  }

  /** Unsigned 64-bit division: exactly the floor, and a trap only for a zero divisor. */
  method Udiv64(n: nat, d: nat) returns (r: Division)
    requires n < W && d < W
    ensures r == if d == 0 then Trap else Quotient(n / d)
  {
    if d / B == 0 {
      var n1, n0, d0 := n / B, n % B, d % B;
      if d0 == 0 {
        return Trap;                              // n1 % d0 faults
      }
      SmallDivisor(n, d, n1 % d, n1 / d);
      var q := Divl(B * (n1 % d0) + n0, d0);
      r := if q.Trap? then Trap else Quotient(Low64(q.q + B * (n1 / d0)));
    } else if n < d {
      FloorIs(n, d, 0);
      r := Quotient(0);
    } else {
      var d1 := d / B;
      var s := Nlz(d1);
      r := LargeQuotient(n, d, s);
    }
  }

  // ---------- Signed division and the narrowed remainders ----------

  predicate Int64(x: int) { -0x8000_0000_0000_0000 <= x < 0x8000_0000_0000_0000 }

  predicate Int32(x: int) { -0x8000_0000 <= x < 0x8000_0000 }

  /** Reads the low 64 bits as a two's complement number. */
  function Signed64(x: int): (v: int)
    ensures Int64(v) && (Int64(x) ==> v == x)
  {
    if Int64(x) then x else
      var u := x % W;
      if u < W / 2 then u else u - W
  }

  /** Reads the low 32 bits as a two's complement number. */
  function Signed32(x: int): (v: int)
    ensures Int32(v) && (Int32(x) ==> v == x)
  {
    if Int32(x) then x else
      var u := x % B;
      if u < B / 2 then u else u - B
  }

  /** C's quotient: rounded toward zero. */
  function Trunc(n: int, d: int): int
    requires d != 0
  {
    if (n < 0) == (d < 0) then Abs(n) / Abs(d) else -(Abs(n) / Abs(d))
  }

  function Remainder(n: int, d: int): int
    requires d != 0
  {
    n - d * Trunc(n, d)
  }

  /** C's remainder is smaller than the divisor and has the dividend's sign. */
  lemma RemainderShape(n: int, d: int)
    requires d != 0
    ensures Abs(Remainder(n, d)) < Abs(d)
    ensures Remainder(n, d) != 0 ==> (Remainder(n, d) < 0 <==> n < 0)
    ensures Abs(Remainder(n, d)) <= Abs(n)
  {
    var q := FloorExists(Abs(n), Abs(d));
    FloorIs(Abs(n), Abs(d), q);
    Signs(d, q);
  }

  lemma Signs(d: int, q: int)
    ensures d * q == (if d < 0 then -(q * Abs(d)) else q * Abs(d)) == -(d * -q)
  {
  }

  /** The absolute quotient reaches 2^63 only for the smallest dividend and a unit divisor. */
  lemma QuotientRange(a: nat, b: nat, q: nat)
    requires a <= W / 2 && b > 0 && Floor(a, b, q)
    ensures q <= W / 2
    ensures q == W / 2 ==> a == W / 2 && b == 1
  {
    FloorLe(a, b, q);
    if b >= 2 && q == W / 2 {
      MulMono(2, b, q);
    }
  }

  /** Signed division: C's truncating quotient, wrapped to 64 bits in the one case it does not fit. */
  method Sdiv64(n: int, d: int) returns (r: int)
    requires Int64(n) && Int64(d) && d != 0
    ensures r == Signed64(Trunc(n, d))
    ensures r == Trunc(n, d) <==> !(n == -0x8000_0000_0000_0000 && d == -1)
  {
    var nAbs: nat := if n >= 0 then n else W - (W + n);
    var dAbs: nat := if d >= 0 then d else W - (W + d);
    var q := Udiv64(nAbs, dAbs);
    FloorOf(Abs(n), Abs(d));
    QuotientRange(Abs(n), Abs(d), Abs(n) / Abs(d));
    r := if (n < 0) == (d < 0) then Signed64(q.q) else Signed64(-Signed64(q.q));
  }

  /** Unsigned remainder, narrowed to the 32-bit return type. */
  method Umod64(n: nat, d: nat) returns (r: nat)
    requires n < W && 0 < d < W
    ensures r == Low32(n % d)
  {
    var q := Udiv64(n, d);
    assert n == d * (n / d) + n % d;
    r := Low32(Low64(n - Low64(d * q.q)));
  }

  /** The 32-bit return type holds the remainder of every dividend exactly when d <= 2^32. */
  lemma UmodExactIff(d: nat)
    requires 0 < d < W
    ensures (forall n: nat | n < W :: Low32(n % d) == n % d) <==> d <= B
  {
    if d <= B {
    } else {
      FloorIs(B, d, 0);
      assert B == d * (B / d) + B % d;
      assert Low32(B % d) != B % d;
    }
  }

  /** Signed remainder, narrowed to the 32-bit return type. */
  method Smod64(n: int, d: int) returns (r: int)
    requires Int64(n) && Int64(d) && d != 0
    ensures r == Signed32(Remainder(n, d))
  {
    var q := Sdiv64(n, d);
    RemainderShape(n, d);
    r := Signed32(Signed64(n - Signed64(d * q)));
  }

  /** The 32-bit return type holds the signed remainder of every dividend exactly when |d| <= 2^31. */
  lemma SmodExactIff(d: int)
    requires Int64(d) && d != 0
    ensures (forall n: int | Int64(n) :: Signed32(Remainder(n, d)) == Remainder(n, d)) <==> Abs(d) <= B / 2
  {
    if Abs(d) <= B / 2 {
      forall n: int | Int64(n)
        ensures Signed32(Remainder(n, d)) == Remainder(n, d)
      {
        RemainderShape(n, d);
      }
    } else {
      FloorIs(B / 2, Abs(d), 0);
      assert Remainder(B / 2, d) == B / 2;
      assert Signed32(Remainder(B / 2, d)) != Remainder(B / 2, d);
    }
  }
}
