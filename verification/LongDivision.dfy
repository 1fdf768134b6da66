/** Multi-digit unsigned division in base 2^16: Algorithm D of Knuth, The Art of
    Computer Programming, vol. 2, section 4.3.1, as the compiler support routine
    behind the 64-bit `/` and `%` operators runs it. */
module LongDivision {

  const BASE: int := 0x1_0000
  const TWO32: int := 0x1_0000_0000
  const TWO64: int := 0x1_0000_0000_0000_0000

  /** A 32-bit register. Every assignment to one is checked to be in range, so the
      only wrap-around in this file is the one written out with `% TWO32`. */
  type u32 = x: int | 0 <= x < 0x1_0000_0000
  type digit = x: int | 0 <= x < 0x1_0000

  datatype Division = DivideError | Quotient(q: int, r: int)

  // ---------------------------------------------------------------- numbers

  /** x * B^k, kept free of products of variables. */
  function Shift(x: int, k: nat): int
  {
    if k == 0 then x else BASE * Shift(x, k - 1)
  }

  function PowB(k: nat): int { Shift(1, k) }

  /** The number the big-endian digits s[lo..hi] stand for. */
  function Value(s: seq<digit>, lo: nat, hi: nat): int
    requires lo <= hi <= |s|
    decreases hi - lo
  {
    if lo == hi then 0 else Shift(s[lo], hi - lo - 1) + Value(s, lo + 1, hi)
  }

  lemma {:induction false} ShiftAdd(x: int, y: int, k: nat)
    ensures Shift(x + y, k) == Shift(x, k) + Shift(y, k)
  {
    if k != 0 { ShiftAdd(x, y, k - 1); }
  }

  lemma {:induction false} ShiftBase(x: int, k: nat)
    ensures Shift(BASE * x, k) == Shift(x, k + 1)
  {
    if k != 0 { ShiftBase(x, k - 1); }
  }

  lemma {:induction false} ShiftMonotone(x: int, y: int, k: nat)
    requires x <= y
    ensures Shift(x, k) <= Shift(y, k)
  {
    if k != 0 { ShiftMonotone(x, y, k - 1); }
  }

  lemma {:induction false} ShiftTimes(x: int, y: int, k: nat)
    ensures Shift(x * y, k) == x * Shift(y, k)
  {
    if k != 0 {
      ShiftTimes(x, y, k - 1);
      TimesBase(x, Shift(y, k - 1));
    }
  }

  lemma TimesBase(x: int, y: int)
    ensures BASE * (x * y) == x * (BASE * y)
  {
  }

  lemma {:induction false} PowBPositive(k: nat)
    ensures 1 <= PowB(k)
    ensures Shift(0, k) == 0
  {
    if k != 0 { PowBPositive(k - 1); }
  }

  lemma {:induction false} ValueBound(s: seq<digit>, lo: nat, hi: nat)
    requires lo <= hi <= |s|
    ensures 0 <= Value(s, lo, hi) < PowB(hi - lo)
    decreases hi - lo
  {
    if lo < hi {
      var k := hi - lo - 1;
      ValueBound(s, lo + 1, hi);
      ShiftMonotone(0, s[lo], k);
      ShiftMonotone(s[lo], BASE - 1, k);
      ShiftAdd(BASE - 1, 1, k);
      ShiftBase(1, k);
      PowBPositive(k);
    }
  }

  /** Horner's rule. */
  lemma {:induction false} ValueSnoc(s: seq<digit>, lo: nat, hi: nat)
    requires lo <= hi < |s|
    ensures Value(s, lo, hi + 1) == Value(s, lo, hi) * BASE + s[hi]
    decreases hi - lo
  {
    if lo < hi { ValueSnoc(s, lo + 1, hi); }
  }

  lemma {:induction false} ValueSplit(s: seq<digit>, lo: nat, mid: nat, hi: nat)
    requires lo <= mid <= hi <= |s|
    ensures Value(s, lo, hi) == Shift(Value(s, lo, mid), hi - mid) + Value(s, mid, hi)
    decreases hi - mid
  {
    if mid < hi {
      ValueSplit(s, lo, mid + 1, hi);
      ValueSnoc(s, lo, mid);
      var k := hi - mid - 1;
      ShiftAdd(BASE * Value(s, lo, mid), s[mid], k);
      ShiftBase(Value(s, lo, mid), k);
    }
  }

  lemma {:induction false} ValueSame(s: seq<digit>, t: seq<digit>, lo: nat, hi: nat)
    requires lo <= hi <= |s| && hi <= |t|
    requires forall i :: lo <= i < hi ==> s[i] == t[i]
    ensures Value(s, lo, hi) == Value(t, lo, hi)
    decreases hi - lo
  {
    if lo < hi { ValueSame(s, t, lo + 1, hi); }
  }

  /** A number below B^k needs only its last k digits. */
  lemma {:induction false} LeadingZeros(s: seq<digit>, lo: nat, hi: nat, k: nat)
    requires lo + k <= hi <= |s| && Value(s, lo, hi) < PowB(k)
    ensures forall i :: lo <= i < hi - k ==> s[i] == 0
    ensures Value(s, lo, hi) == Value(s, hi - k, hi)
    decreases hi - lo
  {
    if lo + k < hi {
      ValueBound(s, lo + 1, hi);
      PowBMonotone(k, hi - lo - 1);
      if s[lo] != 0 { ShiftMonotone(1, s[lo], hi - lo - 1); }
      PowBPositive(hi - lo - 1);
      LeadingZeros(s, lo + 1, hi, k);
    }
  }

  lemma {:induction false} PowBMonotone(a: nat, b: nat)
    requires a <= b
    ensures PowB(a) <= PowB(b)
  {
    if a < b {
      PowBMonotone(a, b - 1);
      PowBPositive(b - 1);
    }
  }

  lemma MulMonotone(a: int, b: int, c: int)
    requires a <= b && 0 <= c
    ensures a * c <= b * c
  {
  }

  lemma DivideUnique(n: int, v: int, q: int, r: int)
    requires v > 0 && n == q * v + r && 0 <= r < v
    ensures q == n / v && r == n % v
  {
    var q', r' := n / v, n % v;
    assert n == v * q' + r';
    if q < q' {
      MulMonotone(q + 1, q', v);
      assert false;
    } else if q > q' {
      MulMonotone(q' + 1, q, v);
      assert false;
    }
  }

  lemma QuotientBelow(n: int, d: int, b: int)
    requires 0 <= n < d * b && d > 0
    ensures 0 <= n / d < b
  {
    assert n == d * (n / d) + n % d;
    if n / d >= b { MulMonotone(b, n / d, d); assert false; }
  }

  // ---------------------------------------------- halves of a 32-bit register

  function Hhalf(x: u32): digit { x / BASE }

  function Lhalf(x: u32): digit { x % BASE }

  /** `a << 16 | b`, with `b` a half-word. */
  function Combine(a: digit, b: digit): (r: u32) { a * BASE + b }

  // ------------------------------------------------ D3: the quotient estimate

  /** What the estimate must be: the quotient of the three leading dividend digits
      by the two leading divisor digits, clipped to one digit. */
  ghost predicate IsEstimate(g: int, u3: int, vv: int) {
    && 0 <= g < BASE
    && g * vv <= u3
    && (g == BASE - 1 || u3 < (g + 1) * vv)
  }

  /** Loop invariant of step D3: a guess not below the estimate, with its remainder. */
  ghost predicate Candidate(qhat: int, rhat: int, v1: int, vv: int, u2: int, u3: int) {
    && 0 <= qhat <= BASE
    && 0 <= rhat < 2 * BASE
    && qhat * v1 + rhat == u2
    && (qhat >= BASE - 1 || u3 < (qhat + 1) * vv)
  }

  ghost predicate TooBig(qhat: int, u3: int, vv: int) {
    qhat == BASE || qhat * vv > u3
  }

  method EstimateDigit(uj0: digit, uj1: digit, uj2: digit, v1: digit, v2: digit) returns (qhat: u32)
    requires v1 >= BASE / 2
    requires uj0 * BASE + uj1 <= v1 * BASE + v2
    ensures IsEstimate(qhat, (uj0 * BASE + uj1) * BASE + uj2, v1 * BASE + v2)
  {
    hide Candidate, TooBig, IsEstimate;
    ghost var u2 := uj0 * BASE + uj1;
    ghost var u3 := u2 * BASE + uj2;
    ghost var vv := v1 * BASE + v2;
    var rhat: u32;
    var tooBig: bool;
    if uj0 == v1 {
      EqualLeadingDigits(v1, uj1, vv, u2, u3);
      qhat := BASE;
      rhat := uj1;
      tooBig := true;
    } else {
      var nn := Combine(uj0, uj1);
      FirstGuess(nn, v1, v2, uj2, vv, u3);
      qhat := nn / v1;
      rhat := nn % v1;
      tooBig := v2 * qhat > Combine(rhat, uj2);
    }
    while tooBig
      invariant Candidate(qhat, rhat, v1, vv, u2, u3)
      invariant tooBig ==> rhat < BASE && TooBig(qhat, u3, vv)
      invariant !tooBig ==> !TooBig(qhat, u3, vv)
      decreases qhat
    {
      NextCandidate(qhat, rhat, v1, v2, uj2, vv, u2, u3);
      qhat := qhat - 1;
      rhat := rhat + v1;
      if rhat >= BASE {
        tooBig := false;
      } else {
        tooBig := v2 * qhat > Combine(rhat, uj2);
      }
    }
    Accepted(qhat, rhat, v1, vv, u2, u3);
  }

  lemma EqualLeadingDigits(v1: digit, uj1: digit, vv: int, u2: int, u3: int)
    requires u2 == v1 * BASE + uj1
    ensures Candidate(BASE, uj1, v1, vv, u2, u3) && TooBig(BASE, u3, vv)
  {
  }

  lemma Accepted(qhat: int, rhat: int, v1: int, vv: int, u2: int, u3: int)
    requires Candidate(qhat, rhat, v1, vv, u2, u3) && !TooBig(qhat, u3, vv)
    ensures IsEstimate(qhat, u3, vv)
  {
  }

  lemma FirstGuess(nn: int, v1: int, v2: int, uj2: int, vv: int, u3: int)
    requires 0 < v1 < BASE && 0 <= v2 < BASE && 0 <= uj2 < BASE && 0 <= nn < v1 * BASE
    requires vv == v1 * BASE + v2 && u3 == nn * BASE + uj2
    ensures 0 <= nn / v1 < BASE && 0 <= nn % v1 < v1
    ensures Candidate(nn / v1, nn % v1, v1, vv, nn, u3)
    ensures 0 <= v2 * (nn / v1) < TWO32
    ensures v2 * (nn / v1) > nn % v1 * BASE + uj2 <==> TooBig(nn / v1, u3, vv)
  {
    var q, r := nn / v1, nn % v1;
    assert q * v1 + r == nn;
    if q >= BASE { MulMonotone(BASE, q, v1); assert false; }
    SmallProduct(v2, q);
    EstimateTest(q, r, v1, v2, uj2, vv, nn, u3);
    EstimateTest(q + 1, r - v1, v1, v2, uj2, vv, nn, u3);
    MulMonotone(0, q + 1, v2);
  }

  lemma SmallProduct(a: int, b: int)
    requires 0 <= a < BASE && 0 <= b < BASE
    ensures 0 <= a * b <= (BASE - 1) * (BASE - 1)
  {
    MulMonotone(a, BASE - 1, b);
    MulMonotone(0, a, b);
  }

  /** The test of step D3 compares q*v and u on their leading digits. */
  lemma EstimateTest(q: int, r: int, v1: int, v2: int, uj2: int, vv: int, u2: int, u3: int)
    requires vv == v1 * BASE + v2 && u3 == u2 * BASE + uj2
    requires q * v1 + r == u2
    ensures v2 * q - (r * BASE + uj2) == q * vv - u3
  {
    assert q * vv == (q * v1) * BASE + v2 * q;
  }

  /** One turn of the correction loop. */
  lemma NextCandidate(qhat: int, rhat: int, v1: int, v2: int, uj2: int, vv: int, u2: int, u3: int)
    requires 0 < v1 < BASE && 0 <= v2 < BASE && 0 <= uj2 < BASE && 0 <= u2
    requires vv == v1 * BASE + v2 && u3 == u2 * BASE + uj2
    requires Candidate(qhat, rhat, v1, vv, u2, u3) && rhat < BASE
    requires TooBig(qhat, u3, vv)
    ensures 1 <= qhat <= BASE && 0 <= rhat
    ensures Candidate(qhat - 1, rhat + v1, v1, vv, u2, u3)
    ensures 0 <= v2 * (qhat - 1) < TWO32
    ensures rhat + v1 >= BASE ==> !TooBig(qhat - 1, u3, vv)
    ensures v2 * (qhat - 1) > (rhat + v1) * BASE + uj2 <==> TooBig(qhat - 1, u3, vv)
  {
    var q', r' := qhat - 1, rhat + v1;
    if q' < 0 { assert false; }
    assert q' * v1 + r' == u2 by {
      assert (qhat - 1) * v1 == qhat * v1 - v1;
    }
    SmallProduct(v2, q');
    EstimateTest(q', r', v1, v2, uj2, vv, u2, u3);
    if r' >= BASE {
      MulMonotone(v2, BASE, q');
    }
  }

  lemma Spread(k: int, a: int, p: int, c: int)
    ensures k * (a * p + c) == (k * a) * p + k * c
  {
    assert k * (a * p) == (k * a) * p;
  }

  lemma Succ(x: int, p: int)
    ensures (x + 1) * p == x * p + p
  {
  }

  lemma EstimateNotTooSmall(q: int, qhat: int, u3: int, vv: int, lowU: int, lowV: int, p: int, v: int)
    requires p > 0 && lowU < p && 0 <= lowV && 0 < v
    requires v == vv * p + lowV && q * v <= u3 * p + lowU
    requires 0 <= qhat && u3 < (qhat + 1) * vv
    ensures q <= qhat
  {
    var k := qhat + 1;
    Spread(k, vv, p, lowV);
    MulMonotone(0, k, lowV);
    MulMonotone(u3 + 1, k * vv, p);
    Succ(u3, p);
    if k <= q {
      MulMonotone(k, q, v);
    }
  }

  lemma EstimateNotTooLarge(q: int, qhat: int, u3: int, vv: int, lowU: int, lowV: int, p: int, v: int)
    requires p > 0 && 0 <= lowU && 0 <= lowV < p && vv >= BASE
    requires v == vv * p + lowV && u3 * p + lowU < (q + 1) * v
    requires 0 <= qhat < BASE && qhat * vv <= u3
    ensures qhat <= q + 1
  {
    MulMonotone(BASE, vv, p);
    Spread(qhat, vv, p, lowV);
    MulMonotone(qhat * vv, u3, p);
    MulMonotone(qhat, BASE, lowV);
    Succ(qhat - 1, v);
    if q + 1 <= qhat - 1 {
      MulMonotone(q + 1, qhat - 1, v);
    }
  }

  /** Knuth's Theorem B, sharpened by the second divisor digit: for a normalized
      divisor the estimate is the true quotient digit or one more. `lowU` and `lowV`
      are the digits the estimate does not look at. */
  lemma EstimateOffByOne(qhat: int, u3: int, vv: int, lowU: int, lowV: int, p: int, u: int, v: int)
    requires p > 0 && 0 <= lowU < p && 0 <= lowV < p
    requires vv >= BASE && 0 <= u3
    requires IsEstimate(qhat, u3, vv)
    requires u == u3 * p + lowU && v == vv * p + lowV && v > 0
    requires 0 <= u < v * BASE
    ensures 0 <= u / v < BASE && u / v <= qhat <= u / v + 1
  {
    QuotientBelow(u, v, BASE);
    var q := u / v;
    assert q * v <= u < (q + 1) * v by { DivMod(u, v); }
    if u3 < (qhat + 1) * vv {
      EstimateNotTooSmall(q, qhat, u3, vv, lowU, lowV, p, v);
    }
    EstimateNotTooLarge(q, qhat, u3, vv, lowU, lowV, p, v);
  }

  lemma DivMod(n: int, d: int)
    requires d > 0
    ensures (n / d) * d + n % d == n && 0 <= n % d < d
    ensures (n / d) * d <= n < (n / d + 1) * d
  {
    assert (n / d + 1) * d == (n / d) * d + d;
  }

  // -------------------------------------------- D4 and D6: one row of long division

  /** A row `u - q*v` worked from the right: a digit `lo` and a borrow `t'` that split
      the digit difference extend the row by one place. The arguments are the row so
      far (`low`, `t`, `u0`, `v0`, over k digits) and the digits at the new place. */
  lemma RowStep(ui: digit, vi: digit, q: int, t: int, lo: digit, t': int, k: nat, low: int, u0: int, v0: int)
    requires lo - t' * BASE == ui - q * vi - t
    requires low - Shift(t, k) == u0 - q * v0
    ensures Shift(lo, k) + low - Shift(t', k + 1) == Shift(ui, k) + u0 - q * (Shift(vi, k) + v0)
  {
    ShiftTimes(q, vi, k);
    ShiftAdd(lo, q * vi, k);
    ShiftAdd(lo + q * vi, t, k);
    ShiftAdd(ui, BASE * t', k);
    ShiftBase(t', k);
    Distribute(q, Shift(vi, k), v0);
  }

  lemma Distribute(q: int, a: int, b: int)
    ensures q * (a + b) == q * a + q * b
  {
  }

  /** The three statements of the D4 loop, on one digit. */
  method SubtractDigit(ui: digit, vi: digit, qhat: digit, t: digit) returns (lo: digit, borrow: digit)
    ensures lo - borrow * BASE == ui - qhat * vi - t
  {
    SmallProduct(vi, qhat);
    WrappedHalves(ui - vi * qhat - t);
    var d: u32 := (ui - vi * qhat - t) % TWO32;
    lo := Lhalf(d);
    borrow := (BASE - Hhalf(d)) % BASE;
  }

  lemma WrappedHalves(y: int)
    requires -(BASE - 1) * BASE <= y < BASE
    ensures var x: u32 := y % TWO32; Lhalf(x) - ((BASE - Hhalf(x)) % BASE) * BASE == y
  {
  }

  /** Arrays agree outside [lo, hi). */
  ghost predicate SameOutside(s: seq<digit>, t: seq<digit>, lo: nat, hi: nat) {
    |s| == |t| && forall i :: 0 <= i < |s| && !(lo <= i < hi) ==> s[i] == t[i]
  }

  /** Step D4, in place on u[b..b+n]; `t` is the last difference, whose high half is
      nonzero when the row went negative. */
  method MultiplySubtract(u: array<digit>, b: nat, v: array<digit>, vo: nat, n: nat, qhat: digit) returns (t: u32)
    requires u != v && b + n < u.Length && vo + n < v.Length
    modifies u
    ensures SameOutside(u[..], old(u[..]), b, b + n + 1)
    ensures Value(u[..], b, b + n + 1) ==
            Value(old(u[..]), b, b + n + 1) - qhat * Value(v[..], vo + 1, vo + n + 1)
            + if Hhalf(t) != 0 then PowB(n + 1) else 0
  {
    t := 0;
    var i := n;
    ghost var u0, v0, ue, ve := u[..], v[..], b + n + 1, vo + n + 1;
    PowBPositive(0);
    while i > 0
      invariant 0 <= i <= n && 0 <= t < BASE
      invariant SameOutside(u[..], u0, b + i + 1, ue) && v[..] == v0
      invariant Value(u[..], b + i + 1, ue) - Shift(t, n - i) ==
                Value(u0, b + i + 1, ue) - qhat * Value(v0, vo + i + 1, ve)
    {
      ghost var u1 := u[..];
      var lo, t' := SubtractDigit(u[i + b], v[vo + i], qhat, t);
      u[i + b] := lo;
      BorrowRow(u0, u1, u[..], b + i, v0, vo + i, n - i, qhat, t, t');
      t := t';
      i := i - 1;
    }
    ghost var u1 := u[..];
    LastBorrow(u0[b], t, n, Value(u1, b + 1, ue), Value(u0, b + 1, ue), qhat * Value(v0, vo + 1, ve));
    t := (u[b] - t) % TWO32;
    u[b] := Lhalf(t);
    ValueSame(u1, u[..], b + 1, ue);
  }

  lemma BorrowRow(u0: seq<digit>, u1: seq<digit>, u2: seq<digit>, x: nat, v0: seq<digit>, y: nat, k: nat, q: int, t: int, t': int)
    requires |u0| == |u1| == |u2| && x + 1 + k <= |u0| && y + 1 + k <= |v0|
    requires forall i :: x < i < x + 1 + k ==> u2[i] == u1[i]
    requires u2[x] - t' * BASE == u0[x] - q * v0[y] - t
    requires Value(u1, x + 1, x + 1 + k) - Shift(t, k) == Value(u0, x + 1, x + 1 + k) - q * Value(v0, y + 1, y + 1 + k)
    ensures Value(u2, x, x + 1 + k) - Shift(t', k + 1) == Value(u0, x, x + 1 + k) - q * Value(v0, y, y + 1 + k)
  {
    ValueSame(u1, u2, x + 1, x + 1 + k);
    RowStep(u0[x], v0[y], q, t, u2[x], t', k,
            Value(u1, x + 1, x + 1 + k), Value(u0, x + 1, x + 1 + k), Value(v0, y + 1, y + 1 + k));
  }

  /** The top digit of D4: the last difference wraps exactly when the row goes negative. */
  lemma LastBorrow(ub: digit, t: digit, k: nat, low: int, u0: int, qv: int)
    requires low - Shift(t, k) == u0 - qv
    ensures var x: u32 := (ub - t) % TWO32;
            Shift(Lhalf(x), k) + low == Shift(ub, k) + u0 - qv + if Hhalf(x) != 0 then PowB(k + 1) else 0
  {
    ShiftAdd(ub - t, t, k);
    ShiftAdd(ub - t, BASE * 1, k);
    ShiftBase(1, k);
    WrappedTop(ub - t);
  }

  lemma WrappedTop(y: int)
    requires -BASE < y < BASE
    ensures var x: u32 := y % TWO32; Lhalf(x) == if Hhalf(x) != 0 then y + BASE else y
  {
    assert y % TWO32 == if y < 0 then y + TWO32 else y;
  }

  /** Step D6, in place on u[b..b+n]. */
  method AddBack(u: array<digit>, b: nat, v: array<digit>, vo: nat, n: nat)
    requires u != v && b + n < u.Length && vo + n < v.Length
    requires PowB(n + 1) <= Value(u[..], b, b + n + 1) + Value(v[..], vo + 1, vo + n + 1)
    modifies u
    ensures SameOutside(u[..], old(u[..]), b, b + n + 1)
    ensures Value(u[..], b, b + n + 1) ==
            Value(old(u[..]), b, b + n + 1) + Value(v[..], vo + 1, vo + n + 1) - PowB(n + 1)
  {
    var t: u32 := 0;
    var i := n;
    ghost var u0, v0, ue, ve := u[..], v[..], b + n + 1, vo + n + 1;
    PowBPositive(0);
    while i > 0
      invariant 0 <= i <= n && 0 <= t <= 1
      invariant SameOutside(u[..], u0, b + i + 1, ue) && v[..] == v0
      invariant Value(u[..], b + i + 1, ue) + Shift(t, n - i) ==
                Value(u0, b + i + 1, ue) + Value(v0, vo + i + 1, ve)
    {
      ghost var u1, t0: int := u[..], t;
      t := t + u[i + b] + v[vo + i];
      u[i + b] := Lhalf(t);
      t := Hhalf(t);
      CarryRow(u0, u1, u[..], b + i, v0, vo + i, n - i, t0, t);
      i := i - 1;
    }
    ghost var u1 := u[..];
    ValueBound(u1, b + 1, ue);
    LastCarry(u0[b], t, n, Value(u1, b + 1, ue), Value(u0, b + 1, ue), Value(v0, vo + 1, ve));
    u[b] := Lhalf(u[b] + t);
    ValueSame(u1, u[..], b + 1, ue);
  }

  lemma CarryStep(ui: digit, vi: digit, t: int, lo: digit, t': int, k: nat, low: int, u0: int, v0: int)
    requires lo + t' * BASE == ui + vi + t
    requires low + Shift(t, k) == u0 + v0
    ensures Shift(lo, k) + low + Shift(t', k + 1) == Shift(ui, k) + u0 + Shift(vi, k) + v0
  {
    ShiftAdd(lo, BASE * t', k);
    ShiftAdd(ui, vi, k);
    ShiftAdd(ui + vi, t, k);
    ShiftBase(t', k);
  }

  lemma CarryRow(u0: seq<digit>, u1: seq<digit>, u2: seq<digit>, x: nat, v0: seq<digit>, y: nat, k: nat, t: int, t': int)
    requires |u0| == |u1| == |u2| && x + 1 + k <= |u0| && y + 1 + k <= |v0|
    requires forall i :: x < i < x + 1 + k ==> u2[i] == u1[i]
    requires u2[x] + t' * BASE == u0[x] + v0[y] + t
    requires Value(u1, x + 1, x + 1 + k) + Shift(t, k) == Value(u0, x + 1, x + 1 + k) + Value(v0, y + 1, y + 1 + k)
    ensures Value(u2, x, x + 1 + k) + Shift(t', k + 1) == Value(u0, x, x + 1 + k) + Value(v0, y, y + 1 + k)
  {
    ValueSame(u1, u2, x + 1, x + 1 + k);
    CarryStep(u0[x], v0[y], t, u2[x], t', k,
              Value(u1, x + 1, x + 1 + k), Value(u0, x + 1, x + 1 + k), Value(v0, y + 1, y + 1 + k));
  }

  /** The add-back always carries out of the top digit, cancelling the borrow. */
  lemma LastCarry(ub: digit, t: int, k: nat, low: int, u0: int, v0: int)
    requires 0 <= t <= 1 && 0 <= low < PowB(k)
    requires low + Shift(t, k) == u0 + v0
    requires PowB(k + 1) <= Shift(ub, k) + u0 + v0
    ensures ub + t == BASE
    ensures Shift(0, k) + low == Shift(ub, k) + u0 + v0 - PowB(k + 1)
  {
    ShiftAdd(ub, t, k);
    ShiftBase(1, k);
    PowBPositive(k);
    if ub + t < BASE {
      ShiftMonotone(ub + t, BASE - 1, k);
      ShiftAdd(BASE - 1, 1, k);
    }
  }

  /** Steps D3 to D6 on one window: the window becomes its remainder by the divisor,
      and the digit found is the quotient. */
  method DivideWindow(u: array<digit>, b: nat, v: array<digit>, vo: nat, n: nat) returns (q: digit)
    requires u != v && b + n < u.Length && vo + n < v.Length
    requires n >= 2 && v[vo + 1] >= BASE / 2
    requires Value(u[..], b, b + n + 1) < Value(v[..], vo + 1, vo + n + 1) * BASE
    modifies u
    ensures SameOutside(u[..], old(u[..]), b, b + n + 1)
    ensures Value(v[..], vo + 1, vo + n + 1) > 0
    ensures q == Value(old(u[..]), b, b + n + 1) / Value(v[..], vo + 1, vo + n + 1)
    ensures Value(u[..], b, b + n + 1) == Value(old(u[..]), b, b + n + 1) % Value(v[..], vo + 1, vo + n + 1)
  {
    ghost var uv, vv := Value(u[..], b, b + n + 1), Value(v[..], vo + 1, vo + n + 1);
    ghost var v0 := v[..];
    var qhat := EstimateWindow(u, b, v, vo, n);
    ValueBound(u[..], b, b + n + 1);
    ValueBound(v0, vo + 1, vo + n + 1);
    PowBMonotone(n, n + 1);
    var t := MultiplySubtract(u, b, v, vo, n, qhat);
    assert v[..] == v0;
    ghost var rest := Value(u[..], b, b + n + 1);
    ValueBound(u[..], b, b + n + 1);
    BorrowIffTooLarge(uv, vv, qhat, rest, Hhalf(t) != 0, PowB(n + 1));
    if Hhalf(t) != 0 {
      qhat := qhat - 1;
      AddBack(u, b, v, vo, n);
      assert v[..] == v0;
    }
    q := qhat;
  }

  /** The multiply-and-subtract row borrows exactly when the estimate was one too large. */
  lemma BorrowIffTooLarge(w: int, v: int, qhat: int, rest: int, borrow: bool, p: int)
    requires v > 0 && 0 <= w && v < p
    requires w / v <= qhat <= w / v + 1
    requires rest == w - qhat * v + if borrow then p else 0
    requires 0 <= rest < p
    ensures borrow <==> qhat == w / v + 1
    ensures borrow ==> p <= rest + v && rest + v - p == w % v
    ensures !borrow ==> rest == w % v
  {
    assert w == v * (w / v) + w % v;
    assert (w / v + 1) * v == v * (w / v) + v;
  }

  method EstimateWindow(u: array<digit>, b: nat, v: array<digit>, vo: nat, n: nat) returns (qhat: digit)
    requires b + n < u.Length && vo + n < v.Length
    requires n >= 2 && v[vo + 1] >= BASE / 2
    requires Value(u[..], b, b + n + 1) < Value(v[..], vo + 1, vo + n + 1) * BASE
    ensures Value(v[..], vo + 1, vo + n + 1) > 0
    ensures var q := Value(u[..], b, b + n + 1) / Value(v[..], vo + 1, vo + n + 1);
            0 <= q < BASE && q <= qhat <= q + 1
  {
    ghost var lowU, lowV := Value(u[..], b + 3, b + n + 1), Value(v[..], vo + 3, vo + n + 1);
    ghost var u3 := (u[b] * BASE + u[b + 1]) * BASE + u[b + 2];
    ghost var vv := v[vo + 1] * BASE + v[vo + 2];
    LeadingDigits(u[..], b, v[..], vo, n, u3, vv);
    qhat := EstimateDigit(u[b], u[b + 1], u[b + 2], v[vo + 1], v[vo + 2]);
    EstimateOffByOne(qhat, u3, vv, lowU, lowV, PowB(n - 2),
                     Value(u[..], b, b + n + 1), Value(v[..], vo + 1, vo + n + 1));
  }

  lemma LeadingDigits(u: seq<digit>, b: nat, v: seq<digit>, vo: nat, n: nat, u3: int, vv: int)
    requires b + n < |u| && vo + n < |v| && b + 2 < |u| && vo + 2 < |v|
    requires u3 == (u[b] * BASE + u[b + 1]) * BASE + u[b + 2] && vv == v[vo + 1] * BASE + v[vo + 2]
    requires n >= 2 && v[vo + 1] > 0
    requires Value(u, b, b + n + 1) < Value(v, vo + 1, vo + n + 1) * BASE
    ensures var p, lowU, lowV := PowB(n - 2), Value(u, b + 3, b + n + 1), Value(v, vo + 3, vo + n + 1);
            && p > 0 && 0 <= lowU < p && 0 <= lowV < p
            && Value(u, b, b + n + 1) == u3 * p + lowU
            && Value(v, vo + 1, vo + n + 1) == vv * p + lowV
    ensures Value(v, vo + 1, vo + n + 1) > 0
    ensures u[b] * BASE + u[b + 1] <= v[vo + 1] * BASE + v[vo + 2]
  {
    var k, ue, ve := n - 2, b + n + 1, vo + n + 1;
    ValueBound(u, b + 3, ue);
    ValueBound(v, vo + 3, ve);
    var u2 := u[b] * BASE + u[b + 1];
    TopDigits(u, b, ue);
    TopDigits(v, vo + 1, ve);
    ValueSnoc(u, b, b + 2);
    ValueSplit(u, b, b + 3, ue);
    ShiftMonotone(1, vv, k);
    if vv + 1 <= u2 {
      ShiftMonotone(BASE * (vv + 1), u3, k);
      ShiftBase(vv + 1, k);
      ShiftAdd(vv, 1, k);
    }
    ShiftTimes(u3, 1, k);
    ShiftTimes(vv, 1, k);
  }

  lemma TopDigits(s: seq<digit>, lo: nat, hi: nat)
    requires lo + 2 <= hi <= |s|
    ensures Value(s, lo, lo + 2) == s[lo] * BASE + s[lo + 1]
    ensures Value(s, lo, hi) == Shift(s[lo] * BASE + s[lo + 1], hi - lo - 2) + Value(s, lo + 2, hi)
  {
    ValueSnoc(s, lo, lo + 1);
    ValueSnoc(s, lo, lo);
    ValueSplit(s, lo, lo + 2, hi);
  }

  // ---------------------------------------------- D1 and D8: normalizing shifts

  function Pow2(k: nat): (p: int)
    ensures p >= 1
  {
    if k == 0 then 1 else 2 * Pow2(k - 1)
  }

  lemma {:induction false} Pow2Split(k: nat)
    requires k <= 16
    ensures Pow2(k) * Pow2(16 - k) == BASE
  {
    if k == 0 {
      assert Pow2(16) == BASE by { Pow2Sixteen(); }
    } else {
      Pow2Split(k - 1);
      assert Pow2(k) == 2 * Pow2(k - 1) && Pow2(17 - k) == 2 * Pow2(16 - k);
      Double(Pow2(k - 1), Pow2(16 - k));
    }
  }

  lemma Double(x: int, y: int)
    ensures (2 * x) * y == x * (2 * y)
  {
  }

  lemma Pow2Sixteen()
    ensures Pow2(15) == 0x8000 && Pow2(16) == BASE
  {
    assert Pow2(4) == 16 && Pow2(8) == 256 && Pow2(12) == 4096;
  }

  lemma {:induction false} Pow2Monotone(a: nat, b: nat)
    requires a <= b
    ensures Pow2(a) <= Pow2(b)
  {
    if a < b { Pow2Monotone(a, b - 1); }
  }

  /** A digit shifted left by `sh` splits into the bits that stay and the bits that
      move to the next digit; the bits that stay leave the low `sh` places free, so
      the `|` of the C code adds. */
  lemma ShiftedDigit(x: digit, a: int, c: int)
    requires 0 < a && 0 < c && a * c == BASE
    ensures 0 <= x * a < TWO32
    ensures Lhalf(x * a) == (x % c) * a && Hhalf(x * a) == x / c
    ensures Lhalf(x * a) <= BASE - a
  {
    MulMonotone(1, c, a);
    MulMonotone(a, BASE, x);
    MulMonotone(0, a, x);
    MulMonotone(x, BASE, BASE);
    DivMod(x, c);
    assert x * a == ((x / c) * c + x % c) * a == (x / c) * (c * a) + (x % c) * a;
    MulMonotone(0, x % c, a);
    MulMonotone(x % c, c - 1, a);
    assert (c - 1) * a == BASE - a;
    DivideUnique(x * a, BASE, x / c, (x % c) * a);
  }

  /** One digit of shl: `x` shifted left, with the bits that fall out of `y` below it. */
  method ShiftInto(x: digit, y: digit, sh: nat) returns (z: digit)
    requires 0 < sh < 16
    ensures z + x / Pow2(16 - sh) * BASE == x * Pow2(sh) + y / Pow2(16 - sh)
  {
    Pow2Split(sh);
    ShiftedDigit(x, Pow2(sh), Pow2(16 - sh));
    QuotientBelow(y, Pow2(16 - sh), Pow2(sh));
    z := Lhalf(x * Pow2(sh)) + y / Pow2(16 - sh);
  }

  /** shl: shift the digits p[po..po+len] left in place. */
  method Shl(p: array<digit>, po: nat, len: nat, sh: nat)
    requires po + len < p.Length && 0 < sh < 16
    modifies p
    ensures SameOutside(p[..], old(p[..]), po, po + len + 1)
    ensures Value(p[..], po, po + len + 1) + Shift(old(p[po]) / Pow2(16 - sh), len + 1) ==
            Pow2(sh) * Value(old(p[..]), po, po + len + 1)
  {
    ghost var p0, a, c := p[..], Pow2(sh), Pow2(16 - sh);
    var i := 0;
    while i < len
      invariant 0 <= i <= len
      invariant SameOutside(p[..], p0, po, po + i)
      invariant Value(p[..], po, po + i) + Shift(p0[po] / c, i) == a * Value(p0, po, po + i) + p0[po + i] / c
    {
      ghost var p1 := p[..];
      p[po + i] := ShiftInto(p[po + i], p[po + i + 1], sh);
      ShlStep(p0, p1, p[..], po, i, p0[po + i + 1] / c, a, c);
      i := i + 1;
    }
    ghost var p1 := p[..];
    QuotientBelow(0, c, 1);
    p[po + i] := ShiftInto(p[po + i], 0, sh);
    ShlStep(p0, p1, p[..], po, i, 0, a, c);
  }

  lemma ShlStep(s0: seq<digit>, s: seq<digit>, t: seq<digit>, po: nat, i: nat, y: int, a: int, c: int)
    requires |s0| == |s| == |t| && po + i < |s0| && c > 0
    requires forall k :: po <= k < po + i ==> t[k] == s[k]
    requires Value(s, po, po + i) + Shift(s0[po] / c, i) == a * Value(s0, po, po + i) + s0[po + i] / c
    requires t[po + i] + s0[po + i] / c * BASE == s0[po + i] * a + y
    ensures Value(t, po, po + i + 1) + Shift(s0[po] / c, i + 1) == a * Value(s0, po, po + i + 1) + y
  {
    ValueSame(s, t, po, po + i);
    ValueSnoc(s0, po, po + i);
    ValueSnoc(t, po, po + i);
    ShlAlgebra(a, Value(s0, po, po + i), s0[po + i], Value(s0, po, po + i + 1));
  }

  lemma ShlAlgebra(a: int, w: int, x: int, w': int)
    requires w' == w * BASE + x
    ensures a * w' == (a * w) * BASE + x * a
  {
  }

  /** The remainder leaves the loop shifted left by `d`; shift u[lo..hi) back. */
  method Denormalize(u: array<digit>, lo: nat, hi: nat, d: nat)
    requires lo < hi <= u.Length && 0 < d < 16 && u[lo] == 0
    modifies u
    ensures SameOutside(u[..], old(u[..]), lo, hi)
    ensures u[lo] == 0
    ensures Value(u[..], lo, hi) * Pow2(d) + old(u[hi - 1]) % Pow2(d) == Value(old(u[..]), lo, hi)
  {
    ghost var u0, a, c := u[..], Pow2(d), Pow2(16 - d);
    Pow2Split(d);
    var i := hi - 1;
    while i > lo
      invariant lo <= i < hi
      invariant SameOutside(u[..], u0, i + 1, hi)
      invariant forall k :: i < k < hi ==> u[k] == Renormal(u0[k - 1], u0[k], a, c)
    {
      ShiftedDigit(u[i - 1], c, a);
      ShiftedDigit(u[i], c, a);
      QuotientBelow(u[i], a, c);
      assert u[i] / Pow2(d) + Lhalf(u[i - 1] * Pow2(16 - d)) == Renormal(u0[i - 1], u0[i], a, c);
      u[i] := u[i] / Pow2(d) + Lhalf(u[i - 1] * Pow2(16 - d));
      i := i - 1;
    }
    u[i] := 0;
    RenormalValue(u0, u[..], lo, hi, a, c);
  }

  ghost function Renormal(x: digit, y: digit, a: int, c: int): int
    requires a > 0
  {
    y / a + (x % a) * c
  }

  lemma {:induction false} RenormalValue(s: seq<digit>, t: seq<digit>, lo: nat, hi: nat, a: int, c: int)
    requires lo < hi <= |s| == |t| && a > 0 && c > 0 && a * c == BASE
    requires s[lo] == t[lo] == 0
    requires forall k :: lo < k < hi ==> t[k] == Renormal(s[k - 1], s[k], a, c)
    ensures Value(t, lo, hi) * a + s[hi - 1] % a == Value(s, lo, hi)
    decreases hi - lo
  {
    ValueSnoc(s, lo, hi - 1);
    ValueSnoc(t, lo, hi - 1);
    if lo + 1 < hi {
      RenormalValue(s, t, lo, hi - 1, a, c);
      DivMod(s[hi - 1], a);
      RenormalStep(Value(t, lo, hi - 1), s[hi - 2] % a, Value(s, lo, hi - 1), a, c, s[hi - 1] / a);
    }
  }

  lemma RenormalStep(w: int, r: int, w0: int, a: int, c: int, h: int)
    requires w * a + r == w0 && a * c == BASE
    ensures (w * BASE + h + r * c) * a == w0 * BASE + h * a
  {
    assert (r * c) * a == r * (a * c);
    assert (w * BASE) * a == (w * a) * BASE;
  }

  // ------------------------------------------------------------- __qdivrem

  /** Break a 64-bit number into the digits a[1..4], as the `union uu` views it. */
  method LoadDigits(x: int) returns (a: array<digit>)
    requires 0 <= x < TWO64
    ensures fresh(a) && a.Length == 5 && a[0] == 0 && Value(a[..], 1, 5) == Value(a[..], 0, 5) == x
  {
    var hi: u32, lo: u32 := x / TWO32, x % TWO32;
    a := new digit[5];
    a[0] := 0;
    a[1], a[2], a[3], a[4] := Hhalf(hi), Lhalf(hi), Hhalf(lo), Lhalf(lo);
    FourDigits(a[..]);
  }

  lemma FourDigits(s: seq<digit>)
    requires |s| == 5
    ensures Value(s, 1, 5) == ((s[1] * BASE + s[2]) * BASE + s[3]) * BASE + s[4]
    ensures s[0] == 0 ==> Value(s, 0, 5) == Value(s, 1, 5)
  {
    ValueSnoc(s, 1, 4);
    ValueSnoc(s, 1, 3);
    ValueSnoc(s, 1, 2);
    ValueSnoc(s, 1, 1);
    PowBPositive(4);
  }

  /** The four digits a[1..4] read back as one 64-bit number. */
  method StoreDigits(a: array<digit>) returns (x: int)
    requires a.Length == 5
    ensures x == Value(a[..], 1, 5) && 0 <= x < TWO64
  {
    x := Combine(a[1], a[2]) * TWO32 + Combine(a[3], a[4]);
    FourDigits(a[..]);
  }

  /** Exercise 16: division by a single digit, unrolled. */
  method DivideByDigit(u: array<digit>, t: digit) returns (q: int, r: int)
    requires u.Length == 5 && t > 0
    ensures Value(u[..], 1, 5) == q * t + r && 0 <= r < t
  {
    var q1 := u[1] / t;
    ShortStep(0, u[1], t);
    var rbj := Combine(u[1] % t, u[2]);
    var q2 := rbj / t;
    ShortStep(u[1] % t, u[2], t);
    ghost var r2: int := rbj % t;
    rbj := Combine(rbj % t, u[3]);
    var q3 := rbj / t;
    ShortStep(r2, u[3], t);
    ghost var r3: int := rbj % t;
    rbj := Combine(rbj % t, u[4]);
    var q4 := rbj / t;
    ShortStep(r3, u[4], t);
    r := rbj % t;
    q := Combine(q1, q2) * TWO32 + Combine(q3, q4);
    FourDigits(u[..]);
    ShortTotal(u[1], u[2], u[3], u[4], q1, q2, q3, q4, u[1] % t, r2, r3, r, t);
  }

  lemma ShortStep(r: int, x: digit, t: digit)
    requires 0 <= r < t
    ensures 0 <= (r * BASE + x) / t < BASE
    ensures r * BASE + x == (r * BASE + x) / t * t + (r * BASE + x) % t
    ensures 0 <= (r * BASE + x) % t < t
  {
    DivMod(r * BASE + x, t);
    QuotientBelow(r * BASE + x, t, BASE);
  }

  lemma ShortTotal(u1: int, u2: int, u3: int, u4: int, q1: int, q2: int, q3: int, q4: int,
                   r1: int, r2: int, r3: int, r4: int, t: int)
    requires u1 == q1 * t + r1
    requires r1 * BASE + u2 == q2 * t + r2
    requires r2 * BASE + u3 == q3 * t + r3
    requires r3 * BASE + u4 == q4 * t + r4
    ensures ((u1 * BASE + u2) * BASE + u3) * BASE + u4 ==
            ((q1 * BASE + q2) * TWO32 + (q3 * BASE + q4)) * t + r4
  {
    var p1, p2, p3, p4 := q1 * t, q2 * t, q3 * t, q4 * t;
    assert ((q1 * BASE + q2) * TWO32 + (q3 * BASE + q4)) * t
        == (p1 * BASE + p2) * TWO32 + (p3 * BASE + p4);
  }

  /** Step D1: the shift that brings the leading divisor digit to BASE/2 or more. */
  method NormalizingShift(v1: digit) returns (d: nat)
    requires v1 > 0
    ensures d < 16 && BASE / 2 <= v1 * Pow2(d) < BASE
  {
    d := 0;
    var t: u32 := v1;
    while t < BASE / 2
      invariant 0 < t < BASE && t == v1 * Pow2(d) && d < 16
      decreases BASE - t
    {
      NextShift(v1, d);
      t := t * 2;
      d := d + 1;
    }
  }

  lemma NextShift(x: int, d: nat)
    requires x >= 1 && x * Pow2(d) < BASE / 2
    ensures x * Pow2(d + 1) == x * Pow2(d) * 2 && d + 1 < 16
  {
    Doubling(x, Pow2(d), Pow2(d + 1));
    MulMonotone(1, x, Pow2(d));
    if d >= 15 {
      Pow2Sixteen();
      Pow2Monotone(15, d);
    }
  }

  lemma Doubling(x: int, y: int, z: int)
    requires z == 2 * y
    ensures x * z == x * y * 2
  {
  }

  lemma {:induction false} ZeroPrefix(s: seq<digit>, lo: nat, mid: nat, hi: nat)
    requires lo <= mid <= hi <= |s|
    requires forall i :: lo <= i < mid ==> s[i] == 0
    ensures Value(s, lo, hi) == Value(s, mid, hi)
    ensures Value(s, lo, mid) == 0
    decreases mid - lo
  {
    if lo < mid {
      ZeroPrefix(s, lo + 1, mid, hi);
      PowBPositive(hi - lo - 1);
      PowBPositive(mid - lo - 1);
    }
  }

  /** State of the loop over j: `nn` is the normalized dividend and `vv` the
      normalized divisor; q[..e] are the quotient digits found so far and u holds
      what is left of the dividend. */
  ghost predicate LongDivisionRow(q: seq<digit>, u: seq<digit>, e: nat, nn: int, vv: int) {
    && |q| == |u| == 5 && e <= 5
    && nn == Shift(Value(q, 0, e) * vv, 5 - e) + Value(u, 0, 5)
    && Value(u, 0, e) < vv
  }

  lemma RowAdvances(q: seq<digit>, u: seq<digit>, q': seq<digit>, u': seq<digit>, e: nat, nn: int, vv: int, w: int)
    requires LongDivisionRow(q, u, e, nn, vv) && |q'| == |u'| == 5 && e < 5 && vv > 0
    requires forall i :: 0 <= i < e ==> q'[i] == q[i]
    requires forall i :: e < i < 5 ==> u'[i] == u[i]
    requires w == Value(u, 0, e + 1)
    requires q'[e] == w / vv && Value(u', 0, e + 1) == w % vv
    ensures LongDivisionRow(q', u', e + 1, nn, vv)
  {
    var k := 4 - e;
    ValueSame(q, q', 0, e);
    ValueSnoc(q', 0, e);
    ValueSplit(u, 0, e + 1, 5);
    ValueSplit(u', 0, e + 1, 5);
    ValueSame(u, u', e + 1, 5);
    DivMod(w, vv);
    var qq, x := Value(q, 0, e), q'[e];
    RowAlgebra(qq, vv, x, w, w % vv);
    ShiftBase(qq * vv, k);
    ShiftAdd(BASE * (qq * vv), w, k);
    ShiftAdd((qq * BASE + x) * vv, w % vv, k);
  }

  lemma RowAlgebra(qq: int, vv: int, x: int, w: int, r: int)
    requires w == x * vv + r
    ensures BASE * (qq * vv) + w == (qq * BASE + x) * vv + r
  {
  }

  /** The main loop of Program D over prepared digit arrays: `n` divisor digits end
      at v[4], and the quotient has m + 1 digits ending at q[4]. */
  method DivideDigits(u: array<digit>, v: array<digit>, q: array<digit>, m: nat, n: nat)
    requires u.Length == v.Length == q.Length == 5 && u != v && u != q && v != q
    requires n >= 2 && m + n <= 4 && v[5 - n] >= BASE / 2
    requires forall i :: 0 <= i < 4 - m ==> q[i] == 0
    requires Value(u[..], 0, 4 - m) < Value(v[..], 5 - n, 5)
    modifies u, q
    ensures q[0] == 0
    ensures var vv := Value(v[..], 5 - n, 5);
            Value(old(u[..]), 0, 5) == Value(q[..], 0, 5) * vv + Value(u[..], 0, 5) && Value(u[..], 0, 5) < vv
  {
    ghost var nn, vv, v0 := Value(u[..], 0, 5), Value(v[..], 5 - n, 5), v[..];
    var uo, vo, qo := 4 - n - m, 4 - n, 4 - m;
    var j := 0;
    ZeroPrefix(q[..], 0, 4 - m, 4 - m);
    PowBPositive(m + 1);
    assert 0 * vv == 0;
    while j <= m
      invariant 0 <= j <= m + 1 && v[..] == v0 && q[0] == 0
      invariant LongDivisionRow(q[..], u[..], qo + j, nn, vv)
    {
      DivisionStep(u, uo + j, v, vo, n, q, qo + j, nn);
      j := j + 1;
    }
  }

  /** One turn of the loop over j: window u[b..b+n] and quotient digit q[e]. */
  method DivisionStep(u: array<digit>, b: nat, v: array<digit>, vo: nat, n: nat, q: array<digit>, e: nat, ghost nn: int)
    requires u.Length == v.Length == q.Length == 5 && u != v && u != q && v != q
    requires n >= 2 && vo + n == 4 && b + n == e <= 4 && v[vo + 1] >= BASE / 2
    requires LongDivisionRow(q[..], u[..], e, nn, Value(v[..], vo + 1, 5))
    modifies u, q
    ensures forall i :: 0 <= i < e ==> q[i] == old(q[i])
    ensures LongDivisionRow(q[..], u[..], e + 1, nn, Value(v[..], vo + 1, 5))
  {
    ghost var u0, q0, v0, vv := u[..], q[..], v[..], Value(v[..], vo + 1, 5);
    WindowValue(u0, b, n, e, v0, vo);
    var digit := DivideWindow(u, b, v, vo, n);
    assert v[..] == v0;
    ZeroPrefix(u[..], 0, b, e + 1);
    q[e] := digit;
    RowAdvances(q0, u0, q[..], u[..], e, nn, vv, Value(u0, 0, e + 1));
  }

  lemma WindowValue(u: seq<digit>, b: nat, n: nat, e: nat, v: seq<digit>, vo: nat)
    requires |u| == |v| == 5 && vo + n == 4 && b + n == e <= 4
    requires Value(u, 0, e) < Value(v, vo + 1, 5)
    ensures forall i :: 0 <= i < b ==> u[i] == 0
    ensures Value(u, 0, e + 1) == Value(u, b, e + 1) < Value(v, vo + 1, 5) * BASE
  {
    ValueBound(v, vo + 1, 5);
    LeadingZeros(u, 0, e, n);
    ZeroPrefix(u, 0, b, e + 1);
    ValueSnoc(u, 0, e);
  }

  /** What step D1 leaves behind: dividend and divisor scaled by the same 2^d, the
      divisor with its leading digit in the upper half. */
  ghost predicate Normalized(u: seq<digit>, v: seq<digit>, m: nat, n: nat, a: int, uq: int, vq: int) {
    && |u| == |v| == 5 && n >= 2 && m + n <= 4
    && v[5 - n] >= BASE / 2
    && Value(u, 0, 5) == a * uq && Value(v, 5 - n, 5) == a * vq
    && Value(u, 0, 4 - m) < Value(v, 5 - n, 5)
  }

  method Normalize(u: array<digit>, v: array<digit>, m: nat, n: nat) returns (d: nat)
    requires u.Length == v.Length == 5 && u != v
    requires n >= 2 && m + n <= 4
    requires v[5 - n] > 0 && forall i :: 0 <= i <= 4 - n - m ==> u[i] == 0
    modifies u, v
    ensures d < 16
    ensures Normalized(u[..], v[..], m, n, Pow2(d), Value(old(u[..]), 0, 5), Value(old(v[..]), 5 - n, 5))
  {
    var uo, vo := 4 - n - m, 4 - n;
    ghost var u0, v0 := u[..], v[..];
    d := NormalizingShift(v[vo + 1]);
    ZeroPrefix(u0, 0, uo, 5);
    if d > 0 {
      Pow2Split(d);
      NoFallOut(v0[vo + 1], Pow2(d), Pow2(16 - d));
      PowBPositive(m + n + 1);
      PowBPositive(n);
      Shl(u, uo, m + n, d);
      assert v[..] == v0;
      ghost var u1 := u[..];
      Shl(v, vo + 1, n - 1, d);
      assert u[..] == u1;
      ZeroPrefix(u1, 0, uo, 5);
    }
    LeadingDigitScaled(v0, v[..], vo + 1, Pow2(d));
    ScaledTopBelow(u0, u[..], v[..], m, n, d);
  }

  lemma NoFallOut(x: digit, a: int, c: int)
    requires a > 0 && c > 0 && a * c == BASE && x * a < BASE
    ensures x / c == 0
    ensures 0 / c == 0
  {
    if x >= c { MulMonotone(c, x, a); }
    DivideUnique(x, c, 0, x);
    DivideUnique(0, c, 0, 0);
  }

  lemma LeadingDigitScaled(v0: seq<digit>, v: seq<digit>, lo: nat, a: int)
    requires |v0| == |v| == 5 && lo < 5 && a >= 1
    requires BASE / 2 <= v0[lo] * a
    requires Value(v, lo, 5) == a * Value(v0, lo, 5)
    ensures v[lo] >= BASE / 2
  {
    var k := 4 - lo;
    ValueBound(v0, lo + 1, 5);
    ValueBound(v, lo + 1, 5);
    Distribute(a, Shift(v0[lo], k), Value(v0, lo + 1, 5));
    ShiftTimes(a, v0[lo], k);
    MulMonotone(0, a, Value(v0, lo + 1, 5));
    if v[lo] < BASE / 2 {
      ShiftMonotone(v[lo] + 1, a * v0[lo], k);
      ShiftAdd(v[lo], 1, k);
    }
  }

  /** The leading n digits of the scaled dividend stay below the scaled divisor, so
      every quotient digit is below the base. */
  lemma ScaledTopBelow(u0: seq<digit>, u: seq<digit>, v: seq<digit>, m: nat, n: nat, d: nat)
    requires |u0| == |u| == |v| == 5 && n >= 2 && m + n <= 4 && d < 16
    requires forall i :: 0 <= i <= 4 - n - m ==> u0[i] == 0
    requires Value(u, 0, 5) == Pow2(d) * Value(u0, 0, 5)
    requires v[5 - n] >= BASE / 2
    ensures Value(u, 0, 4 - m) < Value(v, 5 - n, 5)
  {
    var vv, top := Value(v, 5 - n, 5), Value(u, 0, 4 - m);
    ScaledDividendBound(u0, m, n, d);
    ValueSplit(u, 0, 4 - m, 5);
    ValueBound(u, 4 - m, 5);
    ValueBound(v, 6 - n, 5);
    ShiftMonotone(BASE / 2, v[5 - n], n - 1);
    if vv <= top {
      ShiftMonotone(Shift(BASE / 2, n - 1), top, m + 1);
      ShiftShift(BASE / 2, n - 1, m + 1);
    }
  }

  lemma ScaledDividendBound(u0: seq<digit>, m: nat, n: nat, d: nat)
    requires |u0| == 5 && m + n <= 4 && d < 16
    requires forall i :: 0 <= i <= 4 - n - m ==> u0[i] == 0
    ensures Pow2(d) * Value(u0, 0, 5) < Shift(BASE / 2, n + m)
  {
    Pow2Monotone(d, 15);
    Pow2Sixteen();
    ZeroPrefix(u0, 0, 5 - n - m, 5);
    ValueBound(u0, 5 - n - m, 5);
    ShiftTimes(BASE / 2, 1, n + m);
    MulMonotone(Pow2(d), BASE / 2, Value(u0, 0, 5));
  }

  lemma {:induction false} ShiftShift(x: int, j: nat, k: nat)
    ensures Shift(Shift(x, j), k) == Shift(x, j + k)
  {
    if k != 0 { ShiftShift(x, j, k - 1); }
  }

  /** The scaled remainder shifted back is the remainder. */
  lemma Unscale(uq: int, vq: int, q: int, a: int, rest: int, r: int)
    requires a > 0 && vq > 0 && r == uq - q * vq
    requires a * uq == q * (a * vq) + rest && 0 <= rest < a * vq
    ensures rest == r * a && 0 <= r < vq
  {
    assert q * (a * vq) == a * (q * vq);
    assert a * (uq - q * vq) == a * uq - a * (q * vq);
    if r < 0 { MulMonotone(r, -1, a); }
    if r >= vq { MulMonotone(vq, r, a); }
  }

  /** __qdivrem. */
  method Qdivrem(uq: int, vq: int) returns (res: Division)
    requires 0 <= uq < TWO64 && 0 <= vq < TWO64
    ensures vq == 0 ==> res == DivideError
    ensures vq != 0 ==> res.Quotient? && uq == res.q * vq + res.r && 0 <= res.r < vq
  {
    if vq == 0 {
      // The program divides by a volatile zero, which traps.
      return DivideError;
    }
    if uq < vq {
      return Quotient(0, uq);
    }
    var u := LoadDigits(uq);
    var v := LoadDigits(vq);
    var q := new digit[5];
    var n, vo := 4, 0;
    ghost var u0, v0 := u[..], v[..];
    while v[vo + 1] == 0
      invariant u[..] == u0 && v[..] == v0
      invariant 2 <= n <= 4 && vo == 4 - n
      invariant forall i :: 0 <= i <= vo ==> v[i] == 0
      decreases n
    {
      n := n - 1;
      if n == 1 {
        var t := v[vo + 2];
        ZeroPrefix(v[..], 1, 4, 5);
        var q1, r1 := DivideByDigit(u, t);
        return Quotient(q1, r1);
      }
      vo := vo + 1;
    }
    var m, uo := 4 - n, 0;
    while u[uo + 1] == 0
      invariant u[..] == u0 && v[..] == v0
      invariant uo + m == 4 - n && uo >= 0 && m >= 0
      invariant forall i :: 0 <= i <= uo ==> u[i] == 0
      decreases m
    {
      EnoughDigits(u0, v0, vo, uo + 1);
      m := m - 1;
      uo := uo + 1;
    }
    var i := 4 - m;
    while i > 0
      invariant u[..] == u0 && v[..] == v0
      invariant 0 <= i <= 4 - m
      invariant forall k :: i <= k < 4 - m ==> q[k] == 0
    {
      i := i - 1;
      q[i] := 0;
    }
    res := DivideProper(u, v, q, m, n, uq, vq);
  }

  /** A dividend not below the divisor has at least as many digits. */
  lemma EnoughDigits(u: seq<digit>, v: seq<digit>, vo: nat, k: nat)
    requires |u| == |v| == 5 && vo <= 2 && k <= vo + 1
    requires forall i :: 0 <= i <= k ==> u[i] == 0
    requires forall i :: 0 <= i <= vo ==> v[i] == 0
    requires v[vo + 1] != 0 && Value(v, 0, 5) <= Value(u, 0, 5)
    ensures k < vo + 1
  {
    if k == vo + 1 {
      ZeroPrefix(u, 0, vo + 2, 5);
      ZeroPrefix(v, 0, vo + 1, 5);
      ValueBound(u, vo + 2, 5);
      ValueBound(v, vo + 2, 5);
      ShiftMonotone(1, v[vo + 1], 3 - vo);
    }
  }

  /** Steps D1 to D8, for a divisor of at least two digits. */
  method DivideProper(u: array<digit>, v: array<digit>, q: array<digit>, m: nat, n: nat, ghost uq: int, ghost vq: int)
    returns (res: Division)
    requires u.Length == v.Length == q.Length == 5 && u != v && u != q && v != q
    requires n >= 2 && m + n <= 4
    requires v[5 - n] > 0 && forall i :: 0 <= i <= 4 - n - m ==> u[i] == 0
    requires forall i :: 1 <= i < 5 - n ==> v[i] == 0
    requires forall i :: 0 <= i < 4 - m ==> q[i] == 0
    requires Value(u[..], 0, 5) == uq && Value(v[..], 1, 5) == vq && vq > 0
    modifies u, v, q
    ensures res.Quotient? && uq == res.q * vq + res.r && 0 <= res.r < vq
  {
    ZeroPrefix(v[..], 1, 5 - n, 5);
    assert n > 0;
    var d := Normalize(u, v, m, n);
    DivideDigits(u, v, q, m, n);
    ghost var rest, qq := Value(u[..], 0, 5), Value(q[..], 0, 5);
    ValueBound(u[..], 0, 5);
    ghost var r0 := uq - qq * vq;
    Unscale(uq, vq, qq, Pow2(d), rest, r0);
    ValueBound(v[..], 5 - n, 5);
    LeadingZeros(u[..], 0, 5, n);
    ghost var qs := q[..];
    var r := Remainder(u, m, n, d, r0);
    assert q[..] == qs;
    FourDigits(q[..]);
    var quot := StoreDigits(q);
    res := Quotient(quot, r);
  }

  /** The remainder, read back out of u after the normalizing shift is undone. */
  method Remainder(u: array<digit>, m: nat, n: nat, d: nat, ghost r0: int) returns (r: int)
    requires u.Length == 5 && m + n <= 4 && d < 16
    requires forall i :: 0 <= i < 5 - n ==> u[i] == 0
    requires Value(u[..], 0, 5) == r0 * Pow2(d)
    modifies u
    ensures r == r0
  {
    if d > 0 {
      var uo := 4 - n - m;
      ghost var u1 := u[..];
      ZeroPrefix(u1, 0, uo + m, 5);
      Denormalize(u, uo + m, 5, d);
      ZeroPrefix(u[..], 0, uo + m, 5);
      UnscaleExact(Value(u[..], 0, 5), u1[4] % Pow2(d), r0, Pow2(d));
    }
    FourDigits(u[..]);
    r := StoreDigits(u);
  }

  lemma UnscaleExact(x: int, low: int, r: int, a: int)
    requires a > 0 && 0 <= low < a && x * a + low == r * a
    ensures x == r
  {
    if x < r { MulMonotone(x + 1, r, a); }
    if x > r { MulMonotone(r, x, a); MulMonotone(r + 1, x, a); }
  }

  // ------------------------------------------------------------- wrappers

  /** __umoddi3 */
  method Umoddi3(a: int, b: int) returns (r: Division)
    requires 0 <= a < TWO64 && 0 <= b < TWO64
    ensures if b == 0 then r.DivideError? else r.Quotient? && r.r == a % b
  {
    r := Qdivrem(a, b);
    if b != 0 { DivideUnique(a, b, r.q, r.r); }
  }

  /** __udivdi3 */
  method Udivdi3(a: int, b: int) returns (r: Division)
    requires 0 <= a < TWO64 && 0 <= b < TWO64
    ensures if b == 0 then r.DivideError? else r.Quotient? && r.q == a / b
  {
    r := Qdivrem(a, b);
    if b != 0 { DivideUnique(a, b, r.q, r.r); }
  }

  /** The 64-bit pattern of a signed number, and the signed number of a pattern. */
  function ToUnsigned(x: int): int { x % TWO64 }

  function ToSigned(x: int): int { if x < TWO64 / 2 then x else x - TWO64 }

  /** C's signed quotient, truncated toward zero. */
  function Truncated(a: int, b: int): int
    requires b != 0
  {
    var x, y := if a < 0 then -a else a, if b < 0 then -b else b;
    if (a < 0) == (b < 0) then x / y else -(x / y)
  }

  datatype SignedDivision = SignedError | SignedQuotient(q: int)

  /** __divdi3, over the quotient alone. The one quotient a signed 64-bit result cannot hold, -2^63 / -1,
      comes back as -2^63; every other quotient is exact. */
  method Divdi3(a: int, b: int) returns (res: SignedDivision)
    requires -TWO64 / 2 <= a < TWO64 / 2 && -TWO64 / 2 <= b < TWO64 / 2
    ensures b == 0 ==> res.SignedError?
    ensures b != 0 ==> res.SignedQuotient?
    ensures b != 0 ==> (res.q == Truncated(a, b) <==> !(a == -TWO64 / 2 && b == -1))
    ensures a == -TWO64 / 2 && b == -1 ==> res.q == -TWO64 / 2
  {
    var neg := false;
    var ua, ub := ToUnsigned(a), ToUnsigned(b);
    Magnitude(a);
    Magnitude(b);
    if a < 0 { ua := (-ua) % TWO64; neg := !neg; }
    if b < 0 { ub := (-ub) % TWO64; neg := !neg; }
    var d := Udivdi3(ua, ub);
    if d.DivideError? { return SignedError; }
    DivMod(ua, ub);
    QuotientRange(ua, ub, d.q, ua % ub);
    SignOf(a, b, ua, ub, d.q);
    var uq := d.q;
    if neg { uq := (-uq) % TWO64; }
    res := SignedQuotient(ToSigned(uq));
  }

  /** Putting the sign back on the quotient of the magnitudes. */
  lemma SignOf(a: int, b: int, x: int, y: int, q: int)
    requires b != 0 && x == (if a < 0 then -a else a) && y == (if b < 0 then -b else b)
    requires q == x / y && 0 <= q <= x <= TWO64 / 2
    requires q == TWO64 / 2 ==> x == TWO64 / 2 && y == 1
    requires x == TWO64 / 2 && y == 1 ==> q == TWO64 / 2
    requires a < TWO64 / 2 && b < TWO64 / 2
    ensures var uq := if (a < 0) != (b < 0) then (-q) % TWO64 else q;
            && (ToSigned(uq) == Truncated(a, b) <==> !(a == -TWO64 / 2 && b == -1))
            && (a == -TWO64 / 2 && b == -1 ==> ToSigned(uq) == -TWO64 / 2)
  {
    Negated(q);
  }

  lemma Magnitude(x: int)
    requires -TWO64 / 2 <= x < TWO64 / 2
    ensures 0 <= ToUnsigned(x) < TWO64
    ensures x >= 0 ==> ToUnsigned(x) == x
    ensures x < 0 ==> (-ToUnsigned(x)) % TWO64 == -x
  {
    if x < 0 {
      assert ToUnsigned(x) == x + TWO64;
      Negated(x + TWO64);
    }
  }

  lemma Negated(x: int)
    requires 0 <= x <= TWO64
    ensures (-x) % TWO64 == if x == 0 then 0 else TWO64 - x
  {
    if x != 0 { assert (-x) % TWO64 == (TWO64 - x) % TWO64; }
  }

  lemma QuotientRange(n: int, d: int, q: int, r: int)
    requires n == q * d + r && 0 <= r < d && 0 <= n <= TWO64 / 2
    ensures 0 <= q <= n
    ensures q == TWO64 / 2 ==> n == TWO64 / 2 && d == 1
    ensures n == TWO64 / 2 && d == 1 ==> q == TWO64 / 2
  {
    if q < 0 { MulMonotone(q, -1, d); }
    MulMonotone(1, d, q);
    if d >= 2 && q > 0 { MulMonotone(2, d, q); }
  }
}
