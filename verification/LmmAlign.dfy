/** The alignment loop of lmm_alloc_gen: the least address from a start on that agrees with
    an offset in its low bits. */
module LmmAlign {
  import opened DivMod

  function Pow2(i: nat): (p: nat)
    ensures p > 0
  {
    if i == 0 then 1 else 2 * Pow2(i - 1)
  }

  /** Bit `i` of a number. */
  function Bit(a: nat, i: nat): (b: nat)
    ensures b < 2
  {
    a / Pow2(i) % 2
  }

  /** `a` and `b` agree in their low `i` bits. */
  ghost predicate Agree(a: nat, b: nat, i: nat) { a % Pow2(i) == b % Pow2(i) }

  /** `r` is the least address from `start` on that agrees with `ofs`. */
  ghost predicate LeastFrom(start: nat, ofs: nat, bits: nat, r: nat) {
    start <= r && Agree(r, ofs, bits) && forall a: nat :: start <= a && Agree(a, ofs, bits) ==> r <= a
  }

  // ------------------------------------------------------------------ arithmetic

  /** The low i + 1 bits are bit i and the low i bits. */
  lemma LowBits(a: nat, i: nat)
    ensures a % Pow2(i + 1) == Bit(a, i) * Pow2(i) + a % Pow2(i)
  {
    var p, q := Pow2(i), a / Pow2(i);
    assert a == p * q + a % p;
    assert q == 2 * (q / 2) + q % 2;
    var h, b, low := q / 2, q % 2, a % p;
    assert a == (2 * p) * h + (b * p + low) by {
      assert p * q == p * (2 * h + b);
      assert p * (2 * h + b) == (2 * p) * h + b * p;
    }
    assert b * p + low < 2 * p by {
      if b == 1 { assert b * p == p; } else { assert b * p == 0; }
    }
    assert b * p >= 0;
    ModUnique(a, 2 * p, h, b * p + low);
  }

  lemma AgreeNext(a: nat, ofs: nat, i: nat)
    requires Agree(a, ofs, i)
    ensures Agree(a, ofs, i + 1) <==> Bit(a, i) == Bit(ofs, i)
  {
    LowBits(a, i);
    LowBits(ofs, i);
    var p := Pow2(i);
    if Bit(a, i) != Bit(ofs, i) {
      assert Bit(a, i) * p != Bit(ofs, i) * p by {
        if Bit(a, i) == 0 { assert Bit(ofs, i) * p == p; } else { assert Bit(a, i) * p == p; }
      }
    }
  }

  /** Adding the bit flips it and leaves the lower ones alone. */
  lemma AddBit(a: nat, ofs: nat, i: nat)
    requires Agree(a, ofs, i) && Bit(a, i) != Bit(ofs, i)
    ensures Agree(a + Pow2(i), ofs, i + 1)
  {
    hide Pow2, Bit;
    NextMultiple(a, i);
    AgreeNext(a + Pow2(i), ofs, i);
  }

  lemma NextMultiple(a: nat, i: nat)
    ensures (a + Pow2(i)) % Pow2(i) == a % Pow2(i)
    ensures Bit(a + Pow2(i), i) == 1 - Bit(a, i)
  {
    hide Pow2;
    var p, q := Pow2(i), a / Pow2(i);
    OneMore(p, q);
    ModUnique(a + p, p, q + 1, a % p);
  }

  /** Two addresses that agree are a multiple of the alignment apart. */
  lemma AgreeApart(a: nat, b: nat, i: nat)
    requires Agree(a, b, i) && a < b
    ensures a + Pow2(i) <= b
  {
    hide Pow2;
    var p := Pow2(i);
    SameRemainder(a, b, p, a / p, b / p, a % p);
  }

  // -------------------------------------------------------------------- the loop

  /** The bit loop: for each low bit that differs, add it. No sum wraps while the start
      and the alignment are below 2^31. */
  method AlignFrom(start: nat, ofs: nat, bits: nat) returns (addr: nat)
    ensures LeastFrom(start, ofs, bits, addr)
    ensures addr < start + Pow2(bits)
  {
    addr := start;
    var i := 0;
    assert Agree(addr, ofs, 0);
    while i < bits
      invariant 0 <= i <= bits
      invariant start <= addr < start + Pow2(i) && Agree(addr, ofs, i)
    {
      AgreeNext(addr, ofs, i);
      if Bit(addr, i) != Bit(ofs, i) {
        AddBit(addr, ofs, i);
        addr := addr + Pow2(i);
      }
      i := i + 1;
    }
    forall a: nat | start <= a && Agree(a, ofs, bits)
      ensures addr <= a
    {
      if a < addr { AgreeApart(a, addr, bits); }
    }
  }
}
