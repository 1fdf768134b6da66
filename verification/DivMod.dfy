/** Quotients and remainders. */
module DivMod {

  lemma Multiple(p: nat, d: int)
    ensures d >= 1 ==> p * d >= p
    ensures d <= 0 ==> p * d <= 0
    ensures d <= -1 ==> p * d + p <= 0
  {
    if d >= 1 {
      assert p * d == p + p * (d - 1);
    } else if d <= -1 {
      assert p * d == p * (d + 1) - p;
    }
  }

  lemma ModUnique(a: int, p: nat, q: int, r: int)
    requires p > 0 && a == p * q + r && 0 <= r < p
    ensures a / p == q && a % p == r
  {
    SameQuotient(a, p, q, r, a / p, a % p);
  }

  lemma SameQuotient(a: int, p: nat, q: int, r: int, q': int, r': int)
    requires a == p * q + r == p * q' + r' && 0 <= r < p && 0 <= r' < p
    ensures q == q' && r == r'
  {
    assert p * (q' - q) == r - r';
    Multiple(p, q' - q);
  }

  /** Numbers with the same remainder are a multiple of the divisor apart. */
  lemma SameRemainder(a: int, b: int, p: nat, q: int, q': int, r: int)
    requires a == p * q + r && b == p * q' + r && a < b
    ensures a + p <= b
  {
    assert p * (q' - q) == b - a;
    Multiple(p, q' - q);
  }

  lemma OneMore(p: nat, q: int)
    ensures p * (q + 1) == p * q + p
  {
  }
}
