/** strtol and strtoul. A string ends where its sequence does; reading past the end yields
    the terminating NUL. */
module NumberParse {
  import opened Basics

  const MAX_LONG: int := 0x7FFF_FFFF
  const ULONGS: nat := 0x1_0000_0000

  function At(s: string, i: nat): char { if i < |s| then s[i] else '\0' }

  predicate IsSpace(c: char) { c == ' ' || c == '\U{0C}' || c == '\n' || c == '\r' || c == '\t' || c == '\U{0B}' }

  predicate IsAlnum(c: char) { '0' <= c <= '9' || 'a' <= c <= 'z' || 'A' <= c <= 'Z' }

  /** The digit a character is in a base. */
  function DigitOf(c: char, base: nat): (d: Option<nat>)
    ensures d.Some? ==> d.value < base && IsAlnum(c)
  {
    if '0' <= c <= '9' && c as int - '0' as int < base then Some(c as int - '0' as int)
    else if 'a' <= c <= 'z' && c as int - 'a' as int + 10 < base then Some(c as int - 'a' as int + 10)
    else if 'A' <= c <= 'Z' && c as int - 'A' as int + 10 < base then Some(c as int - 'A' as int + 10)
    else None
  }

  /** The first character from `i` on that is not white space. */
  function SkipSpace(s: string, i: nat): (r: nat)
    ensures i <= r
    decreases |s| - i
  {
    if i < |s| && IsSpace(s[i]) then SkipSpace(s, i + 1) else i
  }

  /** The number that starts with `v` and goes on with the digits from `i` on, and where
      they end. */
  function Scan(s: string, i: nat, base: nat, v: nat): (nat, nat)
    decreases |s| - i
  {
    if i < |s| && DigitOf(s[i], base).Some? then Scan(s, i + 1, base, v * base + DigitOf(s[i], base).value) else (v, i)
  }

  predicate HexPrefix(s: string, i: nat, base: nat) {
    (base == 16 || base == 0) && At(s, i) == '0' && (At(s, i + 1) == 'x' || At(s, i + 1) == 'X')
  }

  /** The base that is meant and where the digits start. */
  function Detect(s: string, i: nat, base: nat): (nat, nat)
  {
    if HexPrefix(s, i, base) then (16, i + 2)
    else if base == 0 then (if At(s, i) == '0' then 8 else 10, i)
    else (base, i)
  }

  /** The magnitude in the text from `i` on, and where it ends. */
  function Magnitude(s: string, i: nat, base: nat): (nat, nat)
  {
    var (b, j) := Detect(s, i, base);
    Scan(s, j, b, 0)
  }

  /** What strtol reads: a minus sign is passed over, a plus sign is not. */
  function Signed(s: string, base: nat): (int, nat)
  {
    var i := SkipSpace(s, 0);
    if At(s, i) == '-' then
      var (v, end) := Magnitude(s, i + 1, base);
      (-(v as int), end)
    else
      var (v, end) := Magnitude(s, i, base);
      (v as int, end)
  }

  function Unsigned(s: string, base: nat): (nat, nat) { Magnitude(s, SkipSpace(s, 0), base) }

  // ------------------------------------------------------------------------- the loops

  lemma {:induction false} ScanGrows(s: string, i: nat, base: nat, v: nat)
    requires base > 0
    ensures v <= Scan(s, i, base, v).0 && i <= Scan(s, i, base, v).1
    decreases |s| - i
  {
    if i < |s| && DigitOf(s[i], base).Some? {
      var d := DigitOf(s[i], base).value;
      assert v * base >= v;
      ScanGrows(s, i + 1, base, v * base + d);
    }
  }

  method SkipSpaces(s: string) returns (p: nat)
    ensures p == SkipSpace(s, 0)
  {
    p := 0;
    while p < |s| && IsSpace(s[p])
      invariant p <= |s| && SkipSpace(s, p) == SkipSpace(s, 0)
    {
      p := p + 1;
    }
  }

  /** The digit loop. `overflow` says that some intermediate value exceeded the range of a
      long, where the program's behaviour is undefined; it did so if and only if the whole
      magnitude does. */
  method ScanLong(s: string, start: nat, base: nat) returns (v: nat, p: nat, ghost overflow: bool)
    requires base > 0
    ensures (v, p) == Scan(s, start, base, 0)
    ensures overflow <==> v > MAX_LONG
  {
    hide DigitOf;
    v, p, overflow := 0, start, false;
    while p < |s| && DigitOf(s[p], base).Some?
      invariant start <= p && Scan(s, p, base, v) == Scan(s, start, base, 0)
      invariant overflow <==> v > MAX_LONG
      decreases |s| - p
    {
      var d := DigitOf(s[p], base).value;
      Shifted(v, base, d);
      v := v * base + d;
      overflow := overflow || v > MAX_LONG;
      p := p + 1;
    }
  }

  lemma Shifted(v: nat, base: nat, d: nat)
    requires base > 0
    ensures v <= v * base + d
  {
  }

  /** The digit loop in unsigned arithmetic, which wraps around. */
  method ScanUnsigned(s: string, start: nat, base: nat) returns (v: nat, p: nat)
    requires base > 0
    ensures v == Scan(s, start, base, 0).0 % ULONGS && p == Scan(s, start, base, 0).1
  {
    hide DigitOf;
    v, p := 0, start;
    ghost var exact: nat := 0;
    while p < |s| && DigitOf(s[p], base).Some?
      invariant start <= p && Scan(s, p, base, exact) == Scan(s, start, base, 0) && v == exact % ULONGS
      decreases |s| - p
    {
      var d := DigitOf(s[p], base).value;
      WrapStep(exact, v, base, d);
      v := (v * base + d) % ULONGS;
      exact := exact * base + d;
      p := p + 1;
    }
  }

  lemma WrapStep(exact: nat, v: nat, base: nat, d: nat)
    requires v == exact % ULONGS
    ensures (v * base + d) % ULONGS == (exact * base + d) % ULONGS
  {
    var q := exact / ULONGS;
    assert exact * base + d == (v * base + d) + ULONGS * (q * base) by {
      assert exact == v + ULONGS * q;
    }
    AddMultiple(v * base + d, q * base);
  }

  lemma AddMultiple(a: nat, k: nat)
    ensures (a + 0x1_0000_0000 * k) % 0x1_0000_0000 == a % 0x1_0000_0000
  {
  }

  /** strtol */
  method Strtol(s: string, base: nat) returns (v: int, end: nat, ghost overflow: bool)
    ensures (v, end) == Signed(s, base)
    ensures overflow <==> v > MAX_LONG || v < -MAX_LONG
    requires base == 0 || 2 <= base <= 36
  {
    hide Scan, SkipSpace;
    var p := SkipSpaces(s);
    var isNeg := false;
    if At(s, p) == '-' {
      isNeg := true;
      p := p + 1;
    } else if At(s, p) == '+' {
      isNeg := false;
    }
    var b := base;
    if (b == 16 || b == 0) && At(s, p) == '0' && (At(s, p + 1) == 'x' || At(s, p + 1) == 'X') {
      p := p + 2;
      b := 16;
    }
    if b == 0 {
      if At(s, p) == '0' {
        b := 8;
      } else {
        b := 10;
      }
    }
    v, end, overflow := ScanLong(s, p, b);
    if isNeg {
      v := -v;
    }
  }

  /** strtoul */
  method Strtoul(s: string, base: nat) returns (v: nat, end: nat)
    requires base == 0 || 2 <= base <= 36
    ensures v == Unsigned(s, base).0 % ULONGS && end == Unsigned(s, base).1
  {
    hide Scan, SkipSpace;
    var p := SkipSpaces(s);
    var b := base;
    if (b == 16 || b == 0) && At(s, p) == '0' && (At(s, p + 1) == 'x' || At(s, p + 1) == 'X') {
      p := p + 2;
      b := 16;
    }
    if b == 0 {
      if At(s, p) == '0' {
        b := 8;
      } else {
        b := 10;
      }
    }
    v, end := ScanUnsigned(s, p, b);
  }
}
