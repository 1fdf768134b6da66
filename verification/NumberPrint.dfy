/** The number path of the kernel's printf. */
module NumberPrint {
  import opened DivMod

  const ZERO_CHAR: char := '0'

  /** What the flags and the width of a conversion ask for; `padc` is a blank or a zero,
      `plus` is the character for a sign that is not negative, if any. */
  datatype Spec = Spec(length: int, ladjust: bool, padc: char, plus: string, altfmt: bool, base: nat)

  predicate GoodSpec(f: Spec) {
    && (f.padc == ' ' || f.padc == '0') && (f.plus == "" || f.plus == "+" || f.plus == " ")
    && (f.base == 8 || f.base == 10 || f.base == 16)
  }

  /** digits[d] */
  function DigitChar(d: nat): char
    requires d < 16
  {
    "0123456789abcdef"[d]
  }

  /** u % base and u / base */
  function Low(u: nat, base: nat): (r: nat)
    requires 2 <= base
    ensures r < base
  {
    u % base
  }

  function High(u: nat, base: nat): (q: nat)
    requires 2 <= base
    ensures u == base * q + Low(u, base)
    ensures u > 0 ==> q < u
    ensures q == 0 <==> u < base
  {
    QuotientFacts(u, base, u / base, u % base);
    u / base
  }

  lemma QuotientFacts(u: nat, base: nat, q: nat, r: nat)
    requires 2 <= base && u == base * q + r && r < base
    ensures u > 0 ==> q < u
    ensures q == 0 <==> u < base
  {
    if q > 0 {
      assert base * q == 2 * q + (base - 2) * q;
      Multiple(base, q);
      assert (base - 2) * q >= 0;
    }
  }

  /** A number in a base, most significant digit first. */
  function Digits(u: nat, base: nat): (s: string)
    requires 2 <= base <= 16
    ensures s != []
    decreases u
  {
    if u < base then [DigitChar(u)] else Digits(High(u, base), base) + [DigitChar(Low(u, base))]
  }

  function Repeat(c: char, n: int): (s: string)
    ensures |s| == if n < 0 then 0 else n
    ensures forall i :: 0 <= i < |s| ==> s[i] == c
  {
    if n <= 0 then [] else Repeat(c, n - 1) + [c]
  }

  function Prefix(u: nat, f: Spec): string {
    if u != 0 && f.altfmt then (if f.base == 8 then "0" else if f.base == 16 then "0x" else "") else ""
  }

  /** How much padding a number needs. */
  function Padding(u: nat, sign: string, f: Spec): int
    requires GoodSpec(f)
  {
    f.length - |Digits(u, f.base)| - |sign| - |Prefix(u, f)|
  }

  /** The text of a number: blanks before the sign, or zeros after the sign and the prefix,
      or blanks at the end. A zero pad character wins over left adjustment. */
  function Rendered(u: nat, sign: string, f: Spec): string
    requires GoodSpec(f)
  {
    var pad := Padding(u, sign, f);
    (if f.padc == ' ' && !f.ladjust then Repeat(' ', pad) else [])
    + sign + Prefix(u, f)
    + (if f.padc == '0' then Repeat('0', pad) else [])
    + Digits(u, f.base)
    + (if f.padc == ' ' && f.ladjust then Repeat(' ', pad) else [])
  }

  function SignOf(n: int, f: Spec): string { if n >= 0 then f.plus else "-" }

  function Magnitude(n: int): nat { if n >= 0 then n else -n }

  // ------------------------------------------------------------------ the digit loop

  /** The digits, produced least significant first and stored from the end of the
      buffer. */
  method BuildDigits(value: nat, base: nat) returns (buf: string)
    requires 2 <= base <= 16
    ensures buf == Digits(value, base)
  {
    hide Digits, DigitChar, Low, High;
    var u: nat := value;
    DigitsStep(u, base);
    buf := [DigitChar(Low(u, base))];
    u := High(u, base);
    while u != 0
      invariant LeftOver(u, base) + buf == Digits(value, base)
    {
      DigitsStep(u, base);
      var d := DigitChar(Low(u, base));
      assert LeftOver(High(u, base), base) + ([d] + buf) == LeftOver(High(u, base), base) + [d] + buf;
      buf := [d] + buf;
      u := High(u, base);
    }
  }

  /** The digits still to be produced. */
  function LeftOver(u: nat, base: nat): string
    requires 2 <= base <= 16
  {
    if u == 0 then "" else Digits(u, base)
  }

  lemma DigitsStep(u: nat, base: nat)
    requires 2 <= base <= 16
    ensures Digits(u, base) == LeftOver(High(u, base), base) + [DigitChar(Low(u, base))]
  {
    hide Low, High, DigitChar;
  }

  /** A padding loop: `while (--length >= 0)`. */
  method Pad(out: string, c: char, length: int) returns (r: string, left: int)
    ensures r == out + Repeat(c, length) && left < 0 && (length >= 0 ==> left == -1)
  {
    r, left := out, length - 1;
    ghost var n := 0;
    while left >= 0
      invariant 0 <= n && (length >= 0 ==> left == length - 1 - n && n <= length) && (length < 0 ==> n == 0 && left == length - 1)
      invariant r == out + Repeat(c, n)
      decreases left
    {
      r := r + [c];
      n := n + 1;
      left := left - 1;
    }
  }

  /** The alternate form's prefix. */
  method PrefixOf(u: nat, f: Spec) returns (prefix: string)
    ensures prefix == Prefix(u, f)
  {
    prefix := "";
    if u != 0 && f.altfmt {
      if f.base == 8 {
        prefix := "0";
      } else if f.base == 16 {
        prefix := "0x";
      }
    }
  }

  /** print_num */
  method PrintNum(u: nat, sign: string, f: Spec) returns (out: string)
    requires GoodSpec(f)
    ensures out == Rendered(u, sign, f)
  {
    hide Digits, Repeat, Prefix;
    var prefix := PrefixOf(u, f);
    var buf := BuildDigits(u, f.base);
    var length := f.length - |buf| - |sign| - |prefix|;
    ghost var pad := length;
    out := [];
    if f.padc == ' ' && !f.ladjust {
      out, length := Pad(out, ' ', length);
    }
    out := out + sign + prefix;
    if f.padc == '0' {
      out, length := Pad(out, '0', length);
    }
    out := out + buf;
    if f.ladjust {
      out, length := Pad(out, ' ', length);
      assert f.padc == '0' ==> Repeat(' ', -2) == "";
    }
  }

  /** print_signed and print_unsigned */
  method PrintSigned(n: int, f: Spec) returns (out: string)
    requires GoodSpec(f)
    ensures out == Rendered(Magnitude(n), SignOf(n, f), f)
  {
    out := PrintNum(Magnitude(n), SignOf(n, f), f);
  }

  method PrintUnsigned(u: nat, f: Spec) returns (out: string)
    requires GoodSpec(f)
    ensures out == Rendered(u, "", f)
  {
    out := PrintNum(u, "", f);
  }

  function Power(b: nat, k: nat): nat { if k == 0 then 1 else b * Power(b, k - 1) }

  /** Eleven digits are enough for any 32-bit number, well within the buffer of 32. */
  lemma {:induction false} DigitsFit(u: nat, base: nat, k: nat)
    requires 2 <= base <= 16 && u < Power(base, k) && k > 0
    ensures |Digits(u, base)| <= k
  {
    hide DigitChar, Low, High;
    if u >= base {
      Below(u, base, Power(base, k - 1));
      DigitsFit(High(u, base), base, k - 1);
    }
  }

  lemma Below(u: nat, base: nat, q: nat)
    requires 2 <= base && u < base * q
    ensures High(u, base) < q
  {
    hide High;
    var d := High(u, base) - q;
    assert base * d == base * High(u, base) - base * q;
    Multiple(base, d);
  }

  lemma BufferIsEnough(u: nat, f: Spec)
    requires GoodSpec(f) && u < 0x1_0000_0000
    ensures |Digits(u, f.base)| <= 11
  {
    hide Digits, Power;
    Powers();
    DigitsFit(u, f.base, 11);
  }

  lemma {:induction false} PowerAdd(b: nat, i: nat, j: nat)
    ensures Power(b, i + j) == Power(b, i) * Power(b, j)
  {
    if j > 0 { PowerAdd(b, i, j - 1); }
  }

  lemma Powers()
    ensures Power(8, 11) == 0x2_0000_0000 && Power(10, 11) == 100_000_000_000 && Power(16, 11) == 0x1000_0000_0000
  {
    PowerEleven(8);
    PowerEleven(10);
    PowerEleven(16);
  }

  lemma PowerEleven(b: nat)
    ensures Power(b, 1) == b
    ensures var p := b * b * b * b * b; Power(b, 11) == p * p * b
  {
    assert Power(b, 1) == b;
    PowerAdd(b, 1, 1);
    PowerAdd(b, 2, 1);
    PowerAdd(b, 3, 1);
    PowerAdd(b, 4, 1);
    PowerAdd(b, 5, 5);
    PowerAdd(b, 10, 1);
  }
}
