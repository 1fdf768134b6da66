/** Printing a number and reading it back. */
module NumberRoundTrip {
  import opened Basics
  import opened NumberPrint
  import opened NumberParse

  // ------------------------------------------------------------ reading known stretches

  /** The number that starts with `v` and goes on with the digits `d`. */
  function Eval(d: string, base: nat, v: nat): nat {
    if d == [] then v
    else if DigitOf(d[0], base).Some? then Eval(d[1..], base, v * base + DigitOf(d[0], base).value)
    else v
  }

  predicate AllDigits(d: string, base: nat) { forall i :: 0 <= i < |d| ==> DigitOf(d[i], base).Some? }

  /** Scanning over digits. */
  lemma {:induction false} ScanOver(s: string, i: nat, d: string, base: nat, v: nat)
    requires AllDigits(d, base) && i + |d| <= |s| && s[i..i + |d|] == d
    ensures Scan(s, i, base, v) == Scan(s, i + |d|, base, Eval(d, base, v))
    decreases |d|
  {
    hide DigitOf;
    if d != [] {
      assert s[i] == d[0];
      assert s[i + 1..i + 1 + |d[1..]|] == d[1..];
      ScanOver(s, i + 1, d[1..], base, v * base + DigitOf(d[0], base).value);
    }
  }

  lemma {:induction false} EvalSnoc(d: string, c: char, base: nat, v: nat)
    requires AllDigits(d, base) && DigitOf(c, base).Some?
    ensures Eval(d + [c], base, v) == Eval(d, base, v) * base + DigitOf(c, base).value
    decreases |d|
  {
    hide DigitOf;
    if d == [] {
      assert [] + [c] == [c] && [c][1..] == [];
    } else {
      assert (d + [c])[0] == d[0] && (d + [c])[1..] == d[1..] + [c];
      EvalSnoc(d[1..], c, base, v * base + DigitOf(d[0], base).value);
    }
  }

  lemma {:induction false} EvalConcat(d: string, e: string, base: nat, v: nat)
    requires AllDigits(d, base)
    ensures Eval(d + e, base, v) == Eval(e, base, Eval(d, base, v))
    decreases |d|
  {
    hide DigitOf;
    if d == [] {
      assert [] + e == e;
    } else {
      assert (d + e)[0] == d[0] && (d + e)[1..] == d[1..] + e;
      EvalConcat(d[1..], e, base, v * base + DigitOf(d[0], base).value);
    }
  }

  lemma DigitCharValue(d: nat, base: nat)
    requires d < base <= 16
    ensures DigitOf(DigitChar(d), base) == Some(d)
  {
  }

  /** Reading the digits of a number gives the number. */
  lemma {:induction false} EvalDigits(u: nat, base: nat)
    requires 2 <= base <= 16
    ensures AllDigits(Digits(u, base), base) && Eval(Digits(u, base), base, 0) == u
    decreases u
  {
    hide DigitChar, DigitOf, High, Low;
    if u < base {
      DigitCharValue(u, base);
      OneDigit(u, base);
    } else {
      var h, l := High(u, base), Low(u, base);
      EvalDigits(h, base);
      DigitCharValue(l, base);
      EvalSnoc(Digits(h, base), DigitChar(l), base, 0);
    }
  }

  lemma OneDigit(u: nat, base: nat)
    requires u < base <= 16 && DigitOf(DigitChar(u), base) == Some(u)
    ensures Eval([DigitChar(u)], base, 0) == u
  {
    assert [DigitChar(u)][1..] == [];
  }

  lemma {:induction false} EvalZeros(n: int, base: nat)
    requires base > 0
    ensures AllDigits(Repeat('0', n), base) && Eval(Repeat('0', n), base, 0) == 0
  {
    assert DigitOf('0', base) == Some(0);
    if n > 0 {
      EvalZeros(n - 1, base);
      EvalSnoc(Repeat('0', n - 1), '0', base, 0);
    }
  }

  lemma {:induction false} SkipBlanks(s: string, i: nat, n: nat)
    requires i + n <= |s| && (forall j :: i <= j < i + n ==> IsSpace(s[j])) && !IsSpace(At(s, i + n))
    ensures SkipSpace(s, i) == i + n
    decreases n
  {
    if n > 0 { SkipBlanks(s, i + 1, n - 1); }
  }

  // ------------------------------------------------------------------------ the layout

  /** A printed number with text behind it: blanks, a sign and a prefix, zeros and digits,
      and something that does not go on with a letter or a digit. */
  ghost predicate Layout(s: string, blanks: nat, mark: string, body: string, end: nat) {
    && end == blanks + |mark| + |body| <= |s|
    && (forall j :: 0 <= j < blanks ==> s[j] == ' ')
    && s[blanks..blanks + |mark|] == mark
    && s[blanks + |mark|..end] == body
    && !IsAlnum(At(s, end))
  }

  /** The zeros and the digits. */
  function Body(u: nat, sign: string, f: Spec): string
    requires GoodSpec(f)
  {
    (if f.padc == '0' then Repeat('0', Padding(u, sign, f)) else []) + Digits(u, f.base)
  }

  function Blanks(u: nat, sign: string, f: Spec): nat
    requires GoodSpec(f)
  {
    if f.padc == ' ' && !f.ladjust && Padding(u, sign, f) > 0 then Padding(u, sign, f) else 0
  }

  function Trail(u: nat, sign: string, f: Spec): string
    requires GoodSpec(f)
  {
    if f.padc == ' ' && f.ladjust then Repeat(' ', Padding(u, sign, f)) else []
  }

  lemma RenderedLayout(u: nat, sign: string, f: Spec, rest: string)
    requires GoodSpec(f) && !IsAlnum(At(rest, 0))
    ensures var n := Blanks(u, sign, f);
            Layout(Rendered(u, sign, f) + rest, n, sign + Prefix(u, f), Body(u, sign, f), n + |sign + Prefix(u, f)| + |Body(u, sign, f)|)
  {
    hide Digits, Repeat, Prefix, Padding, Rendered, Body, Layout;
    var lead := if f.padc == ' ' && !f.ladjust then Repeat(' ', Padding(u, sign, f)) else [];
    var mark, body, trail := sign + Prefix(u, f), Body(u, sign, f), Trail(u, sign, f);
    RenderedParts(u, sign, f);
    LayoutOf(lead, mark, body, trail + rest);
    assert lead + mark + body + trail + rest == lead + mark + body + (trail + rest);
    assert At(trail + rest, 0) == if trail != [] then ' ' else At(rest, 0);
  }

  lemma RenderedParts(u: nat, sign: string, f: Spec)
    requires GoodSpec(f)
    ensures var lead := if f.padc == ' ' && !f.ladjust then Repeat(' ', Padding(u, sign, f)) else [];
            Rendered(u, sign, f) == lead + (sign + Prefix(u, f)) + Body(u, sign, f) + Trail(u, sign, f)
  {
    hide Digits, Repeat, Prefix, Padding;
  }

  lemma LayoutOf(lead: string, mark: string, body: string, tail: string)
    requires (forall j :: 0 <= j < |lead| ==> lead[j] == ' ') && !IsAlnum(At(tail, 0))
    ensures Layout(lead + mark + body + tail, |lead|, mark, body, |lead| + |mark| + |body|)
  {
    var s := lead + mark + body + tail;
    assert s[|lead|..|lead| + |mark|] == mark;
    assert s[|lead| + |mark|..|lead| + |mark| + |body|] == body;
    assert At(s, |lead| + |mark| + |body|) == At(tail, 0);
  }

  lemma BodyValue(u: nat, sign: string, f: Spec, base: nat)
    requires GoodSpec(f) && base == f.base
    ensures var b := Body(u, sign, f); b != [] && AllDigits(b, base) && Eval(b, base, 0) == u
  {
    hide Digits, Repeat, Padding, DigitOf;
    EvalDigits(u, base);
    var z := if f.padc == '0' then Repeat('0', Padding(u, sign, f)) else [];
    if f.padc == '0' { EvalZeros(Padding(u, sign, f), base); }
    EvalConcat(z, Digits(u, base), base, 0);
  }

  // ------------------------------------------------------------------- reading the body

  /** The digit loop reads the whole body and stops behind it. */
  lemma ScanBody(s: string, blanks: nat, mark: string, body: string, end: nat, base: nat)
    requires Layout(s, blanks, mark, body, end) && AllDigits(body, base)
    ensures Scan(s, blanks + |mark|, base, 0) == (Eval(body, base, 0), end)
  {
    hide DigitOf;
    ScanOver(s, blanks + |mark|, body, base, 0);
    assert end < |s| ==> DigitOf(s[end], base).None?;
  }

  /** The first character of a body is a digit, and the second is no x. */
  lemma BodyStart(s: string, blanks: nat, mark: string, body: string, end: nat, base: nat)
    requires Layout(s, blanks, mark, body, end) && AllDigits(body, base) && body != [] && base <= 16
    ensures var i := blanks + |mark|;
            i < |s| && IsAlnum(s[i]) && s[i] == body[0] && s[i] != 'x' && s[i] != 'X' && At(s, i + 1) != 'x' && At(s, i + 1) != 'X'
  {
    var i := blanks + |mark|;
    assert s[i] == s[i..end][0];
    if |body| > 1 { assert s[i + 1] == s[i..end][1] && DigitOf(body[1], base).Some?; }
  }

  // --------------------------------------------------------------------- main results

  /** Where the last digit ends. */
  function DigitsEnd(u: nat, sign: string, f: Spec): nat
    requires GoodSpec(f)
  {
    Blanks(u, sign, f) + |sign + Prefix(u, f)| + |Body(u, sign, f)|
  }

  /** Printing in base ten and reading with strtol gives the number back and stops behind
      its last digit, for every 32-bit number above the least one and every width, padding
      and adjustment, if and only if no plus sign was printed: strtol does not pass over a
      plus sign. */
  lemma SignedRoundTrip(n: int, f: Spec, rest: string)
    requires GoodSpec(f) && f.base == 10 && -MAX_LONG <= n <= MAX_LONG && !IsAlnum(At(rest, 0))
    ensures var u, sign := NumberPrint.Magnitude(n), SignOf(n, f);
            Signed(Rendered(u, sign, f) + rest, 10) == (n, DigitsEnd(u, sign, f)) <==> !(f.plus == "+" && n >= 0)
  {
    hide Rendered, Body, Blanks, Eval, Scan, SkipSpace, Layout, AllDigits;
    var u, sign := NumberPrint.Magnitude(n), SignOf(n, f);
    var s, blanks, body, end := Rendered(u, sign, f) + rest, Blanks(u, sign, f), Body(u, sign, f), DigitsEnd(u, sign, f);
    assert Prefix(u, f) == "" && sign + "" == sign;
    RenderedLayout(u, sign, f, rest);
    BodyValue(u, sign, f, 10);
    ScanBody(s, blanks, sign, body, end, 10);
    BodyStart(s, blanks, sign, body, end, 10);
    Leading(s, blanks, sign, body, end);
    if sign == "+" { ScanPlus(s, blanks); }
  }

  /** What comes before the digits: where strtol stops skipping white space. */
  lemma Leading(s: string, blanks: nat, sign: string, body: string, end: nat)
    requires Layout(s, blanks, sign, body, end) && (sign == "" || sign == "-" || sign == "+" || sign == " ")
    requires body != [] && blanks + |sign| < |s| && IsAlnum(s[blanks + |sign|])
    ensures SkipSpace(s, 0) == blanks + if sign == " " then 1 else 0
    ensures sign == "-" || sign == "+" ==> blanks < |s| && s[blanks] == sign[0]
    ensures sign == "" ==> end == blanks + |body|
  {
    hide SkipSpace;
    if sign != "" { MarkAt(s, blanks, sign, 0); }
    SkipBlanks(s, 0, blanks + if sign == " " then 1 else 0);
  }

  lemma ScanPlus(s: string, i: nat)
    requires i < |s| && s[i] == '+'
    ensures Scan(s, i, 10, 0) == (0, i)
  {
  }

  /** The base that strtoul is called with fits the conversion: the same one, or 0 for the
      alternate forms, which say what base they are in. */
  predicate BaseFits(f: Spec, base: nat) { base == f.base || (base == 0 && f.altfmt && f.base != 10) }

  /** The same for %u, %x and %o with strtoul, and for %#x and %#o in base 0. */
  lemma UnsignedRoundTrip(u: nat, f: Spec, rest: string, base: nat)
    requires GoodSpec(f) && u < ULONGS && BaseFits(f, base) && !IsAlnum(At(rest, 0))
    ensures Unsigned(Rendered(u, "", f) + rest, base) == (u, DigitsEnd(u, "", f))
  {
    hide Rendered, Body, Blanks, Eval, Scan, SkipSpace, Layout, AllDigits;
    var s, blanks, body, end := Rendered(u, "", f) + rest, Blanks(u, "", f), Body(u, "", f), DigitsEnd(u, "", f);
    var mark := Prefix(u, f);
    assert "" + mark == mark;
    RenderedLayout(u, "", f, rest);
    BodyValue(u, "", f, f.base);
    BodyStart(s, blanks, mark, body, end, f.base);
    UnsignedLeading(s, blanks, mark, body, end);
    ScanBody(s, blanks, mark, body, end, f.base);
    if mark == "0" { ScanZero(s, blanks); }
    if u == 0 && base == 0 {
      BodyZero(f);
      ScanBody(s, blanks, mark, body, end, 8);
    }
  }

  lemma UnsignedLeading(s: string, blanks: nat, mark: string, body: string, end: nat)
    requires Layout(s, blanks, mark, body, end) && (mark == "" || mark == "0" || mark == "0x")
    requires body != [] && blanks + |mark| < |s| && IsAlnum(s[blanks + |mark|])
    ensures SkipSpace(s, 0) == blanks
    ensures mark != "" ==> s[blanks] == '0'
    ensures mark == "0x" ==> At(s, blanks + 1) == 'x'
  {
    hide SkipSpace;
    if mark != "" { MarkAt(s, blanks, mark, 0); }
    if mark == "0x" { MarkAt(s, blanks, mark, 1); }
    SkipBlanks(s, 0, blanks);
  }

  lemma MarkAt(s: string, i: nat, mark: string, k: nat)
    requires i + |mark| <= |s| && s[i..i + |mark|] == mark && k < |mark|
    ensures s[i + k] == mark[k]
  {
    assert s[i..i + |mark|][k] == s[i + k];
  }

  lemma ScanZero(s: string, i: nat)
    requires i < |s| && s[i] == '0'
    ensures Scan(s, i, 8, 0) == Scan(s, i + 1, 8, 0)
  {
  }

  /** A zero is printed as zeros only, which read the same in base eight. */
  lemma BodyZero(f: Spec)
    requires GoodSpec(f)
    ensures var b := Body(0, "", f); b != [] && b[0] == '0' && AllDigits(b, 8) && Eval(b, 8, 0) == 0
  {
    var n := if f.padc == '0' && Padding(0, "", f) > 0 then Padding(0, "", f) else 0;
    assert Digits(0, f.base) == ['0'];
    assert Body(0, "", f) == Repeat('0', n + 1);
    EvalZeros(n + 1, 8);
  }
}
