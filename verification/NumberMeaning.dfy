/** What the number path of printf writes and what strtol reads, character by character. */
module NumberMeaning {
  import opened Basics
  import opened DivMod
  import P = NumberPrint
  import opened NumberParse

  // -------------------------------------------------------------------------- printing

  /** The characters are the decimal digits and small letters. */
  lemma DigitChars(d: nat)
    requires d < 16
    ensures P.DigitChar(d) as int == if d < 10 then '0' as int + d else 'a' as int + d - 10
  {
  }

  /** The number divided k times by the base. */
  function Divided(u: nat, base: nat, k: nat): nat
    requires base > 0
    decreases k
  {
    if k == 0 then u else Divided(u / base, base, k - 1)
  }

  /** The k-th digit from the right is that of the number. */
  lemma {:induction false} DigitAt(u: nat, base: nat, k: nat)
    requires 2 <= base <= 16 && k < |P.Digits(u, base)|
    ensures var s := P.Digits(u, base); s[|s| - 1 - k] == P.DigitChar(Divided(u, base, k) % base)
    decreases u
  {
    hide P.DigitChar;
    HighLow(u, base);
    hide P.High, P.Low;
    if k > 0 { DigitAt(P.High(u, base), base, k - 1); }
  }

  lemma HighLow(u: nat, base: nat)
    requires 2 <= base
    ensures P.High(u, base) == u / base && P.Low(u, base) == u % base && (u < base ==> u % base == u)
  {
  }

  /** There is no leading zero. */
  lemma {:induction false} FirstDigit(u: nat, base: nat)
    requires 2 <= base <= 16
    ensures var s := P.Digits(u, base); s[0] == '0' ==> u == 0 && |s| == 1
    decreases u
  {
    if u >= base { FirstDigit(P.High(u, base), base); }
  }

  predicate Only(s: string, c: char) { forall i :: 0 <= i < |s| ==> s[i] == c }

  /** The text: blanks, the sign, the prefix, zeros, the digits, blanks. It is exactly as long
      as asked for, if the number itself is not longer; the padding is in one place only,
      zeros for a zero pad character, else blanks, behind the number if left adjustment is
      asked for. */
  lemma TextOf(u: nat, sign: string, f: P.Spec) returns (left: string, zeros: string, right: string)
    requires P.GoodSpec(f)
    ensures var number := sign + P.Prefix(u, f) + P.Digits(u, f.base);
            && P.Rendered(u, sign, f) == left + sign + P.Prefix(u, f) + zeros + P.Digits(u, f.base) + right
            && Only(left, ' ') && Only(zeros, '0') && Only(right, ' ')
            && |P.Rendered(u, sign, f)| == (if f.length > |number| then f.length else |number|)
            && (f.padc == '0' ==> left == right == "")
            && (f.padc == ' ' ==> zeros == "" && if f.ladjust then left == "" else right == "")
  {
    var pad := P.Padding(u, sign, f);
    left := if f.padc == ' ' && !f.ladjust then P.Repeat(' ', pad) else [];
    zeros := if f.padc == '0' then P.Repeat('0', pad) else [];
    right := if f.padc == ' ' && f.ladjust then P.Repeat(' ', pad) else [];
  }

  /** The prefix of the alternate form, for numbers other than zero. */
  lemma PrefixChars(u: nat, f: P.Spec)
    ensures P.Prefix(u, f) == if f.altfmt && u != 0 && f.base == 16 then ['0', 'x'] else if f.altfmt && u != 0 && f.base == 8 then ['0'] else []
  {
  }

  // --------------------------------------------------------------------------- reading

  /** White space: tab, newline, vertical tab, form feed, carriage return and blank. */
  lemma SpaceChars(c: char)
    ensures IsSpace(c) <==> 9 <= c as int <= 13 || c as int == 32
  {
  }

  /** Digits beyond 9 are letters, small or capital. */
  lemma DigitValues(c: char, base: nat)
    ensures var k := c as int;
            DigitOf(c, base) == (if 48 <= k <= 57 && k - 48 < base then Some(k - 48)
                                 else if 97 <= k <= 122 && k - 87 < base then Some(k - 87)
                                 else if 65 <= k <= 90 && k - 55 < base then Some(k - 55) else None)
  {
  }

  lemma {:induction false} SkipMeans(s: string, i: nat)
    ensures var j := SkipSpace(s, i);
            && i <= j && (forall k :: i <= k < j ==> k < |s| && IsSpace(s[k])) && (j < |s| ==> !IsSpace(s[j]))
    decreases |s| - i
  {
    hide IsSpace;
    var j := SkipSpace(s, i);
    if i < |s| && IsSpace(s[i]) {
      SkipMeans(s, i + 1);
      assert j == SkipSpace(s, i + 1);
    } else {
      assert j == i;
    }
  }

  /** The digits weighed by their places. */
  ghost function Weighed(s: string, i: nat, j: nat, base: nat): nat
    requires i <= j <= |s|
    decreases j - i
  {
    if i == j then 0
    else (if DigitOf(s[i], base).Some? then DigitOf(s[i], base).value else 0) * P.Power(base, j - i - 1) + Weighed(s, i + 1, j, base)
  }

  /** The scan stops at the first character that is no digit, and the number is the sum of
      the digits by their places. */
  lemma {:induction false} ScanMeans(s: string, i: nat, base: nat, v: nat)
    requires i <= |s|
    ensures var (r, j) := Scan(s, i, base, v);
            && i <= j <= |s| && (forall k :: i <= k < j ==> DigitOf(s[k], base).Some?) && (j < |s| ==> DigitOf(s[j], base).None?)
            && r == v * P.Power(base, j - i) + Weighed(s, i, j, base)
    decreases |s| - i
  {
    hide DigitOf, P.Power, Weighed;
    if i < |s| && DigitOf(s[i], base).Some? {
      var d := DigitOf(s[i], base).value;
      var j := Scan(s, i + 1, base, v * base + d).1;
      ScanMeans(s, i + 1, base, v * base + d);
      FirstWeighs(s, i, j, base, v, d);
    } else {
      NothingWeighs(s, i, base, v);
    }
  }

  lemma FirstWeighs(s: string, i: nat, j: nat, base: nat, v: nat, d: nat)
    requires i < j <= |s| && DigitOf(s[i], base) == Some(d)
    ensures v * P.Power(base, j - i) + Weighed(s, i, j, base) == (v * base + d) * P.Power(base, j - (i + 1)) + Weighed(s, i + 1, j, base)
  {
    var p := P.Power(base, j - i - 1);
    assert P.Power(base, j - i) == base * p;
    assert (v * base + d) * p == v * (base * p) + d * p;
  }

  lemma NothingWeighs(s: string, i: nat, base: nat, v: nat)
    requires i <= |s|
    ensures v * P.Power(base, 0) + Weighed(s, i, i, base) == v
  {
  }
}
