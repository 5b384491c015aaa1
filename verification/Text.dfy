/** Strings as JavaScript has them, sequences of 16-bit code units, and numerals in them. */
module Text {
  type unit = c: int | 0 <= c < 0x1_0000
  type jstring = seq<unit>

  /** The code units of a literal. */
  function Of(s: string): (r: jstring)
    ensures |r| == |s|
  {
    seq(|s|, i requires 0 <= i < |s| => if s[i] as int < 0x1_0000 then s[i] as int else 0xfffd)
  }

  // ---- digits ----

  predicate IsDecimalDigit(c: unit) { '0' as int <= c <= '9' as int }

  predicate IsHexDigit(c: unit) {
    IsDecimalDigit(c) || 'a' as int <= c <= 'f' as int || 'A' as int <= c <= 'F' as int
  }

  function DigitValue(c: unit): (v: nat)
    ensures IsHexDigit(c) ==> v < 16
    ensures IsDecimalDigit(c) ==> v < 10
  {
    if IsDecimalDigit(c) then c - '0' as int
    else if 'a' as int <= c <= 'f' as int then c - 'a' as int + 10
    else if 'A' as int <= c <= 'F' as int then c - 'A' as int + 10
    else 0
  }

  /** The digit as `toString` writes it: lower case. */
  function DigitChar(v: nat): (c: unit)
    requires v < 16
    ensures IsHexDigit(c) && DigitValue(c) == v
    ensures v < 10 ==> IsDecimalDigit(c)
    ensures !('A' as int <= c <= 'F' as int)
  {
    if v < 10 then '0' as int + v else 'a' as int + v - 10
  }

  predicate AllHex(s: jstring) { forall i :: 0 <= i < |s| ==> IsHexDigit(s[i]) }

  predicate AllDecimal(s: jstring) { forall i :: 0 <= i < |s| ==> IsDecimalDigit(s[i]) }

  /** White space and line ends: what `\s` matches and `trim` removes. */
  predicate IsSpace(c: unit) {
    0x09 <= c <= 0x0d || c == 0x20 || c == 0xa0 || c == 0x1680 || 0x2000 <= c <= 0x200a
    || c == 0x2028 || c == 0x2029 || c == 0x202f || c == 0x205f || c == 0x3000 || c == 0xfeff
  }

  function TrimEnd(s: jstring): (r: jstring)
    ensures AllHex(s) ==> r == s
  {
    if s != [] && IsSpace(s[|s| - 1]) then TrimEnd(s[..|s| - 1]) else s
  }

  // ---- lower case ----

  function LowerUnit(c: unit): unit { if 'A' as int <= c <= 'Z' as int then c + 32 else c }

  /** `toLowerCase`, for ASCII letters. */
  function Lower(s: jstring): (r: jstring)
    ensures |r| == |s| && forall i :: 0 <= i < |s| ==> r[i] == LowerUnit(s[i])
  {
    seq(|s|, i requires 0 <= i < |s| => LowerUnit(s[i]))
  }

  // ---- numerals ----

  /** `n.toString(base)` */
  function Numeral(n: nat, base: nat): (s: jstring)
    requires 2 <= base <= 16
    ensures s != [] && AllHex(s)
    ensures base <= 10 ==> AllDecimal(s)
    decreases n
  {
    if n < base then [DigitChar(n)]
    else
      DivLess(n, base);
      Numeral(n / base, base) + [DigitChar(n % base)]
  }

  lemma DivLess(n: nat, d: nat)
    requires 2 <= d <= n
    ensures n / d < n
  {
    var q := n / d;
    assert q * 2 <= q * d <= n;
  }

  /** The number a digit string stands for. */
  function Parse(s: jstring, base: nat): nat {
    if s == [] then 0 else Parse(s[..|s| - 1], base) * base + DigitValue(s[|s| - 1])
  }

  function Power(base: nat, k: nat): nat { if k == 0 then 1 else base * Power(base, k - 1) }

  lemma ParseAppend(s: jstring, c: unit, base: nat)
    ensures Parse(s + [c], base) == Parse(s, base) * base + DigitValue(c)
  {
    assert (s + [c])[..|s|] == s;
  }

  lemma TimesAssociates(a: nat, b: nat, c: nat)
    ensures a * (b * c) == a * b * c
  {}

  lemma {:induction false} PowerAdd(base: nat, m: nat, n: nat)
    ensures Power(base, m + n) == Power(base, m) * Power(base, n)
  {
    if m > 0 {
      PowerAdd(base, m - 1, n);
      TimesAssociates(base, Power(base, m - 1), Power(base, n));
    }
  }

  lemma DivMod(n: nat, d: nat)
    requires d > 0
    ensures n / d * d + n % d == n
  {}

  lemma {:induction false} ParseNumeral(n: nat, base: nat)
    requires 2 <= base <= 16
    ensures Parse(Numeral(n, base), base) == n
    decreases n
  {
    if n < base {
      assert Numeral(n, base)[..0] == [];
    } else {
      ParseNumeral(n / base, base);
      ParseAppend(Numeral(n / base, base), DigitChar(n % base), base);
      DivMod(n, base);
    }
  }

  lemma NumeralInjective(m: nat, n: nat, base: nat)
    requires 2 <= base <= 16 && Numeral(m, base) == Numeral(n, base)
    ensures m == n
  {
    ParseNumeral(m, base);
    ParseNumeral(n, base);
  }

  lemma {:induction false} NumeralLength(n: nat, base: nat, k: nat)
    requires 2 <= base <= 16 && k > 0 && n < Power(base, k)
    ensures |Numeral(n, base)| <= k
    decreases k
  {
    assert Power(base, 1) == base * Power(base, 0) == base;
    if n >= base {
      Quotient(n, base, Power(base, k - 1));
      NumeralLength(n / base, base, k - 1);
    }
  }

  lemma Quotient(n: nat, d: nat, m: nat)
    requires d > 0 && n < d * m
    ensures n / d < m
  {
    var q := n / d;
    assert d * q <= n < d * m;
  }

  /** `s.padStart(width, '0')` */
  function PadStart(s: jstring, width: nat): (r: jstring)
    ensures |s| <= width ==> |r| == width
    ensures |s| > width ==> r == s
    ensures AllHex(s) ==> AllHex(r)
  {
    if |s| >= width then s else seq(width - |s|, _ => '0' as int) + s
  }

  lemma {:induction false} ParseZeros(zeros: jstring, s: jstring, base: nat)
    requires forall i :: 0 <= i < |zeros| ==> zeros[i] == '0' as int
    ensures Parse(zeros + s, base) == Parse(s, base)
    decreases |zeros| + |s|
  {
    if s != [] {
      assert (zeros + s)[..|zeros + s| - 1] == zeros + s[..|s| - 1];
      ParseZeros(zeros, s[..|s| - 1], base);
    } else if zeros != [] {
      assert zeros + s == zeros && zeros == zeros[..|zeros| - 1] + [zeros[|zeros| - 1]];
      ParseZeros(zeros[..|zeros| - 1], [], base);
      assert zeros[..|zeros| - 1] + [] == zeros[..|zeros| - 1];
    }
  }

  lemma ParsePadded(n: nat, base: nat, width: nat)
    requires 2 <= base <= 16
    ensures Parse(PadStart(Numeral(n, base), width), base) == n
  {
    hide Parse, Numeral;
    var s := Numeral(n, base);
    ParseNumeral(n, base);
    if |s| < width {
      ParseZeros(seq(width - |s|, _ => '0' as int), s, base);
    }
  }

  lemma Shift(p: nat, q: nat, w: nat, base: nat)
    ensures (p * w + q) * base == p * (base * w) + q * base
  {}

  lemma {:induction false} ParseConcat(s: jstring, t: jstring, base: nat)
    ensures Parse(s + t, base) == Parse(s, base) * Power(base, |t|) + Parse(t, base)
    decreases |t|
  {
    if t == [] {
      assert s + t == s;
    } else {
      var init, last := t[..|t| - 1], DigitValue(t[|t| - 1]);
      assert (s + t)[..|s + t| - 1] == s + init;
      ParseConcat(s, init, base);
      Shift(Parse(s, base), Parse(init, base), Power(base, |init|), base);
    }
  }

  lemma {:induction false} ParseBound(s: jstring)
    requires AllHex(s)
    ensures Parse(s, 16) < Power(16, |s|)
  {
    if s != [] { ParseBound(s[..|s| - 1]); }
  }
}
