// Python's int() and float() applied to text, restricted to plain decimal
// notation: surrounding whitespace, an optional sign, ASCII digits and (for
// float) at most one decimal point. Values are exact: float() yields a real.
// Also int() applied to a number, which truncates toward zero, and the
// fixed-width digit fields the date formats are built from.
module Numbers {
  import opened Base
  import opened Strings

  function DigitValue(c: char): (d: nat)
    requires IsDigit(c)
    ensures d < 10
  {
    c as int - '0' as int
  }

  function DigitChar(d: nat): (c: char)
    requires d < 10
    ensures IsDigit(c) && DigitValue(c) == d
  {
    ('0' as int + d) as char
  }

  predicate AllDigits(s: string) {
    forall i :: 0 <= i < |s| ==> IsDigit(s[i])
  }

  function Pow10(k: nat): (r: nat)
    ensures r >= 1
  {
    if k == 0 then 1 else 10 * Pow10(k - 1)
  }

  /** The number a string of decimal digits denotes (leading zeros allowed). */
  function DigitsValue(s: string): (n: nat)
    requires AllDigits(s)
    ensures n < Pow10(|s|)
  {
    if s == [] then 0 else 10 * DigitsValue(s[..|s| - 1]) + DigitValue(s[|s| - 1])
  }

  /** `n` written with exactly `width` digits, zero-padded on the left
      (strftime's %d, %m and %Y). */
  function PadDigits(n: nat, width: nat): (s: string)
    ensures |s| == width && AllDigits(s)
  {
    if width == 0 then [] else PadDigits(n / 10, width - 1) + [DigitChar(n % 10)]
  }

  /** Reading a zero-padded field gives back the number that was written. */
  lemma {:induction false} PadDigitsValue(n: nat, width: nat)
    requires n < Pow10(width)
    ensures DigitsValue(PadDigits(n, width)) == n
  {
    if width > 0 {
      var s := PadDigits(n, width);
      assert s[..width - 1] == PadDigits(n / 10, width - 1);
      PadDigitsValue(n / 10, width - 1);
    }
  }

  /** Writing back a field that was read gives the same text. */
  lemma {:induction false} DigitsPadded(s: string)
    requires AllDigits(s)
    ensures PadDigits(DigitsValue(s), |s|) == s
  {
    if s != [] {
      var init, last := s[..|s| - 1], s[|s| - 1];
      var n, v, d := DigitsValue(s), DigitsValue(init), DigitValue(last);
      assert n == 10 * v + d;
      LastDigit(n, v, d);
      DigitsPadded(init);
      assert DigitChar(d) == last;
      assert PadDigits(n, |s|) == PadDigits(v, |init|) + [DigitChar(d)];
      assert s == init + [last];
    }
  }

  /** The last decimal digit of 10 * x + d, and what comes before it. */
  lemma LastDigit(n: int, x: int, d: int)
    requires n == 10 * x + d && 0 <= d < 10
    ensures n / 10 == x && n % 10 == d
  {
  }

  /** The text after a leading '+' or '-'. */
  function Unsigned(t: string): string {
    if t != [] && (t[0] == '+' || t[0] == '-') then t[1..] else t
  }

  predicate Negative(t: string) {
    t != [] && t[0] == '-'
  }

  /** int(text): whitespace around, an optional sign and at least one digit. */
  function ParseInt(s: string): (r: Option<int>) {
    var t := Strip(s);
    var body := Unsigned(t);
    if body != [] && AllDigits(body) then
      Some(if Negative(t) then -(DigitsValue(body) as int) else DigitsValue(body))
    else None
  }

  /** The position of the first occurrence of `c`. */
  function IndexOf(s: string, c: char): (r: Option<nat>)
    ensures r.None? ==> c !in s
    ensures r.Some? ==> r.value < |s| && s[r.value] == c && c !in s[..r.value]
  {
    if s == [] then None
    else if s[0] == c then Some(0)
    else
      match IndexOf(s[1..], c)
      case None => None
      case Some(k) => assert s[1..][..k] == s[1..k + 1]; Some(k + 1)
  }

  /** The integer and fraction digits of an unsigned decimal: `123`, `1.5`,
      `.5` and `5.` are accepted, `.` and `1.2.3` are not. */
  function SplitPoint(body: string): (r: Option<(string, string)>)
    ensures r.Some? ==> AllDigits(r.value.0) && AllDigits(r.value.1) && |r.value.0| + |r.value.1| > 0
  {
    match IndexOf(body, '.')
    case None =>
      if body != [] && AllDigits(body) then Some((body, "")) else None
    case Some(k) =>
      var ip, fp := body[..k], body[k + 1..];
      if AllDigits(ip) && AllDigits(fp) && |ip| + |fp| > 0 then Some((ip, fp)) else None
  }

  /** The value of the digits after the point: each digit counts a tenth
      of the one before it. */
  function Fraction(fp: string): (f: real)
    requires AllDigits(fp)
    ensures 0.0 <= f < 1.0
  {
    if fp == [] then 0.0 else (DigitValue(fp[0]) as real + Fraction(fp[1..])) / 10.0
  }

  /** The exact value of `<ip>.<fp>`. */
  function DecimalValue(ip: string, fp: string): (v: real)
    requires AllDigits(ip) && AllDigits(fp)
    ensures DigitsValue(ip) as real <= v < DigitsValue(ip) as real + 1.0
  {
    DigitsValue(ip) as real + Fraction(fp)
  }

  /** A leading digit counts its place value. */
  lemma {:induction false} DigitsValueCons(s: string)
    requires s != [] && AllDigits(s)
    ensures DigitsValue(s) == DigitValue(s[0]) * Pow10(|s| - 1) + DigitsValue(s[1..])
  {
    if |s| > 1 {
      var n := |s|;
      var init, tail := s[..n - 1], s[1..];
      DigitsValueCons(init);
      assert init[0] == s[0] && init[1..] == tail[..n - 2] && tail[n - 2] == s[n - 1];
      var d, p := DigitValue(s[0]), Pow10(n - 2);
      var x, l := DigitsValue(tail[..n - 2]), DigitValue(s[n - 1]);
      assert s[..n - 1] == init && tail[..n - 2] == s[1..n - 1];
      ShiftPlace(d, p, x, l, DigitsValue(init), DigitsValue(s), DigitsValue(tail), Pow10(n - 1));
    } else {
      assert s[1..] == [];
    }
  }

  /** Appending a digit on the right shifts every place, the leading one too. */
  lemma ShiftPlace(d: int, p: int, x: int, l: int, init: int, all: int, tail: int, q: int)
    requires init == d * p + x && all == 10 * init + l && tail == 10 * x + l && q == 10 * p
    ensures all == d * q + tail
  {
  }

  /** The fraction digits `fp` are DigitsValue(fp) parts in 10^|fp|. */
  lemma {:induction false} FractionValue(fp: string)
    requires AllDigits(fp)
    ensures Scaled(Fraction(fp), Pow10(|fp|), DigitsValue(fp))
  {
    if fp != [] {
      var rest := fp[1..];
      FractionValue(rest);
      DigitsValueCons(fp);
      var d, f, p := DigitValue(fp[0]), Fraction(rest), Pow10(|rest|);
      assert |fp| - 1 == |rest|;
      TenthPlace(d, f, p, DigitsValue(rest), Fraction(fp), Pow10(|fp|), DigitsValue(fp));
    }
  }

  /** x parts of q make n: x * q == n. */
  ghost predicate Scaled(x: real, q: int, n: int) {
    x * q as real == n as real
  }

  /** Moving a digit one place to the right of the point. */
  lemma TenthPlace(d: int, f: real, p: int, r: int, x: real, q: int, n: int)
    requires Scaled(f, p, r)
    requires x == (d as real + f) / 10.0 && q == 10 * p && n == d * p + r
    ensures Scaled(x, q, n)
  {
  }

  /** n units of the k-th place after the point: n / 10^k. */
  function Shifted(n: int, k: nat): real {
    if k == 0 then n as real else Shifted(n, k - 1) / 10.0
  }

  /** From x * 10^k == n to x == n / 10^k. */
  lemma {:induction false} ShiftedScaled(x: real, k: nat, n: int)
    requires Scaled(x, Pow10(k), n)
    ensures x == Shifted(n, k)
    decreases k
  {
    if k > 0 {
      Tenfold(x, Pow10(k - 1), Pow10(k), n);
      ShiftedScaled(10.0 * x, k - 1, n);
    }
  }

  /** Ten times x takes a tenth as many places to make n. */
  lemma Tenfold(x: real, p: int, q: int, n: int)
    requires Scaled(x, q, n) && q == 10 * p
    ensures Scaled(10.0 * x, p, n)
  {
    assert x * q as real == (10.0 * x) * p as real;
  }

  /** float(text) for plain decimal notation. */
  function ParseDecimal(s: string): (r: Option<real>) {
    var t := Strip(s);
    var parts := SplitPoint(Unsigned(t));
    if parts.None? then None
    else
      var v := DecimalValue(parts.value.0, parts.value.1);
      Some(if Negative(t) then -v else v)
  }

  /** The characters float() can accept in plain decimal notation. */
  predicate DecimalChar(c: char) {
    IsDigit(c) || c == '.' || c == '+' || c == '-' || IsSpace(c)
  }

  /** What SplitPoint accepts consists of digits and the point. */
  lemma SplitPointChars(body: string, j: int)
    requires SplitPoint(body).Some? && 0 <= j < |body|
    ensures IsDigit(body[j]) || body[j] == '.'
  {
    match IndexOf(body, '.')
    case None =>
    case Some(k) =>
      if j < k {
        assert body[..k][j] == body[j];
      } else if j > k {
        assert body[k + 1..][j - k - 1] == body[j];
      }
  }

  /** float() fails exactly when the text after the sign is not a number. */
  lemma ParseDecimalNone(s: string)
    requires SplitPoint(Unsigned(Strip(s))).None?
    ensures ParseDecimal(s) == None
  {
  }

  /** Every character of an accepted stripped text is a digit, the point,
      or a leading sign. */
  lemma UnsignedChars(t: string, x: int)
    requires SplitPoint(Unsigned(t)).Some? && 0 <= x < |t|
    ensures IsDigit(t[x]) || t[x] == '.' || (x == 0 && (t[x] == '+' || t[x] == '-'))
  {
    var body := Unsigned(t);
    if t[0] == '+' || t[0] == '-' {
      if x > 0 {
        assert body[x - 1] == t[x];
        SplitPointChars(body, x - 1);
      }
    } else {
      SplitPointChars(body, x);
    }
  }

  /** Any other character anywhere in the text makes float() raise: a
      leftover `$`, `₸` or a space inside the number. */
  lemma ParseDecimalRejects(s: string, i: int)
    requires 0 <= i < |s| && !DecimalChar(s[i])
    ensures ParseDecimal(s) == None
  {
    var t := Strip(s);
    StripKeeps(s, i);
    var x :| 0 <= x < |t| && t[x] == s[i];
    if SplitPoint(Unsigned(t)).Some? {
      UnsignedChars(t, x);
    }
    ParseDecimalNone(s);
  }

  /** Whitespace inside the number, between two other characters, makes
      float() raise ("1 234.5"). */
  lemma ParseDecimalInnerSpace(s: string, i: int, j: int, k: int)
    requires 0 <= j < i < k < |s| && IsSpace(s[i]) && !IsSpace(s[j]) && !IsSpace(s[k])
    ensures ParseDecimal(s) == None
  {
    var t := Strip(s);
    StripKeepsInner(s, i, j, k);
    var x :| 0 <= x < |t| && t[x] == s[i];
    if SplitPoint(Unsigned(t)).Some? {
      UnsignedChars(t, x);
    }
    ParseDecimalNone(s);
  }

  /** float() accepts no text without a digit in it: "-", "." and "" raise. */
  lemma ParseDecimalNeedsDigit(s: string)
    requires forall i :: 0 <= i < |s| ==> !IsDigit(s[i])
    ensures ParseDecimal(s) == None
  {
    var t := Strip(s);
    var body := Unsigned(t);
    var off := if t != [] && (t[0] == '+' || t[0] == '-') then 1 else 0;
    forall j | 0 <= j < |body| ensures !IsDigit(body[j]) {
      assert body[j] == t[off + j] && body[j] in t;
      StripFrom(s, body[j]);
    }
    SplitPointNeedsDigit(body);
    ParseDecimalNone(s);
  }

  /** SplitPoint accepts nothing without a digit, before or after the point. */
  lemma SplitPointNeedsDigit(body: string)
    requires forall j :: 0 <= j < |body| ==> !IsDigit(body[j])
    ensures SplitPoint(body).None?
  {
    match IndexOf(body, '.')
    case None =>
      if body != [] { assert !IsDigit(body[0]); }
    case Some(k) =>
      var ip, fp := body[..k], body[k + 1..];
      if ip != [] { assert ip[0] == body[0]; }
      if fp != [] { assert fp[0] == body[k + 1]; }
  }

  /** Text without a minus sign never parses to a negative number. */
  lemma ParseDecimalUnsigned(s: string)
    requires '-' !in s
    ensures ParseDecimal(s).Some? ==> ParseDecimal(s).value >= 0.0
  {
    var t := Strip(s);
    if t != [] && t[0] == '-' {
      StripFrom(s, '-');
    }
  }

  /** int() of a zero-padded digit field is the number written. */
  lemma ParseIntDigits(n: nat, width: nat)
    requires 0 < width && n < Pow10(width)
    ensures ParseInt(PadDigits(n, width)) == Some(n)
  {
    var s := PadDigits(n, width);
    PadDigitsValue(n, width);
    assert IsDigit(s[0]) && IsDigit(s[|s| - 1]);
    StripUnchanged(s);
    assert s[0] != '+' && s[0] != '-';
    assert Unsigned(s) == s && !Negative(s);
  }

  /** IndexOf finds the first occurrence. */
  lemma IndexOfFirst(s: string, c: char, k: nat)
    requires k < |s| && s[k] == c && c !in s[..k]
    ensures IndexOf(s, c) == Some(k)
  {
  }

  /** SplitPoint cuts at the only point of `<digits>.<digits>`. */
  lemma SplitPointAt(body: string, k: nat)
    requires k < |body| && body[k] == '.' && |body| > 1
    requires AllDigits(body[..k]) && AllDigits(body[k + 1..])
    ensures SplitPoint(body) == Some((body[..k], body[k + 1..]))
  {
    assert '.' !in body[..k] by {
      forall j | 0 <= j < k ensures body[..k][j] != '.' {
        assert IsDigit(body[..k][j]);
      }
    }
    IndexOfFirst(body, '.', k);
  }

  /** float() of an unsigned `<digits>.<digits>` text. */
  lemma ParseDecimalPoint(s: string, k: nat)
    requires k < |s| && s[k] == '.' && AllDigits(s[..k]) && AllDigits(s[k + 1..])
    requires IsDigit(s[0]) && !IsSpace(s[|s| - 1])
    ensures ParseDecimal(s) == Some(DecimalValue(s[..k], s[k + 1..]))
  {
    assert !IsSpace(s[0]);
    StripUnchanged(s);
    assert Strip(s) == s;
    assert Unsigned(s) == s;
    assert !Negative(s);
    SplitPointAt(s, k);
    assert SplitPoint(Unsigned(Strip(s))) == Some((s[..k], s[k + 1..]));
  }

  /** float() of `<digits>.<digits>` is the exact decimal value. */
  lemma ParseDecimalDigits(ip: nat, iw: nat, fp: nat, fw: nat)
    requires 0 < iw && ip < Pow10(iw) && fp < Pow10(fw)
    ensures ParseDecimal(PadDigits(ip, iw) + "." + PadDigits(fp, fw))
         == Some(ip as real + Shifted(fp, fw))
  {
    var a, b := PadDigits(ip, iw), PadDigits(fp, fw);
    ParseDecimalJoin(a, b);
    DecimalValueDigits(ip, iw, fp, fw);
    SomeEqual(ParseDecimal(a + "." + b), DecimalValue(a, b), ip as real + Shifted(fp, fw));
  }

  /** Two equalities chained, with the real division kept out of the
      caller's reasoning. */
  lemma SomeEqual(x: Option<real>, v: real, e: real)
    requires x == Some(v) && v == e
    ensures x == Some(e)
  {
  }

  /** Digits around a decimal comma read as the same digits around a point. */
  lemma DecimalComma(a: string, b: string)
    requires AllDigits(a) && AllDigits(b)
    ensures Replace(a + "," + b, ',', '.') == a + "." + b
  {
    var s := a + "," + b;
    var t := Replace(s, ',', '.');
    forall k | 0 <= k < |s| ensures t[k] == (a + "." + b)[k] {
      if k < |a| { assert s[k] == a[k] && IsDigit(a[k]); }
      else if k > |a| { assert s[k] == b[k - |a| - 1] && IsDigit(b[k - |a| - 1]); }
    }
  }

  lemma ParseDecimalJoin(a: string, b: string)
    requires a != [] && AllDigits(a) && AllDigits(b)
    ensures ParseDecimal(a + "." + b) == Some(DecimalValue(a, b))
  {
    var s := a + "." + b;
    var k := |a|;
    assert s[..k] == a && s[k + 1..] == b;
    assert s[0] == a[0];
    assert s[|s| - 1] == if b != [] then b[|b| - 1] else '.';
    ParseDecimalPoint(s, k);
  }

  lemma DecimalValueDigits(ip: nat, iw: nat, fp: nat, fw: nat)
    requires ip < Pow10(iw) && fp < Pow10(fw)
    ensures DecimalValue(PadDigits(ip, iw), PadDigits(fp, fw)) == ip as real + Shifted(fp, fw)
  {
    PadDigitsValue(ip, iw);
    PadDigitsValue(fp, fw);
    var b := PadDigits(fp, fw);
    FractionValue(b);
    ShiftedScaled(Fraction(b), |b|, DigitsValue(b));
  }

  /** int(x) for a number: truncation toward zero. */
  function Truncate(x: real): (r: int)
    ensures x >= 0.0 ==> r as real <= x < r as real + 1.0
    ensures x < 0.0 ==> r as real - 1.0 < x <= r as real
  {
    if x >= 0.0 then x.Floor else -((-x).Floor)
  }
}
