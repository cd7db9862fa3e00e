/**
  JavaScript numbers as the audit uses them, in exact decimal arithmetic:
  `Number(text)` on a score field, `x * 100.0`, `x.toFixed(f)` and the unary
  `+` that reads the printed digits back, and the `>` comparison.
  A number is NaN or a decimal `digits / 10^scale`.
 */
module Numbers {
  import opened Wrappers
  import Text

  datatype Num = NaN | Dec(digits: int, scale: nat)

  function Pow10(n: nat): (p: nat)
    ensures p >= 1
  {
    if n == 0 then 1 else 10 * Pow10(n - 1)
  }

  lemma {:induction false} Pow10Add(a: nat, b: nat)
    ensures Pow10(a + b) == Pow10(a) * Pow10(b)
  {
    if a > 0 {
      Pow10Add(a - 1, b);
    }
  }

  /** The exact value of a non-NaN number. */
  function Val(x: Num): real
    requires x.Dec?
  {
    x.digits as real / Pow10(x.scale) as real
  }

  /** JavaScript's `a > b` on numbers: false as soon as either side is NaN. */
  predicate Greater(a: Num, b: Num)
  {
    a.Dec? && b.Dec? && Val(a) > Val(b)
  }

  /** Between two numbers of the same scale, `>` compares the digits. */
  lemma SameScaleGreater(a: Num, b: Num)
    requires a.Dec? && b.Dec? && a.scale == b.scale
    ensures Greater(a, b) <==> a.digits > b.digits
  {
    var p := Pow10(a.scale) as real;
    assert Val(a) * p == a.digits as real;
    assert Val(b) * p == b.digits as real;
    if Val(a) > Val(b) {
      assert Val(a) * p > Val(b) * p;
    } else {
      assert Val(a) * p <= Val(b) * p;
    }
  }

  // ---------------------------------------------------------------------
  // Rounding as `toFixed` does it

  /** `(n + q/2) / q` for a magnitude `n`: rounds `n / 10^(s-f)`, ties upwards. */
  function RoundMagnitude(n: nat, s: nat, f: nat): nat
  {
    if s <= f then n * Pow10(f - s)
    else (n + Pow10(s - f) / 2) / Pow10(s - f)
  }

  /**
    The integer `k` with `k / 10^f` nearest to `d / 10^s`, a tie going away
    from zero: `toFixed` rounds the magnitude and prints the sign apart.
   */
  function RoundAt(d: int, s: nat, f: nat): int
  {
    if d < 0 then -(RoundMagnitude(-d, s, f) as int) else RoundMagnitude(d, s, f)
  }

  /**
    `RoundAt` is the nearest choice: for `d` with more decimals than kept,
    the rounded magnitude scaled back lies within half a unit of `d`'s
    magnitude, a tie goes to the larger magnitude (away from zero), and the
    result keeps `d`'s sign.
   */
  lemma RoundAtNearest(d: int, s: nat, f: nat)
    requires s > f
    ensures 2 * (Magnitude(d) - Magnitude(RoundAt(d, s, f)) * Pow10(s - f)) < Pow10(s - f)
    ensures 2 * (Magnitude(RoundAt(d, s, f)) * Pow10(s - f) - Magnitude(d)) <= Pow10(s - f)
    ensures RoundAt(d, s, f) == Signed(d < 0, Magnitude(RoundAt(d, s, f)))
  {
    MagnitudeNearest(Magnitude(d), s, f);
  }

  lemma MagnitudeNearest(n: nat, s: nat, f: nat)
    requires s > f
    ensures 2 * (n - RoundMagnitude(n, s, f) * Pow10(s - f)) < Pow10(s - f)
    ensures 2 * (RoundMagnitude(n, s, f) * Pow10(s - f) - n) <= Pow10(s - f)
  {
    var q := Pow10(s - f);
    var h := HalfPow10(s - f);
    var k, r := (n + h) / q, (n + h) % q;
    assert n + h == k * q + r && 0 <= r < q;
    assert RoundMagnitude(n, s, f) == k;
  }

  /** Ten to a positive power is even: half of it is exact. */
  lemma HalfPow10(n: nat) returns (h: nat)
    requires n >= 1
    ensures 2 * h == Pow10(n) && h == Pow10(n) / 2
  {
    h := 5 * Pow10(n - 1);
  }

  // ---------------------------------------------------------------------
  // Digits as text

  predicate IsDigit(c: char)
  {
    '0' <= c <= '9'
  }

  predicate AllDigits(s: string)
  {
    forall i :: 0 <= i < |s| ==> IsDigit(s[i])
  }

  /** The value of a run of decimal digits (the empty run is 0). */
  function DigitsValue(s: string): nat
    requires AllDigits(s)
  {
    if s == [] then 0
    else DigitsValue(s[..|s| - 1]) * 10 + (s[|s| - 1] as int - '0' as int)
  }

  function DigitChar(n: nat): (c: char)
    requires n < 10
    ensures IsDigit(c) && c as int - '0' as int == n
  {
    ('0' as int + n) as char
  }

  /** The shortest decimal text of `n`. */
  function NatText(n: nat): (s: string)
    ensures s != [] && AllDigits(s) && DigitsValue(s) == n
  {
    if n < 10 then [DigitChar(n)]
    else
      var s := NatText(n / 10) + [DigitChar(n % 10)];
      assert s[..|s| - 1] == NatText(n / 10);
      s
  }

  /** The last `width` decimal digits of `n`, zero-padded on the left. */
  function PaddedText(n: nat, width: nat): (s: string)
    ensures |s| == width && AllDigits(s)
    ensures n < Pow10(width) ==> DigitsValue(s) == n
  {
    if width == 0 then ""
    else
      var s := PaddedText(n / 10, width - 1) + [DigitChar(n % 10)];
      assert s[..|s| - 1] == PaddedText(n / 10, width - 1);
      s
  }

  // ---------------------------------------------------------------------
  // Number(text) and toFixed

  /** The white space `Number` trims from both ends of its text. */
  predicate IsSpace(c: char)
  {
    c in {' ', '\t', '\n', '\r', '\U{000B}', '\U{000C}', '\U{00A0}', '\U{2028}', '\U{2029}', '\U{FEFF}'}
  }

  function TrimStart(s: string): (t: string)
    ensures |t| <= |s| && t == s[|s| - |t|..]
    ensures (forall i :: 0 <= i < |s| ==> !IsSpace(s[i])) ==> t == s
  {
    if s != [] && IsSpace(s[0]) then TrimStart(s[1..]) else s
  }

  function TrimEnd(s: string): (t: string)
    ensures t <= s
    ensures (forall i :: 0 <= i < |s| ==> !IsSpace(s[i])) ==> t == s
  {
    if s != [] && IsSpace(s[|s| - 1]) then TrimEnd(s[..|s| - 1]) else s
  }

  function Trim(s: string): (t: string)
    ensures (forall i :: 0 <= i < |s| ==> !IsSpace(s[i])) ==> t == s
  {
    TrimEnd(TrimStart(s))
  }

  function Signed(negative: bool, n: nat): int
  {
    if negative then -(n as int) else n
  }

  /**
    An unsigned decimal: digits with at most one '.', at least one digit in
    all; gives its digits as one number and how many followed the point.
   */
  function ParseDecimal(body: string): Option<(nat, nat)>
  {
    var parts := Text.Split(body, '.');
    if |parts| == 1 && parts[0] != [] && AllDigits(parts[0]) then
      Some((DigitsValue(parts[0]), 0))
    else if |parts| == 2 && AllDigits(parts[0]) && AllDigits(parts[1]) && |parts[0]| + |parts[1]| > 0 then
      Some((DigitsValue(parts[0]) * Pow10(|parts[1]|) + DigitsValue(parts[1]), |parts[1]|))
    else None
  }

  /**
    `Number(text)` for decimal text: surrounding white space is ignored,
    blank text is 0, then an optional sign and an unsigned decimal;
    anything else is NaN.
   */
  function ParseNumber(text: string): Num
  {
    var t := Trim(text);
    if t == [] then Dec(0, 0)
    else
      var negative := t[0] == '-';
      var body := if t[0] == '-' || t[0] == '+' then t[1..] else t;
      match ParseDecimal(body)
      case None => NaN
      case Some((v, scale)) => Dec(Signed(negative, v), scale)
  }

  /** `Number(v)` for a field that may be `undefined` (which gives NaN). */
  function ToNumber(field: Option<string>): Num
  {
    match field
    case None => NaN
    case Some(text) => ParseNumber(text)
  }

  /** Euclid's division of a magnitude by a power of ten. */
  function DivMod10(m: nat, f: nat): (qr: (nat, nat))
    ensures qr.0 * Pow10(f) + qr.1 == m && qr.1 < Pow10(f)
  {
    DivMod(m, Pow10(f))
  }

  function DivMod(m: nat, p: nat): (qr: (nat, nat))
    requires p > 0
    ensures qr.0 * p + qr.1 == m && qr.1 < p
  {
    (m / p, m % p)
  }

  /** The digits of magnitude `m` with `f` of them after the point. */
  function PointText(m: nat, f: nat): string
  {
    if f == 0 then NatText(m)
    else
      var qr := DivMod10(m, f);
      NatText(qr.0) + "." + PaddedText(qr.1, f)
  }

  /** `x.toFixed(f)`: "NaN", or a '-' for a negative `x` and the rounded magnitude with `f` decimals. */
  function ToFixedText(x: Num, f: nat): string
  {
    match x
    case NaN => "NaN"
    case Dec(d, s) => SignedText(d < 0, RoundMagnitude(Magnitude(d), s, f), f)
  }

  function Magnitude(d: int): nat
  {
    if d < 0 then -d else d
  }

  /** A '-' for a negative number, then the magnitude `m / 10^f` with exactly `f` decimals. */
  function SignedText(negative: bool, m: nat, f: nat): string
  {
    (if negative then "-" else "") + PointText(m, f)
  }

  /** `+Number(x).toFixed(f)`: print with `f` decimals, then read the text back. */
  function Fixed(x: Num, f: nat): Num
  {
    ParseNumber(ToFixedText(x, f))
  }

  /** `x * 100.0` */
  function Times100(x: Num): Num
  {
    match x
    case NaN => NaN
    case Dec(d, s) => Dec(100 * d, s)
  }

  /** What `toFixed` prints for a magnitude reads back as that magnitude with `f` decimals. */
  lemma PointTextReadsBack(m: nat, f: nat)
    ensures ParseDecimal(PointText(m, f)) == Some((m, f))
  {
    var body := PointText(m, f);
    if f == 0 {
      Text.SplitNoSeparator(body, '.');
    } else {
      var qr := DivMod10(m, f);
      var whole, frac := NatText(qr.0), PaddedText(qr.1, f);
      assert body == whole + ['.'] + frac;
      SplitAtPoint(whole, frac);
    }
  }

  /** Digits, a '.', digits: split at the point into the two runs. */
  lemma SplitAtPoint(whole: string, frac: string)
    requires AllDigits(whole) && AllDigits(frac)
    ensures Text.Split(whole + ['.'] + frac, '.') == [whole, frac]
  {
    assert !IsDigit('.');
    Text.SplitAfterRun(whole, '.', frac);
    Text.SplitNoSeparator(frac, '.');
  }

  /** `toFixed` digits start with a digit and hold only digits and at most a '.'. */
  lemma PointTextChars(m: nat, f: nat)
    ensures PointText(m, f) != [] && IsDigit(PointText(m, f)[0])
    ensures forall i :: 0 <= i < |PointText(m, f)| ==> IsDigit(PointText(m, f)[i]) || PointText(m, f)[i] == '.'
  {
    if f > 0 {
      var qr := DivMod10(m, f);
      var whole, frac := NatText(qr.0), PaddedText(qr.1, f);
      assert PointText(m, f) == whole + ['.'] + frac;
    }
  }

  /** The printed text starts with '-' exactly for a negative number, else with a digit, and holds no white space. */
  lemma SignedTextShape(negative: bool, m: nat, f: nat)
    ensures var text := SignedText(negative, m, f);
      && text != []
      && (text[0] == '-' <==> negative)
      && text[0] != '+'
      && Trim(text) == text
  {
    var body := PointText(m, f);
    PointTextChars(m, f);
    var text := SignedText(negative, m, f);
    assert text == (if negative then "-" else "") + body;
    forall i | 0 <= i < |text|
      ensures !IsSpace(text[i])
    {
      if negative && i > 0 {
        assert text[i] == body[i - 1];
      }
      NumeralIsNoSpace(text[i]);
    }
  }

  lemma NumeralIsNoSpace(c: char)
    requires IsDigit(c) || c == '.' || c == '-'
    ensures !IsSpace(c)
  {
  }

  /** Reading back what `toFixed` printed gives the number rounded to `f` decimals. */
  lemma FixedRounds(x: Num, f: nat)
    ensures Fixed(x, f) == if x.NaN? then NaN else Dec(RoundAt(x.digits, x.scale, f), f)
  {
    if x.NaN? {
      NaNReadsBack();
    } else {
      FixedRoundsDec(x.digits, x.scale, f);
    }
  }

  /** `+"NaN"` is NaN. */
  lemma NaNReadsBack()
    ensures ParseNumber("NaN") == NaN
  {
    var text := "NaN";
    assert Trim(text) == text by {
      forall i | 0 <= i < |text|
        ensures !IsSpace(text[i])
      {
        assert text[i] in {'N', 'a'};
      }
    }
    assert ParseDecimal(text) == None by {
      Text.SplitNoSeparator(text, '.');
      assert !IsDigit(text[0]);
    }
  }

  lemma FixedRoundsDec(d: int, s: nat, f: nat)
    ensures Fixed(Dec(d, s), f) == Dec(RoundAt(d, s, f), f)
  {
    FixedReadsMagnitude(d, s, f);
  }

  /** What `+` reads from the text `toFixed` printed: the sign and the rounded magnitude. */
  lemma FixedReadsMagnitude(d: int, s: nat, f: nat)
    ensures Fixed(Dec(d, s), f) == Dec(Signed(d < 0, RoundMagnitude(Magnitude(d), s, f)), f)
  {
    ReadSignedText(d < 0, RoundMagnitude(Magnitude(d), s, f), f);
  }

  /** Reading back a sign and `PointText(m, f)` gives the signed `m` with `f` decimals. */
  lemma ReadSignedText(negative: bool, m: nat, f: nat)
    ensures ParseNumber(SignedText(negative, m, f)) == Dec(Signed(negative, m), f)
  {
    SignedTextShape(negative, m, f);
    PointTextReadsBack(m, f);
    ReadSigned(negative, PointText(m, f), SignedText(negative, m, f));
  }

  /** Reading an optional '-' followed by an unsigned decimal, without white space around. */
  lemma ReadSigned(negative: bool, body: string, text: string)
    requires text == (if negative then "-" else "") + body
    requires text != [] && text[0] != '+' && (text[0] == '-' <==> negative)
    requires Trim(text) == text
    requires ParseDecimal(body).Some?
    ensures ParseNumber(text) == Dec(Signed(negative, ParseDecimal(body).value.0), ParseDecimal(body).value.1)
  {
    if negative {
      assert text[1..] == body;
    }
  }

  /**
    The percentage the table shows, `+Number(epss * 100.0).toFixed(3)`,
    is exactly one hundred times the probability `+Number(epss).toFixed(5)`
    that the threshold test uses: in exact arithmetic the two roundings
    keep the same digits.
   */
  lemma PercentIsHundredfold(x: Num)
    ensures Fixed(Times100(x), 3).NaN? <==> x.NaN?
    ensures x.Dec? ==> Fixed(x, 5).Dec? && Fixed(x, 5).scale == 5 && Fixed(Times100(x), 3) == Dec(Fixed(x, 5).digits, 3)
    ensures x.Dec? ==> Fixed(x, 5).Dec? && Fixed(Times100(x), 3).Dec? && Val(Fixed(Times100(x), 3)) == 100.0 * Val(Fixed(x, 5))
  {
    FixedRounds(x, 5);
    FixedRounds(Times100(x), 3);
    if x.Dec? {
      var d, s := x.digits, x.scale;
      RoundAtHundredfold(d, s);
      ThousandthsAreHundredfold(RoundAt(d, s, 5));
    }
  }

  lemma RoundAtHundredfold(d: int, s: nat)
    ensures RoundAt(100 * d, s, 3) == RoundAt(d, s, 5)
  {
    if d < 0 {
      var n: nat := -d;
      assert -(100 * d) == 100 * n;
      HundredfoldMagnitude(n, s);
    } else {
      HundredfoldMagnitude(d, s);
    }
  }

  lemma ThousandthsAreHundredfold(k: int)
    ensures Val(Dec(k, 3)) == 100.0 * Val(Dec(k, 5))
  {
    assert Pow10(3) == 1000;
    assert Pow10(5) == 100000 by { assert Pow10(4) == 10000; }
  }

  lemma HundredfoldMagnitude(n: nat, s: nat)
    ensures RoundMagnitude(100 * n, s, 3) == RoundMagnitude(n, s, 5)
  {
    if s <= 3 {
      HundredfoldExact(n, s);
    } else if s == 4 {
      assert Pow10(1) == 10;
      DivUnique(100 * n + 5, 10, 10 * n, 5);
    } else if s == 5 {
      assert Pow10(2) == 100 && Pow10(0) == 1;
      DivUnique(100 * n + 50, 100, n, 50);
    } else {
      HundredfoldRounded(n, s);
    }
  }

  lemma HundredfoldExact(n: nat, s: nat)
    requires s <= 3
    ensures RoundMagnitude(100 * n, s, 3) == RoundMagnitude(n, s, 5)
  {
    var p := Pow10(3 - s);
    Pow10Add(2, 3 - s);
    assert Pow10(2) == 100;
    assert Pow10(5 - s) == 100 * p;
    assert (100 * n) * p == n * (100 * p);
  }

  lemma HundredfoldRounded(n: nat, s: nat)
    requires s > 5
    ensures RoundMagnitude(100 * n, s, 3) == RoundMagnitude(n, s, 5)
  {
    var p := Pow10(s - 5);
    var big := Pow10(s - 3);
    Pow10Add(2, s - 5);
    assert Pow10(2) == 100;
    assert big == 100 * p;
    var h := HalfPow10(s - 5);
    var bh := HalfPow10(s - 3);
    assert bh == 100 * h;
    var qr := DivMod(n + h, p);
    ScaledDivision(n + h, p, qr.0, qr.1, 100);
    DivUnique(n + h, p, qr.0, qr.1);
    assert 100 * n + bh == (n + h) * 100;
  }

  /** Rounding to `f` decimals never reverses the order of two numbers. */
  lemma FixedMonotone(x: Num, y: Num, f: nat)
    requires x.Dec? && y.Dec? && Val(x) <= Val(y)
    ensures Fixed(x, f).Dec? && Fixed(y, f).Dec? && Val(Fixed(x, f)) <= Val(Fixed(y, f))
  {
    FixedRounds(x, f);
    FixedRounds(y, f);
    RoundMonotone(x, y, f);
    SameScaleGreater(Fixed(x, f), Fixed(y, f));
  }

  lemma RoundMonotone(x: Num, y: Num, f: nat)
    requires x.Dec? && y.Dec? && Val(x) <= Val(y)
    ensures RoundAt(x.digits, x.scale, f) <= RoundAt(y.digits, y.scale, f)
  {
    var top := if x.scale < y.scale then y.scale else x.scale;
    var kx: nat, ky: nat := top - x.scale, top - y.scale;
    var x', y' := Dec(x.digits * Pow10(kx), top), Dec(y.digits * Pow10(ky), top);
    RescaleKeepsValue(x.digits, x.scale, kx);
    RescaleKeepsValue(y.digits, y.scale, ky);
    SameScaleGreater(x', y');
    RescaleKeepsRounding(x.digits, x.scale, kx, f);
    RescaleKeepsRounding(y.digits, y.scale, ky, f);
    RoundAtMonotone(x'.digits, y'.digits, top, f);
  }

  /** Appending `k` zeros to the digits and `k` to the scale keeps the value. */
  lemma RescaleKeepsValue(d: int, s: nat, k: nat)
    ensures Val(Dec(d * Pow10(k), s + k)) == Val(Dec(d, s))
  {
    Pow10Add(s, k);
    var p, q := Pow10(s), Pow10(k);
    RealProduct(d, q);
    RealProduct(p, q);
    CancelReal(d as real, p as real, q as real);
  }

  lemma CancelReal(a: real, p: real, q: real)
    requires p > 0.0 && q > 0.0
    ensures (a * q) / (p * q) == a / p
  {
    var v := a / p;
    assert v * p == a;
    assert v * (p * q) == a * q;
  }

  /** ... and keeps the rounding: `toFixed` depends on the value, not on how it is written. */
  lemma RescaleKeepsRounding(d: int, s: nat, k: nat, f: nat)
    ensures RoundAt(d * Pow10(k), s + k, f) == RoundAt(d, s, f)
  {
    var p := Pow10(k);
    var n := Magnitude(d);
    SignedProduct(d, p);
    RescaleKeepsMagnitude(n, s, k, f);
  }

  /** Multiplying by a positive number keeps the sign, and the magnitude scales. */
  lemma SignedProduct(d: int, p: nat)
    requires p > 0
    ensures (d * p < 0 <==> d < 0) && Magnitude(d * p) == Magnitude(d) * p
  {
    if d < 0 {
      MulBounds(d, p);
    }
  }

  lemma RescaleKeepsMagnitude(n: nat, s: nat, k: nat, f: nat)
    ensures RoundMagnitude(n * Pow10(k), s + k, f) == RoundMagnitude(n, s, f)
  {
    if s + k <= f {
      Pow10Add(k, f - s - k);
      MulAssoc(n, Pow10(k), Pow10(f - s - k));
    } else if s > f {
      RescaleRounded(n, s, k, f);
    } else {
      RescaleExact(n, s, k, f);
    }
  }

  lemma RescaleRounded(n: nat, s: nat, k: nat, f: nat)
    requires s > f
    ensures RoundMagnitude(n * Pow10(k), s + k, f) == RoundMagnitude(n, s, f)
  {
    var big := Pow10(k);
    var p := Pow10(s - f);
    var h := HalfPow10(s - f);
    Pow10Add(k, s - f);
    var bp: nat := big * p;
    assert Pow10(s + k - f) == bp;
    var qr := DivMod(n + h, p);
    var q, r := qr.0, qr.1;
    ScaledDivision(n + h, p, q, r, big);
    Distribute(n, h, big);
    HalfProduct(big, p, h);
    DivUnique(n + h, p, q, r);
  }

  /** Multiplying dividend and divisor by `c` keeps the quotient. */
  lemma ScaledDivision(a: nat, p: nat, q: nat, r: nat, c: nat)
    requires a == q * p + r && r < p && c > 0
    ensures (a * c) / (c * p) == q
  {
    MulAssoc(q, p, c);
    assert a * c == q * (p * c) + r * c;
    MulStrict(r, p, c);
    DivUnique(a * c, c * p, q, r * c);
  }

  lemma RescaleExact(n: nat, s: nat, k: nat, f: nat)
    requires s <= f < s + k
    ensures RoundMagnitude(n * Pow10(k), s + k, f) == RoundMagnitude(n, s, f)
  {
    var j: nat := s + k - f;
    var q := Pow10(j);
    var h := HalfPow10(j);
    var pf := Pow10(f - s);
    var m := n * pf;
    Pow10Add(f - s, j);
    assert Pow10(k) == pf * q;
    MulAssoc(n, pf, q);
    DivUnique(m * q + h, q, m, h);
  }

  lemma RealProduct(a: int, b: int)
    ensures (a * b) as real == a as real * b as real
  {
  }

  lemma Distribute(a: int, b: int, c: int)
    ensures a * c + c * b == (a + b) * c
  {
  }

  lemma HalfProduct(c: nat, p: nat, h: nat)
    requires p == 2 * h
    ensures (c * p) / 2 == c * h
  {
    assert c * p == 2 * (c * h);
  }

  lemma MulAssoc(a: int, b: int, c: int)
    ensures a * (b * c) == (a * b) * c
  {
  }

  lemma MulStrict(r: nat, p: nat, c: nat)
    requires r < p && c > 0
    ensures r * c < p * c
  {
  }

  lemma RoundAtMonotone(d1: int, d2: int, s: nat, f: nat)
    requires d1 <= d2
    ensures RoundAt(d1, s, f) <= RoundAt(d2, s, f)
  {
    if d1 < 0 && d2 < 0 {
      MagnitudeMonotone(-d2, -d1, s, f);
    } else if 0 <= d1 {
      MagnitudeMonotone(d1, d2, s, f);
    }
  }

  lemma MagnitudeMonotone(n1: nat, n2: nat, s: nat, f: nat)
    requires n1 <= n2
    ensures RoundMagnitude(n1, s, f) <= RoundMagnitude(n2, s, f)
  {
    if s <= f {
      MulMonotone(n1, n2, Pow10(f - s));
    } else {
      var p := Pow10(s - f);
      var h := p / 2;
      var q1, r1 := (n1 + h) / p, (n1 + h) % p;
      var q2, r2 := (n2 + h) / p, (n2 + h) % p;
      assert n1 + h == q1 * p + r1 && n2 + h == q2 * p + r2;
      assert (q1 - q2) * p == (n1 - n2) + r2 - r1;
      MulBounds(q1 - q2, p);
    }
  }

  lemma MulMonotone(a: nat, b: nat, c: nat)
    requires a <= b
    ensures a * c <= b * c
  {
  }

  lemma DivUnique(x: int, y: int, k: int, r: int)
    requires y > 0 && x == k * y + r && 0 <= r < y
    ensures x / y == k
  {
    var t := x / y - k;
    assert x == (x / y) * y + x % y;
    assert t * y == r - x % y;
    MulBounds(t, y);
  }

  lemma MulBounds(t: int, y: int)
    requires y > 0
    ensures t >= 1 ==> t * y >= y
    ensures t <= -1 ==> t * y <= -y
  {
  }
}
