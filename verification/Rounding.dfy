/**
  Storing an exact rational result in an integer or a decimal attribute.

  A rational is a numerator over a positive denominator. Both conversions round to the nearest
  representable value, halves away from zero; "nearest" is said once, by multiplication, and both are
  proved to meet it.
 */
module Rounding {
  import opened Options

  type pos = n: int | 1 <= n witness 1

  datatype Rat = Rat(num: int, den: pos)

  function Abs(x: int): nat {
    if x < 0 then -x else x
  }

  function Pow10(k: nat): pos {
    if k == 0 then 1 else 10 * Pow10(k - 1)
  }

  // ----------------------------------------------------------------- nearest

  /** n is num/den rounded: no integer is closer, and a tie goes to the one further from zero. */
  predicate IsNearest(num: int, den: pos, n: int) {
    var off := 2 * Abs(n * den - num);
    off < den || (off == den && Abs(n * den) > Abs(num))
  }

  /** Rounding by adding one half and taking the floor, on the magnitude. */
  function Nearest(num: int, den: pos): int {
    var magnitude := (2 * Abs(num) + den) / (2 * den);
    if num < 0 then -magnitude else magnitude
  }

  lemma NearestIsOdd(num: int, den: pos, n: int)
    ensures IsNearest(num, den, n) <==> IsNearest(-num, den, -n)
  {
    assert (-n) * den == -(n * den);
  }

  lemma MulGeq(x: int, y: int, z: nat)
    requires x >= y
    ensures x * z >= y * z
  {
  }

  lemma Scaled(x: int, y: int, z: int)
    ensures (x * y) * z == x * (y * z) == x * (z * y)
  {
  }

  lemma Difference(x: int, y: int, z: int)
    ensures (x - y) * z == x * z - y * z
  {
  }

  /** An overshoot of at most half p above a/p, and one of at most half d below c/d, with a/p <= c/d. */
  lemma Gap(a: int, p: pos, n: int, c: int, d: pos, m: int)
    requires 2 * (n * p - a) <= p && 2 * (c - m * d) <= d && a * d <= c * p
    ensures 2 * (n - m) * (p * d) <= 2 * (n * p - a) * d + 2 * (c - m * d) * p
  {
    var x, y := n * p - a, c - m * d;
    Difference(n * p, a, d);
    Difference(c, m * d, p);
    Scaled(n, p, d);
    Scaled(m, d, p);
    Difference(n, m, p * d);
    Scaled(2, n - m, p * d);
    Scaled(2, x, d);
    Scaled(2, y, p);
  }

  /** Two halves cannot bridge more than one, and bridge one only when both are whole halves. */
  lemma GapIsOne(x: int, y: int, p: pos, d: pos, gap: int)
    requires x <= p && y <= d && 2 * gap * (p * d) <= x * d + y * p
    ensures gap <= 1
    ensures gap == 1 ==> x == p && y == d
  {
    MulGeq(p, x, d);
    MulGeq(d, y, p);
    MulGeq(p, 1, d);
    if gap >= 2 { MulGeq(2 * gap, 4, p * d); }
    if gap == 1 && x < p { MulGeq(p - 1, x, d); Difference(p, 1, d); }
    if gap == 1 && y < d { MulGeq(d - 1, y, p); Difference(d, 1, p); }
  }

  /** No two integers are nearest, and rounding keeps the order of the rationals it is given. */
  lemma NearestIsMonotone(a: Rat, b: Rat, n: int, m: int)
    requires IsNearest(a.num, a.den, n) && IsNearest(b.num, b.den, m)
    requires a.num * b.den <= b.num * a.den
    ensures n <= m
  {
    if m >= 0 { MulGeq(m, 0, b.den); }
    if n <= 0 { MulGeq(0, n, a.den); }
    Gap(a.num, a.den, n, b.num, b.den, m);
    GapIsOne(2 * (n * a.den - a.num), 2 * (b.num - m * b.den), a.den, b.den, n - m);
  }

  lemma NearestIsUnique(num: int, den: pos, n: int, m: int)
    requires IsNearest(num, den, n) && IsNearest(num, den, m)
    ensures n == m
  {
    NearestIsMonotone(Rat(num, den), Rat(num, den), n, m);
    NearestIsMonotone(Rat(num, den), Rat(num, den), m, n);
  }

  /** A remainder decides: with a == q * den + rem, q is nearest or q + 1 is. */
  lemma NearestFromRemainder(a: nat, den: pos, q: nat, rem: nat)
    requires a == q * den + rem && rem < den
    ensures IsNearest(a, den, if 2 * rem >= den then q + 1 else q)
  {
    assert (q + 1) * den == q * den + den;
    MulGeq(q, 0, den);
  }

  lemma NearestIsNearest(num: int, den: pos)
    ensures IsNearest(num, den, Nearest(num, den))
  {
    var a := Abs(num);
    var twice := 2 * a + den;
    var m, rest := twice / (2 * den), twice % (2 * den);
    assert twice == m * (2 * den) + rest;
    assert m * (2 * den) == 2 * (m * den);
    MulGeq(m, 0, den);
    if m == 0 { assert m * den == 0; }
    assert IsNearest(a, den, m) by { if m >= 1 { MulGeq(m, 1, den); } }
    NearestIsOdd(a, den, m);
  }

  // ----------------------------------------------------------------- integers

  const MIN_INT64: int := -0x8000_0000_0000_0000
  const MAX_INT64: int := 0x7FFF_FFFF_FFFF_FFFF

  predicate IsInt64(n: int) {
    MIN_INT64 <= n <= MAX_INT64
  }

  /** Division truncating toward zero, with the remainder's sign following the dividend. */
  function QuoRem(num: int, den: pos): (r: (int, int))
    ensures num == r.0 * den + r.1 && Abs(r.1) < den
    ensures (num >= 0 ==> r.0 >= 0 && r.1 >= 0) && (num <= 0 ==> r.0 <= 0 && r.1 <= 0)
  {
    var q, rem := Abs(num) / den, Abs(num) % den;
    if num < 0 then assert num == (-q) * den + (-rem); (-q, -rem) else (q, rem)
  }

  /** A missing result, or one outside the 64-bit range, is not representable. */
  method IntegerForRat(r: Option<Rat>) returns (out: Option<int>)
    ensures r.None? ==> out.None?
    ensures r.Some? && out.Some? ==>
      IsNearest(r.value.num, r.value.den, out.value) && -9223372036854775808 <= out.value <= 9223372036854775807
    ensures r.Some? && out.None? ==> forall n :: IsNearest(r.value.num, r.value.den, n) ==> n < -9223372036854775808 || n > 9223372036854775807
  {
    if r.None? { return None; }
    var num, den := r.value.num, r.value.den;
    var (q, rem) := QuoRem(num, den);
    NearestFromQuoRem(num, den, q, rem);
    if 2 * Abs(rem) >= den {
      if num < 0 { q := q - 1; } else { q := q + 1; }
    }
    forall n | IsNearest(num, den, n) ensures n == q { NearestIsUnique(num, den, n, q); }
    out := if IsInt64(q) then Some(q) else None;
  }

  lemma NearestFromQuoRem(num: int, den: pos, q: int, rem: int)
    requires (q, rem) == QuoRem(num, den)
    ensures IsNearest(num, den, if 2 * Abs(rem) < den then q else if num < 0 then q - 1 else q + 1)
  {
    if num >= 0 {
      NearestFromRemainder(num, den, q, rem);
    } else {
      assert -num == (-q) * den + (-rem);
      NearestFromRemainder(-num, den, -q, -rem);
      NearestIsOdd(num, den, if 2 * Abs(rem) < den then q else q - 1);
    }
  }

  // ------------------------------------------------------------ digit strings

  function Digit(n: nat): char
    requires n < 10
  {
    '0' + n as char
  }

  predicate IsDigit(c: char) {
    '0' <= c <= '9'
  }

  predicate AllDigits(s: string) {
    forall i :: 0 <= i < |s| ==> IsDigit(s[i])
  }

  function ReadDigits(s: string): nat
    requires AllDigits(s)
  {
    if |s| == 0 then 0 else 10 * ReadDigits(s[..|s| - 1]) + (s[|s| - 1] - '0') as nat
  }

  /** Decimal text of a natural: it reads back, and starts with a zero only when it is zero. */
  function Digits(n: nat): (s: string)
    ensures |s| >= 1 && AllDigits(s) && ReadDigits(s) == n
    ensures s[0] == '0' ==> n == 0
  {
    if n < 10 then [Digit(n)]
    else
      var init := Digits(n / 10);
      assert (init + [Digit(n % 10)])[..|init|] == init;
      init + [Digit(n % 10)]
  }

  lemma {:induction false} DigitsFit(n: nat, width: nat)
    requires n < Pow10(width) && width >= 1
    ensures |Digits(n)| <= width
  {
    if n >= 10 {
      assert width >= 2;
      DigitsFit(n / 10, width - 1);
    }
  }

  function Zeros(k: nat): (s: string)
    ensures |s| == k && AllDigits(s)
  {
    seq(k, _ => '0')
  }

  lemma {:induction false} LeadingZeros(k: nat, s: string)
    requires AllDigits(s)
    ensures AllDigits(Zeros(k) + s) && ReadDigits(Zeros(k) + s) == ReadDigits(s)
  {
    var t := Zeros(k) + s;
    if |s| > 0 {
      LeadingZeros(k, s[..|s| - 1]);
      assert t[..|t| - 1] == Zeros(k) + s[..|s| - 1];
    } else if k > 0 {
      LeadingZeros(k - 1, s);
      assert t[..|t| - 1] == Zeros(k - 1) + s;
    }
  }

  /** The fraction's digits, padded on the left. */
  function Padded(n: nat, width: nat): (s: string)
    requires n < Pow10(width) && width >= 1
    ensures |s| == width && AllDigits(s) && ReadDigits(s) == n
  {
    DigitsFit(n, width);
    LeadingZeros(width - |Digits(n)|, Digits(n));
    Zeros(width - |Digits(n)|) + Digits(n)
  }

  function TrimRight(s: string, c: char): (t: string)
    ensures |t| <= |s| && t == s[..|t|]
    ensures t == [] || t[|t| - 1] != c
    ensures forall i :: |t| <= i < |s| ==> s[i] == c
  {
    if s == [] || s[|s| - 1] != c then s else TrimRight(s[..|s| - 1], c)
  }

  lemma {:induction false} TrimStopsAtPoint(head: string, s: string)
    requires AllDigits(s)
    ensures TrimRight(head + "." + s, '0') == head + "." + TrimRight(s, '0')
  {
    var t := head + "." + s;
    if s == [] {
    } else if s[|s| - 1] == '0' {
      assert t[..|t| - 1] == head + "." + s[..|s| - 1];
      TrimStopsAtPoint(head, s[..|s| - 1]);
    }
  }

  lemma TenTimes(x: nat, k: nat)
    ensures 10 * (x * Pow10(k)) == x * Pow10(k + 1)
  {
  }

  lemma {:induction false} TrimmedReads(s: string)
    requires AllDigits(s)
    ensures AllDigits(TrimRight(s, '0'))
    ensures ReadDigits(s) == ReadDigits(TrimRight(s, '0')) * Pow10(|s| - |TrimRight(s, '0')|)
  {
    if s != [] && s[|s| - 1] == '0' {
      var init := s[..|s| - 1];
      var t := TrimRight(init, '0');
      TrimmedReads(init);
      TenTimes(ReadDigits(t), |init| - |t|);
      assert ReadDigits(s) == 10 * ReadDigits(init);
    }
  }

  // ----------------------------------------------------------------- decimals

  const MAX_DECIMAL_SCALE: nat := 20

  /** Natural division, its quotient and remainder. */
  function DivMod(a: nat, d: pos): (r: (nat, nat))
    ensures a == r.0 * d + r.1 && r.1 < d
  {
    assert a == d * (a / d) + a % d;
    (a / d, a % d)
  }

  /** One last place more, carrying into the whole part. */
  function Carry(q: nat, f: nat, p: pos): (nat, nat) {
    if f + 1 >= p then (q + 1, f + 1 - p) else (q, f + 1)
  }

  /** a/den with 1/p as the last place: an integer part, and a number of last places. */
  function Parts(a: nat, den: pos, p: pos): (nat, nat) {
    var (q, low) := DivMod(a, den);
    var (f, rest) := DivMod(low * p, den);
    if den <= rest + rest then Carry(q, f, p) else (q, f)
  }

  /** Below a whole, and before rounding exact up to a remainder. */
  lemma FractionFits(a: nat, den: pos, p: pos, q: nat, low: nat, f: nat, rest: nat)
    requires a == q * den + low && low < den && low * p == f * den + rest && rest < den
    ensures f < p && a * p == (q * p + f) * den + rest
  {
    Distribute(q * den, low, p);
    Scaled(q, den, p);
    Scaled(q, p, den);
    Distribute(q * p, f, den);
    if f >= p { MulGeq(f, p, den); MulGeq(den - 1, low, p); Difference(den, 1, p); }
  }

  lemma CarryAddsOne(q: nat, f: nat, p: pos)
    requires f < p
    ensures Carry(q, f, p).1 < p && Carry(q, f, p).0 * p + Carry(q, f, p).1 == q * p + f + 1
  {
    Distribute(q, 1, p);
  }

  /** Both parts together are the nearest number of last places. */
  lemma PartsAreNearest(a: nat, den: pos, p: pos)
    ensures var (q, f) := Parts(a, den, p); f < p && IsNearest(a * p, den, q * p + f)
  {
    var (q, low) := DivMod(a, den);
    var (f, rest) := DivMod(low * p, den);
    FractionFits(a, den, p, q, low, f, rest);
    CarryAddsOne(q, f, p);
    NearestFromRemainder(a * p, den, q * p + f, rest);
  }

  lemma Distribute(x: int, y: int, z: int)
    ensures (x + y) * z == x * z + y * z
  {
  }

  function Sign(num: int): string {
    if num < 0 then "-" else ""
  }

  /** A fixed number of digits after the point, the last one rounded half away from zero. */
  function FloatString(r: Rat, scale: nat): string
    requires scale >= 1
  {
    if r.den == 1 then Sign(r.num) + Digits(Abs(r.num)) + "." + Zeros(scale)
    else
      PartsAreNearest(Abs(r.num), r.den, Pow10(scale));
      var (q, f) := Parts(Abs(r.num), r.den, Pow10(scale));
      Sign(r.num) + Digits(q) + "." + Padded(f, scale)
  }

  function TrimPoint(s: string): string {
    if s != [] && s[|s| - 1] == '.' then s[..|s| - 1] else s
  }

  function DecimalText(r: Rat, scale: nat): string
    requires scale >= 1
  {
    if r.den == 1 then Sign(r.num) + Digits(Abs(r.num))
    else
      var text := FloatString(r, scale);
      if '.' in text then TrimPoint(TrimRight(text, '0')) else text
  }

  /** The one way to write q and f last places. */
  function Written(q: nat, f: nat, scale: nat): string
    requires scale >= 1 && f < Pow10(scale)
  {
    Digits(q) + if f == 0 then "" else "." + TrimRight(Padded(f, scale), '0')
  }

  lemma AllZeros(s: string)
    requires AllDigits(s)
    ensures TrimRight(s, '0') == [] <==> ReadDigits(s) == 0
  {
    if s != [] && s[|s| - 1] == '0' { AllZeros(s[..|s| - 1]); }
  }

  /** The text writes the nearest number of last places, behind the result's own sign. */
  lemma DecimalTextIsWritten(r: Rat, scale: nat, n: int) returns (q: nat, f: nat)
    requires scale >= 1 && IsNearest(r.num * Pow10(scale), r.den, n)
    ensures f < Pow10(scale) && Abs(n) == q * Pow10(scale) + f
    ensures DecimalText(r, scale) == Sign(r.num) + Written(q, f, scale)
  {
    var p, a := Pow10(scale), Abs(r.num);
    NearestMagnitude(r.num, p, r.den, n);
    PartsAreNearest(a, r.den, p);
    q, f := Parts(a, r.den, p).0, Parts(a, r.den, p).1;
    NearestIsUnique(a * p, r.den, Abs(n), q * p + f);
    if r.den == 1 { WholeParts(a, p); } else { TextOfParts(r, q, f, scale); }
  }

  lemma WholeParts(a: nat, p: pos)
    ensures Parts(a, 1, p) == (a, 0)
  {
    var (q, low) := DivMod(a, 1);
    var (f, rest) := DivMod(low * p, 1);
  }

  lemma PointIsTrimmed(head: string, t: string)
    requires t == [] || IsDigit(t[|t| - 1])
    ensures TrimPoint(head + "." + t) == head + if t == [] then "" else "." + t
  {
    var s := head + "." + t;
    if t == [] {
      assert s == head + "." && s[..|s| - 1] == head;
    } else {
      assert s[|s| - 1] == t[|t| - 1];
      assert s == head + ("." + t);
    }
  }

  /** Trimming drops the padding, and the point with it when nothing is left behind it. */
  lemma TrimmedText(head: string, s: string)
    requires AllDigits(s)
    ensures '.' in head + "." + s
    ensures TrimPoint(TrimRight(head + "." + s, '0')) == head + if TrimRight(s, '0') == [] then "" else "." + TrimRight(s, '0')
  {
    var t := TrimRight(s, '0');
    assert (head + "." + s)[|head|] == '.';
    TrimStopsAtPoint(head, s);
    if t != [] { assert t[|t| - 1] == s[|t| - 1]; }
    PointIsTrimmed(head, t);
  }

  lemma TextOfParts(r: Rat, q: nat, f: nat, scale: nat)
    requires scale >= 1 && r.den != 1 && f < Pow10(scale) && (q, f) == Parts(Abs(r.num), r.den, Pow10(scale))
    ensures DecimalText(r, scale) == Sign(r.num) + Written(q, f, scale)
  {
    var head, s := Sign(r.num) + Digits(q), Padded(f, scale);
    assert FloatString(r, scale) == head + "." + s;
    TrimmedText(head, s);
    AllZeros(s);
  }

  lemma NearestMagnitude(num: int, p: pos, den: pos, n: int)
    requires IsNearest(num * p, den, n)
    ensures IsNearest(Abs(num) * p, den, Abs(n))
    ensures (num < 0 ==> n <= 0) && (num >= 0 ==> n >= 0)
  {
    if num < 0 {
      NearestIsOdd(num * p, den, n);
      assert (-num) * p == -(num * p);
      MulGeq(0, num, p);
      if n >= 1 { MulGeq(n, 1, den); }
    } else {
      MulGeq(num, 0, p);
      if n <= -1 { MulGeq(-1, n, den); }
    }
  }

  // ------------------------------------------------------------- reading back

  function PointAt(s: string): (k: nat)
    ensures k <= |s| && (k < |s| ==> s[k] == '.')
    ensures forall i :: 0 <= i < k ==> s[i] != '.'
  {
    if s == [] || s[0] == '.' then 0 else 1 + PointAt(s[1..])
  }

  function Fraction(s: string): string {
    if PointAt(s) == |s| then "" else s[PointAt(s) + 1..]
  }

  /** Digits behind the point, as a number of last places. */
  function ReadFraction(frac: string, scale: nat): nat
    requires AllDigits(frac) && |frac| <= scale
  {
    ReadDigits(frac) * Pow10(scale - |frac|)
  }

  /** Decimal notation with at most `scale` digits after the point: the whole part, and a number of last places. */
  function ReadMagnitude(s: string, scale: nat): Option<(nat, nat)> {
    var whole, frac := s[..PointAt(s)], Fraction(s);
    if |whole| >= 1 && AllDigits(whole) && AllDigits(frac) && |frac| <= scale then
      Some((ReadDigits(whole), ReadFraction(frac, scale)))
    else None
  }

  function Places(m: Option<(nat, nat)>, p: pos): Option<int> {
    if m.None? then None else Some(m.value.0 * p + m.value.1)
  }

  /** A decimal text as a number of last places. */
  function ReadDecimal(s: string, scale: nat): Option<int> {
    if s != [] && s[0] == '-' then
      var m := Places(ReadMagnitude(s[1..], scale), Pow10(scale));
      if m.None? then None else Some(-m.value)
    else
      Places(ReadMagnitude(s, scale), Pow10(scale))
  }

  /** No bare point and no trailing zero behind one; no leading zero before other digits. */
  predicate TidyMagnitude(s: string) {
    var whole := s[..PointAt(s)];
    && (PointAt(s) < |s| ==> Fraction(s) != [] && s[|s| - 1] != '0')
    && (whole == "0" || (whole != [] && whole[0] != '0'))
  }

  predicate Tidy(s: string) {
    TidyMagnitude(if s != [] && s[0] == '-' then s[1..] else s)
  }

  lemma PointAfterDigits(whole: string, tail: string)
    requires AllDigits(whole) && (tail == [] || tail[0] == '.')
    ensures PointAt(whole + tail) == |whole|
  {
    var s := whole + tail;
    assert forall i :: 0 <= i < |whole| ==> s[i] == whole[i] && s[i] != '.';
    if tail != [] { assert s[|whole|] == '.'; }
  }

  lemma ReadsAsParts(whole: string, t: string, scale: nat)
    requires whole != [] && AllDigits(whole) && AllDigits(t) && |t| <= scale
    ensures ReadMagnitude(whole + if t == [] then "" else "." + t, scale)
         == Some((ReadDigits(whole), ReadFraction(t, scale)))
  {
    var tail := if t == [] then "" else "." + t;
    var s := whole + tail;
    PointAfterDigits(whole, tail);
    assert s[..|whole|] == whole;
    if t != [] { assert s[|whole| + 1..] == t; }
    assert Fraction(s) == t;
  }

  lemma TrimmedFraction(f: nat, scale: nat)
    requires scale >= 1 && f < Pow10(scale)
    ensures var t := TrimRight(Padded(f, scale), '0');
      |t| <= scale && AllDigits(t) && ReadFraction(t, scale) == f && (t == [] <==> f == 0)
  {
    AllZeros(Padded(f, scale));
    TrimmedReads(Padded(f, scale));
  }

  lemma WrittenReads(q: nat, f: nat, scale: nat)
    requires scale >= 1 && f < Pow10(scale)
    ensures ReadMagnitude(Written(q, f, scale), scale) == Some((q, f))
    ensures IsDigit(Written(q, f, scale)[0])
  {
    TrimmedFraction(f, scale);
    var t := TrimRight(Padded(f, scale), '0');
    ReadsAsParts(Digits(q), t, scale);
    assert IsDigit(Digits(q)[0]);
  }

  lemma SignReads(num: int, body: string, scale: nat, q: nat, f: nat, n: int)
    requires body != [] && IsDigit(body[0]) && ReadMagnitude(body, scale) == Some((q, f))
    requires Places(Some((q, f)), Pow10(scale)) == Some(Abs(n)) && (num < 0 ==> n <= 0) && (num >= 0 ==> n >= 0)
    ensures ReadDecimal(Sign(num) + body, scale) == Some(n)
  {
    if num < 0 { assert ("-" + body)[1..] == body; } else { assert "" + body == body; }
  }

  lemma WrittenTextReads(num: int, q: nat, f: nat, scale: nat, n: int)
    requires scale >= 1 && f < Pow10(scale)
    requires Abs(n) == q * Pow10(scale) + f && (num < 0 ==> n <= 0) && (num >= 0 ==> n >= 0)
    ensures ReadDecimal(Sign(num) + Written(q, f, scale), scale) == Some(n)
  {
    WrittenReads(q, f, scale);
    SignReads(num, Written(q, f, scale), scale, q, f, n);
  }

  /** The stored text reads as the result rounded to the last place: nearest, halves away from zero. */
  lemma DecimalReadsAsNearest(r: Rat, scale: nat, n: int)
    requires scale >= 1 && IsNearest(r.num * Pow10(scale), r.den, n)
    ensures ReadDecimal(DecimalText(r, scale), scale) == Some(n)
  {
    NearestMagnitude(r.num, Pow10(scale), r.den, n);
    var q, f := DecimalTextIsWritten(r, scale, n);
    WrittenTextReads(r.num, q, f, scale, n);
  }

  /** A result with a finite expansion within the scale is stored exactly. */
  lemma TerminatingIsExact(r: Rat, scale: nat, k: nat)
    requires scale >= 1 && Pow10(scale) == k * r.den
    ensures ReadDecimal(DecimalText(r, scale), scale) == Some(r.num * k)
    ensures (r.num * k) * r.den == r.num * Pow10(scale)
  {
    Scaled(r.num, k, r.den);
    DecimalReadsAsNearest(r, scale, r.num * k);
  }

  lemma DecimalTextIsTidy(r: Rat, scale: nat, n: int)
    requires scale >= 1 && IsNearest(r.num * Pow10(scale), r.den, n)
    ensures Tidy(DecimalText(r, scale))
  {
    var q, f := DecimalTextIsWritten(r, scale, n);
    TrimmedFraction(f, scale);
    var t := TrimRight(Padded(f, scale), '0');
    WrittenIsTidy(q, t);
    var body := Written(q, f, scale);
    assert IsDigit(body[0]) by { WrittenReads(q, f, scale); }
    if r.num < 0 { assert ("-" + body)[1..] == body; } else { assert "" + body == body; }
  }

  lemma WrittenIsTidy(q: nat, t: string)
    requires t == "" || t[|t| - 1] != '0'
    ensures TidyMagnitude(Digits(q) + if t == [] then "" else "." + t)
  {
    var tail := if t == [] then "" else "." + t;
    var body := Digits(q) + tail;
    PointAfterDigits(Digits(q), tail);
    ZeroDigits(q);
    assert body[..|Digits(q)|] == Digits(q);
    if t != [] { assert body[|Digits(q)| + 1..] == t; }
  }

  lemma ZeroDigits(q: nat)
    ensures q == 0 <==> Digits(q) == "0"
  {
    if q == 0 { assert Digits(0) == [Digit(0)]; }
  }

  lemma SignedZero(num: int, q: nat, f: nat, scale: nat)
    requires scale >= 1 && f < Pow10(scale)
    ensures Sign(num) + Written(q, f, scale) == "-0" <==> num < 0 && q == f == 0
  {
    var body := Written(q, f, scale);
    WrittenReads(q, f, scale);
    if q == f == 0 { WrittenZero(q, f, scale); }
    if num < 0 {
      assert ("-" + body)[1..] == body && "-0"[1..] == "0";
      if body == "0" { ReadsAsParts("0", "", scale); assert "0" + "" == "0"; }
    } else {
      assert ("" + body)[0] == body[0];
    }
  }

  /** A negative result that rounds to nothing is stored as a minus zero. */
  lemma MinusZeroExactlyWhenTiny(r: Rat, scale: nat, n: int)
    requires scale >= 1 && IsNearest(r.num * Pow10(scale), r.den, n)
    ensures DecimalText(r, scale) == "-0" <==> r.num < 0 && 2 * Abs(r.num * Pow10(scale)) < r.den
  {
    var q, f := DecimalTextIsWritten(r, scale, n);
    SignedZero(r.num, q, f, scale);
    NoPlaces(q, f, Pow10(scale));
    TinyIsZero(r.num * Pow10(scale), r.den, n);
  }

  lemma NoPlaces(q: nat, f: nat, p: pos)
    ensures q * p + f == 0 <==> q == f == 0
  {
    if q >= 1 { MulGeq(q, 1, p); }
  }

  lemma TinyIsZero(num: int, den: pos, n: int)
    requires IsNearest(num, den, n)
    ensures n == 0 <==> 2 * Abs(num) < den
  {
    if 2 * Abs(num) < den { assert IsNearest(num, den, 0); NearestIsUnique(num, den, n, 0); }
  }

  lemma WrittenZero(q: nat, f: nat, scale: nat)
    requires scale >= 1 && f == 0 < Pow10(scale) && q == 0
    ensures Written(q, f, scale) == "0"
  {
    ZeroDigits(q);
  }

  /** Rendering what was stored changes nothing, so a formula that reads a stored decimal sees its text. */
  lemma RenderingIsStable(r: Rat, scale: nat, n: int)
    requires scale >= 1 && IsNearest(r.num * Pow10(scale), r.den, n) && DecimalText(r, scale) != "-0"
    ensures ReadDecimal(DecimalText(r, scale), scale) == Some(n)
    ensures DecimalText(Rat(n, Pow10(scale)), scale) == DecimalText(r, scale)
  {
    var p := Pow10(scale);
    DecimalReadsAsNearest(r, scale, n);
    NearestMagnitude(r.num, p, r.den, n);
    assert IsNearest(n * p, p, n);
    var q, f := DecimalTextIsWritten(r, scale, n);
    var q', f' := DecimalTextIsWritten(Rat(n, p), scale, n);
    QuotientIsUnique(q, f, q', f', p);
    NoPlaces(q, f, p);
    SignedZero(r.num, q, f, scale);
    assert Sign(n) == Sign(r.num);
  }

  lemma QuotientIsUnique(q: nat, f: nat, q': nat, f': nat, p: pos)
    requires q * p + f == q' * p + f' && f < p && f' < p
    ensures q == q' && f == f'
  {
    if q > q' { MulGeq(q, q' + 1, p); Distribute(q', 1, p); }
    if q < q' { MulGeq(q', q + 1, p); Distribute(q, 1, p); }
  }

  /** A missing result clears the value; any other is stored to twenty places. */
  method DecimalForRat(r: Option<Rat>) returns (out: Option<string>)
    ensures out.Some? == r.Some?
    ensures r.Some? ==> Tidy(out.value) && ReadDecimal(out.value, 20).Some?
    ensures r.Some? ==> IsNearest(r.value.num * Pow10(20), r.value.den, ReadDecimal(out.value, 20).value)
  {
    if r.None? { return None; }
    ghost var n := Nearest(r.value.num * Pow10(MAX_DECIMAL_SCALE), r.value.den);
    NearestIsNearest(r.value.num * Pow10(MAX_DECIMAL_SCALE), r.value.den);
    DecimalReadsAsNearest(r.value, MAX_DECIMAL_SCALE, n);
    DecimalTextIsTidy(r.value, MAX_DECIMAL_SCALE, n);
    var text := FloatString(r.value, MAX_DECIMAL_SCALE);
    if r.value.den == 1 {
      text := Sign(r.value.num) + Digits(Abs(r.value.num));
    } else if '.' in text {
      text := TrimPoint(TrimRight(text, '0'));
    }
    out := Some(text);
  }

  /** A minus zero, at a concrete input: a tenth of the last place, below zero. */
  lemma ATinyNegativeIsMinusZero()
    ensures DecimalText(Rat(-1, Pow10(21)), 20) == "-0"
  {
    TenthOfALastPlace(20);
  }

  lemma TenthOfALastPlace(scale: nat)
    requires scale >= 1
    ensures DecimalText(Rat(-1, Pow10(scale + 1)), scale) == "-0"
  {
    var p: int, den := Pow10(scale), Pow10(scale + 1);
    assert den == 10 * p && IsNearest(-1 * p, den, 0);
    MinusZeroExactlyWhenTiny(Rat(-1, den), scale, 0);
  }

  // --------------------------------------------------- which texts can be stored

  const MAX_DECIMAL_LENGTH: nat := 40

  /** An optional sign, digits, and optionally a point with digits behind it. */
  predicate IsDecimalPattern(s: string) {
    var body := if s != [] && (s[0] == '+' || s[0] == '-') then s[1..] else s;
    var whole := body[..PointAt(body)];
    && whole != [] && AllDigits(whole)
    && (PointAt(body) < |body| ==> Fraction(body) != [] && AllDigits(Fraction(body)))
  }

  /** The value type's own check. */
  function NewDecimalValue(s: string): Option<string> {
    if |s| > MAX_DECIMAL_LENGTH || !IsDecimalPattern(s) then None else Some(s)
  }

  /** How many places a fraction needs once its trailing zeros are dropped. */
  function PlacesNeeded(f: nat, scale: nat): nat {
    if f == 0 || scale == 0 then 0 else if f % 10 != 0 then scale else PlacesNeeded(f / 10, scale - 1)
  }

  lemma {:induction false} DigitsTakeRoom(q: nat)
    ensures q < Pow10(|Digits(q)|)
  {
    if q < 10 {
      assert Pow10(1) == 10 * Pow10(0);
    } else {
      DigitsTakeRoom(q / 10);
    }
  }

  lemma {:induction false} Pow10Grows(k: nat, m: nat)
    requires k <= m
    ensures Pow10(k) <= Pow10(m)
  {
    if k < m { Pow10Grows(k, m - 1); }
  }

  /** A number fits a width exactly when it is below that power of ten. */
  lemma DigitsFitExactly(q: nat, width: nat)
    requires width >= 1
    ensures |Digits(q)| <= width <==> q < Pow10(width)
  {
    if q < Pow10(width) { DigitsFit(q, width); }
    DigitsTakeRoom(q);
    if |Digits(q)| <= width { Pow10Grows(|Digits(q)|, width); }
  }

  lemma {:induction false} PaddedEndsInLastDigit(f: nat, width: nat)
    requires width >= 2 && f < Pow10(width)
    ensures f / 10 < Pow10(width - 1)
    ensures Padded(f, width) == Padded(f / 10, width - 1) + [Digit(f % 10)]
  {
    DigitsFit(f, width);
    if f < 10 {
      assert Digits(0) == "0" by { ZeroDigits(0); }
      assert Zeros(width - 2) + "0" == Zeros(width - 1);
    } else {
      assert Digits(f) == Digits(f / 10) + [Digit(f % 10)];
      assert Zeros(width - |Digits(f)|) + (Digits(f / 10) + [Digit(f % 10)]) ==
        (Zeros(width - |Digits(f)|) + Digits(f / 10)) + [Digit(f % 10)];
    }
  }

  lemma TrimSnoc(init: string, c: char)
    ensures TrimRight(init + [c], '0') == if c == '0' then TrimRight(init, '0') else init + [c]
  {
    assert (init + [c])[..|init|] == init;
  }

  lemma OneDigit(f: nat)
    requires 0 < f < 10
    ensures f < Pow10(1) && |TrimRight(Padded(f, 1), '0')| == 1
  {
    assert Pow10(1) == 10 * Pow10(0);
    assert Padded(f, 1) == [] + [Digit(f)];
    TrimSnoc([], Digit(f));
  }

  lemma TrimmedStep(f: nat, scale: nat)
    requires scale >= 2 && f < Pow10(scale)
    ensures f / 10 < Pow10(scale - 1)
    ensures |TrimRight(Padded(f, scale), '0')| == if f % 10 == 0 then |TrimRight(Padded(f / 10, scale - 1), '0')| else scale
  {
    PaddedEndsInLastDigit(f, scale);
    var init, c := Padded(f / 10, scale - 1), Digit(f % 10);
    TrimSnoc(init, c);
  }

  /** The fraction's digits, trimmed, are as many as the places it needs. */
  lemma {:induction false} TrimmedLength(f: nat, scale: nat)
    requires scale >= 1 && f < Pow10(scale)
    ensures |TrimRight(Padded(f, scale), '0')| == PlacesNeeded(f, scale)
  {
    if f == 0 {
      AllZeros(Padded(f, scale));
    } else if scale == 1 {
      assert f < 10 by { assert Pow10(1) == 10 * Pow10(0); }
      OneDigit(f);
    } else {
      TrimmedStep(f, scale);
      if f % 10 == 0 { TrimmedLength(f / 10, scale - 1); }
    }
  }

  /** The characters the sign, and the point with what is behind it, take up. */
  function Overhead(num: int, f: nat, scale: nat): nat {
    (if num < 0 then 1 else 0) + if f == 0 then 0 else 1 + PlacesNeeded(f, scale)
  }

  lemma WrittenLength(num: int, q: nat, f: nat, scale: nat, limit: nat)
    requires scale >= 1 && f < Pow10(scale)
    ensures var over := Overhead(num, f, scale);
      |Sign(num) + Written(q, f, scale)| <= limit <==> over < limit && q < Pow10(limit - over)
  {
    TrimmedLength(f, scale);
    var over := Overhead(num, f, scale);
    assert |Sign(num) + Written(q, f, scale)| == over + |Digits(q)|;
    if over < limit { DigitsFitExactly(q, limit - over); }
  }

  lemma TextHasThePattern(r: Rat, scale: nat, n: int)
    requires scale >= 1 && IsNearest(r.num * Pow10(scale), r.den, n)
    ensures IsDecimalPattern(DecimalText(r, scale))
  {
    DecimalReadsAsNearest(r, scale, n);
    DecimalTextIsTidy(r, scale, n);
    var q, f := DecimalTextIsWritten(r, scale, n);
    var body := Written(q, f, scale);
    WrittenReads(q, f, scale);
    if r.num < 0 { assert ("-" + body)[1..] == body; } else { assert "" + body == body; }
  }

  /** A result of q and f last places can be stored exactly when its whole part is below the power of
      ten that the sign and the fraction leave room for; any other makes the write fail. */
  lemma StoredExactlyWhenItFits(r: Rat, scale: nat, n: int, q: nat, f: nat)
    requires scale >= 1 && IsNearest(r.num * Pow10(scale), r.den, n)
    requires Abs(n) == q * Pow10(scale) + f && f < Pow10(scale)
    ensures var over := Overhead(r.num, f, scale);
      NewDecimalValue(DecimalText(r, scale)) == Some(DecimalText(r, scale)) <==>
      over < MAX_DECIMAL_LENGTH && q < Pow10(MAX_DECIMAL_LENGTH - over)
  {
    TextHasThePattern(r, scale, n);
    var q', f' := DecimalTextIsWritten(r, scale, n);
    QuotientIsUnique(q, f, q', f', Pow10(scale));
    WrittenLength(r.num, q, f, scale, MAX_DECIMAL_LENGTH);
  }

  lemma {:induction false} PlacesNeededAreAtMost(f: nat, scale: nat)
    ensures PlacesNeeded(f, scale) <= scale
  {
    if f != 0 && scale != 0 && f % 10 == 0 { PlacesNeededAreAtMost(f / 10, scale - 1); }
  }

  lemma OverheadIsAtMost(num: int, f: nat, scale: nat)
    ensures Overhead(num, f, scale) <= scale + 2
  {
    PlacesNeededAreAtMost(f, scale);
  }

  lemma BelowALargerPower(q: nat, k: nat, m: nat)
    requires q < Pow10(k) && k <= m
    ensures q < Pow10(m)
  {
    Pow10Grows(k, m);
  }

  /** Whatever the sign and the fraction, a whole part that leaves room for both can be stored: at
      twenty places, one of up to eighteen digits. */
  lemma ShortWholePartsAlwaysFit(r: Rat, scale: nat, n: int, q: nat, f: nat, digits: nat)
    requires scale >= 1 && IsNearest(r.num * Pow10(scale), r.den, n)
    requires Abs(n) == q * Pow10(scale) + f && f < Pow10(scale)
    requires q < Pow10(digits) && digits >= 1 && digits + scale + 2 <= MAX_DECIMAL_LENGTH
    ensures NewDecimalValue(DecimalText(r, scale)) == Some(DecimalText(r, scale))
  {
    OverheadIsAtMost(r.num, f, scale);
    BelowALargerPower(q, digits, MAX_DECIMAL_LENGTH - Overhead(r.num, f, scale));
    StoredExactlyWhenItFits(r, scale, n, q, f);
  }

  /** The value type takes decimal notation of up to forty characters, and takes it as it is. */
  lemma TakenExactly(s: string)
    ensures NewDecimalValue(s) == if |s| <= 40 && IsDecimalPattern(s) then Some(s) else None
  {
  }

  /** A whole result of forty-one digits, at a concrete input: refused. */
  lemma AFortyOneDigitResultIsRefused(scale: nat)
    requires scale >= 1
    ensures NewDecimalValue(DecimalText(Rat(Pow10(MAX_DECIMAL_LENGTH), 1), scale)) == None
  {
    var q := Pow10(MAX_DECIMAL_LENGTH);
    assert IsNearest(q * Pow10(scale), 1, q * Pow10(scale));
    StoredExactlyWhenItFits(Rat(q, 1), scale, q * Pow10(scale), q, 0);
  }
}
