/**
 * IEEE 754 binary64 (section 3.4 of IEEE 754-2019) and the 16-digit wire
 * spelling of its finite members.
 */
module Binary64 {
  import opened Common

  const TWO_52: nat := 0x10_0000_0000_0000
  const TWO_53: nat := 0x20_0000_0000_0000
  const TWO_63: nat := 0x8000_0000_0000_0000
  const TWO_64: nat := 0x1_0000_0000_0000_0000

  /** Every finite binary64 is an integer multiple of 2^-ULP_SHIFT. */
  const ULP_SHIFT: nat := 1074

  function Pow2(k: nat): (p: nat)
    ensures p >= 1
  {
    if k == 0 then 1 else 2 * Pow2(k - 1)
  }

  lemma {:induction false} Pow2Add(a: nat, b: nat)
    ensures Pow2(a + b) == Pow2(a) * Pow2(b)
  {
    if a > 0 {
      Pow2Add(a - 1, b);
      calc {
        Pow2(a + b);
        2 * Pow2(a - 1 + b);
        2 * (Pow2(a - 1) * Pow2(b));
        (2 * Pow2(a - 1)) * Pow2(b);
      }
    }
  }

  lemma {:induction false} Pow2Monotone(a: nat, b: nat)
    requires a <= b
    ensures Pow2(a) <= Pow2(b)
    decreases b
  {
    if a < b { Pow2Monotone(a, b - 1); }
  }

  lemma Pow2Frontier()
    ensures Pow2(52) == TWO_52 && Pow2(53) == TWO_53
  {
    assert Pow2(13) == 8192;
    Pow2Add(13, 13);
    Pow2Add(26, 26);
  }

  // ---- the numbers themselves ----

  /** A JavaScript `number`. NaN payloads are not observable. */
  datatype Double =
    | Finite(negative: bool, exponent: nat, fraction: nat)
    | Infinite(negative: bool)
    | NotANumber
  {
    predicate Valid() {
      Finite? ==> exponent <= 2046 && fraction < TWO_52
    }

    /** The magnitude in units of 2^-1074; exponent field 0 is subnormal. */
    function Magnitude(): (m: nat)
      requires Finite?
    {
      if exponent == 0 then fraction else (TWO_52 + fraction) * Pow2(exponent - 1)
    }

    /** The signed exact value in units of 2^-1074. */
    function Scaled(): int
      requires Finite?
    {
      var m: int := Magnitude();
      if negative then -m else m
    }
  }

  type Number = d: Double | d.Valid() witness NotANumber

  /** `a === b` on finite numbers: the two zeros are one value. */
  predicate SameValue(a: Number, b: Number)
    requires a.Finite? && b.Finite?
  {
    a.Scaled() == b.Scaled()
  }

  function PositiveZero(): Number { Finite(false, 0, 0) }

  lemma ProductStrict(a: nat, b: nat, p: nat)
    requires a < b && p > 0
    ensures a * p < b * p
  {
  }

  lemma MagnitudeBounds(e: nat, f: nat)
    requires e <= 2046 && f < TWO_52
    ensures Finite(false, e, f).Magnitude() < TWO_52 * Pow2(e)
    ensures e > 0 ==> TWO_52 * Pow2(e - 1) <= Finite(false, e, f).Magnitude()
  {
    if e > 0 {
      var p := Pow2(e - 1);
      ProductStrict(TWO_52 + f, 2 * TWO_52, p);
      if f > 0 { ProductStrict(TWO_52, TWO_52 + f, p); }
      assert TWO_52 * Pow2(e) == 2 * TWO_52 * p;
    }
  }

  /** The bit pattern orders magnitudes strictly: one value, one pattern. */
  lemma MagnitudeStrict(a: Number, b: Number)
    requires a.Finite? && b.Finite?
    requires a.exponent < b.exponent || (a.exponent == b.exponent && a.fraction < b.fraction)
    ensures a.Magnitude() < b.Magnitude()
  {
    if a.exponent == b.exponent {
      if a.exponent > 0 {
        ProductStrict(TWO_52 + a.fraction, TWO_52 + b.fraction, Pow2(a.exponent - 1));
      }
    } else {
      MagnitudeBounds(a.exponent, a.fraction);
      MagnitudeBounds(b.exponent, b.fraction);
      Pow2Monotone(a.exponent, b.exponent - 1);
      assert TWO_52 * Pow2(a.exponent) <= TWO_52 * Pow2(b.exponent - 1);
    }
  }

  lemma SameValueIsSamePattern(a: Number, b: Number)
    requires a.Finite? && b.Finite?
    ensures SameValue(a, b) <==> a == b || (a.Magnitude() == 0 && b.Magnitude() == 0)
    ensures a.Magnitude() == 0 <==> a.exponent == 0 && a.fraction == 0
  {
    var zero := PositiveZero();
    if !(a.exponent == 0 && a.fraction == 0) { MagnitudeStrict(zero, a); }
    if !(b.exponent == 0 && b.fraction == 0) { MagnitudeStrict(zero, b); }
    if a.exponent != b.exponent || a.fraction != b.fraction {
      if a.exponent < b.exponent || (a.exponent == b.exponent && a.fraction < b.fraction) {
        MagnitudeStrict(a, b);
      } else {
        MagnitudeStrict(b, a);
      }
    }
  }

  // ---- interchange encoding ----

  function SignBit(negative: bool): nat { if negative then TWO_63 else 0 }

  /** The interchange word; a NaN is written with its quiet pattern. */
  function Bits(d: Number): (n: nat)
    ensures n < TWO_64
  {
    match d
    case Finite(negative, e, f) => SignBit(negative) + e * TWO_52 + f
    case Infinite(negative) => SignBit(negative) + 2047 * TWO_52
    case NotANumber => 2047 * TWO_52 + TWO_52 / 2
  }

  function FromBits(n: nat): (d: Number)
    requires n < TWO_64
    ensures d != NotANumber ==> Bits(d) == n
  {
    var negative, m := n >= TWO_63, n % TWO_63;
    var e, f := m / TWO_52, m % TWO_52;
    if e < 2047 then Finite(negative, e, f)
    else if f == 0 then Infinite(negative)
    else NotANumber
  }

  lemma BitsRoundTrip(d: Number)
    ensures FromBits(Bits(d)) == d
  {
    match d {
      case Finite(negative, e, f) =>
        var m := e * TWO_52 + f;
        assert m / TWO_52 == e && m % TWO_52 == f && m < TWO_63;
        assert (SignBit(negative) + m) % TWO_63 == m;
      case Infinite(_) =>
      case NotANumber =>
    }
  }

  // ---- hexadecimal text ----

  predicate IsHex(c: char) { '0' <= c <= '9' || 'a' <= c <= 'f' }

  function HexValue(c: char): (v: nat)
    requires IsHex(c)
    ensures v < 16
  {
    if c <= '9' then (c - '0') as nat else (c - 'a') as nat + 10
  }

  function HexChar(v: nat): (c: char)
    requires v < 16
    ensures IsHex(c) && HexValue(c) == v
  {
    if v < 10 then '0' + v as char else 'a' + (v - 10) as char
  }

  predicate AllHex(s: string) { forall i :: 0 <= i < |s| ==> IsHex(s[i]) }

  function Pow16(k: nat): (p: nat)
    ensures p >= 1
  {
    if k == 0 then 1 else 16 * Pow16(k - 1)
  }

  /** `BigInt("0x" + s)`. */
  function HexOf(s: string): nat
    requires AllHex(s)
  {
    if s == "" then 0 else HexOf(s[..|s| - 1]) * 16 + HexValue(s[|s| - 1])
  }

  /** `n.toString(16)`: no leading zero. */
  function HexText(n: nat): (s: string)
    ensures AllHex(s) && s != ""
  {
    if n < 16 then [HexChar(n)] else HexText(n / 16) + [HexChar(n % 16)]
  }

  function Zeros(k: nat): (s: string)
    ensures |s| == k && AllHex(s)
  {
    seq(k, i => '0')
  }

  function PadStart(s: string, width: nat): (r: string)
    ensures |s| <= width ==> |r| == width
  {
    if |s| < width then Zeros(width - |s|) + s else s
  }

  /** Fixed-width hexadecimal; the reference for `toString(16).padStart(k, "0")`. */
  function FixedHex(n: nat, k: nat): (s: string)
    ensures |s| == k && AllHex(s)
  {
    if k == 0 then "" else FixedHex(n / 16, k - 1) + [HexChar(n % 16)]
  }

  lemma {:induction false} FixedHexOfZero(k: nat)
    ensures FixedHex(0, k) == Zeros(k)
  {
    if k > 0 {
      FixedHexOfZero(k - 1);
      assert Zeros(k - 1) + ['0'] == Zeros(k);
    }
  }

  lemma {:induction false} PaddedIsFixed(n: nat, k: nat)
    requires n < Pow16(k) && k > 0
    ensures PadStart(HexText(n), k) == FixedHex(n, k)
    decreases k
  {
    if n < 16 {
      assert n / 16 == 0 && n % 16 == n;
      FixedHexOfZero(k - 1);
    } else {
      assert n / 16 < Pow16(k - 1) && k > 1;
      PaddedIsFixed(n / 16, k - 1);
      var head, last := HexText(n / 16), [HexChar(n % 16)];
      assert HexText(n) == head + last;
      assert PadStart(head + last, k) == PadStart(head, k - 1) + last;
    }
  }

  lemma {:induction false} HexOfFixed(n: nat, k: nat)
    requires n < Pow16(k)
    ensures HexOf(FixedHex(n, k)) == n
  {
    if k > 0 {
      var s := FixedHex(n, k);
      assert s[..|s| - 1] == FixedHex(n / 16, k - 1);
      assert n / 16 < Pow16(k - 1);
      HexOfFixed(n / 16, k - 1);
    }
  }

  lemma {:induction false} FixedOfHex(s: string)
    requires AllHex(s)
    ensures HexOf(s) < Pow16(|s|) && FixedHex(HexOf(s), |s|) == s
  {
    if s != "" {
      var head := s[..|s| - 1];
      FixedOfHex(head);
      assert HexOf(s) / 16 == HexOf(head) && HexOf(s) % 16 == HexValue(s[|s| - 1]);
      assert HexChar(HexValue(s[|s| - 1])) == s[|s| - 1];
      assert s == head + [s[|s| - 1]];
    }
  }

  lemma Pow16Word()
    ensures Pow16(16) == TWO_64
  {
    assert Pow16(4) == 65536;
    assert Pow16(8) == 0x1_0000_0000;
    assert Pow16(12) == 0x1_0000_0000_0000;
  }

  // ---- the wire spelling ----

  const WIRE_CHARS: nat := 16
  const NEGATIVE_ZERO_WIRE: string := "8000000000000000"

  datatype WireError = NotFiniteNumber | NotCanonical | NegativeZero

  /** `value === 0 ? 0 : value`. */
  function Normalized(d: Number): Number
    requires d.Finite?
  {
    if d.Scaled() == 0 then PositiveZero() else d
  }

  /** `finiteNumberToWire`. */
  function ToWire(d: Number): Result<string, WireError> {
    if !d.Finite? then Err(NotFiniteNumber)
    else Ok(PadStart(HexText(Bits(Normalized(d))), WIRE_CHARS))
  }

  /** `finiteNumberFromWire`. */
  function FromWire(s: string): Result<Number, WireError> {
    if |s| != WIRE_CHARS || !AllHex(s) then Err(NotCanonical)
    else if s == NEGATIVE_ZERO_WIRE then Err(NegativeZero)
    else
      FixedOfHex(s); Pow16Word();
      var d := FromBits(HexOf(s));
      if d.Finite? then Ok(d) else Err(NotFiniteNumber)
  }

  lemma WireIsFixedHex(d: Number)
    requires d.Finite?
    ensures ToWire(d) == Ok(FixedHex(Bits(Normalized(d)), WIRE_CHARS))
    ensures HexOf(ToWire(d).value) == Bits(Normalized(d))
  {
    Pow16Word();
    PaddedIsFixed(Bits(Normalized(d)), WIRE_CHARS);
    HexOfFixed(Bits(Normalized(d)), WIRE_CHARS);
  }

  lemma NegativeZeroSpelling()
    ensures NEGATIVE_ZERO_WIRE == FixedHex(TWO_63, WIRE_CHARS)
  {
    FixedHexOfZero(15);
    var s := NEGATIVE_ZERO_WIRE;
    FixedOfHex(s);
    assert s == ['8'] + Zeros(15);
    HexShift(15);
    Pow16Word();
  }

  lemma {:induction false} HexShift(k: nat)
    ensures HexOf(['8'] + Zeros(k)) == 8 * Pow16(k)
  {
    var s := ['8'] + Zeros(k);
    if k == 0 {
      assert s[..0] == "";
    } else {
      assert s[..|s| - 1] == ['8'] + Zeros(k - 1);
      HexShift(k - 1);
    }
  }

  /** Decoding an encoding returns the same value, with -0 canonicalized to 0. */
  lemma WireRoundTrip(d: Number)
    requires d.Finite?
    ensures ToWire(d).Ok? && FromWire(ToWire(d).value) == Ok(Normalized(d))
    ensures SameValue(Normalized(d), d)
  {
    var c := Normalized(d);
    WireIsFixedHex(d);
    NegativeZeroSpelling();
    SameValueIsSamePattern(c, PositiveZero());
    Pow16Word();
    HexOfFixed(TWO_63, WIRE_CHARS);
    assert Bits(c) != TWO_63;
    BitsRoundTrip(c);
  }

  /** Every accepted spelling is the one its value is encoded with. */
  lemma WireCanonical(s: string)
    requires FromWire(s).Ok?
    ensures FromWire(s).value.Finite? && ToWire(FromWire(s).value) == Ok(s)
  {
    var d := FromWire(s).value;
    FixedOfHex(s);
    NegativeZeroSpelling();
    SameValueIsSamePattern(d, PositiveZero());
    Pow16Word();
    HexOfFixed(TWO_63, WIRE_CHARS);
    assert Normalized(d) == d;
    WireIsFixedHex(d);
  }

  /** Numeric equality of finite numbers is equality of their spellings. */
  lemma WireInjective(a: Number, b: Number)
    requires a.Finite? && b.Finite?
    ensures SameValue(a, b) <==> ToWire(a) == ToWire(b)
  {
    WireRoundTrip(a);
    WireRoundTrip(b);
    SameValueIsSamePattern(a, b);
  }

  /** The decoder accepts exactly the encoder's range. */
  lemma WireAcceptance(s: string)
    ensures FromWire(s).Ok? <==> exists d: Number :: d.Finite? && ToWire(d) == Ok(s)
  {
    if FromWire(s).Ok? {
      WireCanonical(s);
    } else if exists d: Number :: d.Finite? && ToWire(d) == Ok(s) {
      var d: Number :| d.Finite? && ToWire(d) == Ok(s);
      WireRoundTrip(d);
    }
  }

  // ---- the pattern in characters ----

  const HEX_DIGITS := "0123456789abcdef"

  lemma HexDigits(v: nat)
    requires v < 16
    ensures HexChar(v) == HEX_DIGITS[v] && HexValue(HEX_DIGITS[v]) == v
  {
  }

  /** `IEEE 754 binary64`: sign, eleven exponent bits, fifty-two fraction bits. */
  function Word(negative: bool, exponent: nat, fraction: nat): nat {
    (if negative then 0x8000_0000_0000_0000 else 0) + exponent * 0x10_0000_0000_0000 + fraction
  }

  /** Four bits of a word, the `k`-th from the right. */
  function Nibble(n: nat, k: nat): (v: nat)
    ensures v < 16
  {
    if k == 0 then n % 16 else Nibble(n / 16, k - 1)
  }

  /** They are what is left below 16 after dividing by that power of 16. */
  lemma {:induction false} NibbleIs(n: nat, k: nat)
    ensures Nibble(n, k) == n / Pow16(k) % 16
  {
    if k > 0 {
      NibbleIs(n / 16, k - 1);
      DivideOnce(n, Pow16(k - 1));
    }
  }

  lemma {:induction false} FixedHexAt(n: nat, k: nat, i: nat)
    requires i < k
    ensures FixedHex(n, k)[i] == HEX_DIGITS[Nibble(n, k - 1 - i)]
    decreases k
  {
    HexDigits(n % 16);
    if i < k - 1 { FixedHexAt(n / 16, k - 1, i); }
  }

  lemma DivideOnce(n: nat, p: nat)
    requires p > 0
    ensures n / 16 / p == n / (16 * p)
  {
    var q := n / 16;
    var r := q / p;
    var x, y := n % 16, q % p;
    assert n == q * 16 + x && q == r * p + y;
    SameQuotient(n, r, p, y, x);
  }

  lemma SameQuotient(n: nat, r: nat, p: nat, y: nat, x: nat)
    requires p > 0 && y < p && x < 16 && n == (r * p + y) * 16 + x
    ensures n / (16 * p) == r
  {
    var rest := y * 16 + x;
    assert 16 * p >= (y + 1) * 16;
    assert rest < 16 * p;
    assert (r * p + y) * 16 == r * (16 * p) + y * 16;
    Quotient(n, r, 16 * p, rest);
  }

  lemma Quotient(n: nat, r: nat, m: nat, rest: nat)
    requires m > 0 && rest < m && n == r * m + rest
    ensures n / m == r
  {
    var q := n / m;
    var t := n % m;
    assert n == q * m + t;
    if q < r { Apart(q, r, m); } else if r < q { Apart(r, q, m); }
  }

  lemma Apart(q: nat, r: nat, m: nat)
    requires q < r
    ensures r * m >= q * m + m
  {
    if q + 1 < r && m > 0 { ProductStrict(q + 1, r, m); }
    assert (q + 1) * m == q * m + m;
  }

  /** The text sent, by its length and the number it spells. */
  lemma WireText(d: Number)
    requires d.Finite?
    ensures ToWire(d).Ok? && |ToWire(d).value| == 16 && AllHex(ToWire(d).value)
    ensures HexOf(ToWire(d).value) == WordOf(d)
  {
    WireIsFixedHex(d);
    ZeroPattern(d);
  }

  lemma HexAt(text: string, i: nat)
    requires AllHex(text) && i < |text|
    ensures text[i] == HEX_DIGITS[Nibble(HexOf(text), |text| - 1 - i)]
  {
    FixedOfHex(text);
    FixedHexAt(HexOf(text), |text|, i);
  }

  /** Each character of the spelling is the hexadecimal digit of its four bits, most significant first. */
  lemma WireIsPattern(d: Number, i: nat)
    requires d.Finite? && i < 16
    ensures ToWire(d).Ok? && |ToWire(d).value| == 16
    ensures ToWire(d).value[i] == HEX_DIGITS[Nibble(WordOf(d), 15 - i)]
  {
    WireText(d);
    HexAt(ToWire(d).value, i);
  }

  /** The pattern that is sent: zero for either zero. */
  function WordOf(d: Number): nat
    requires d.Finite?
  {
    if d.exponent == 0 && d.fraction == 0 then 0 else Word(d.negative, d.exponent, d.fraction)
  }

  lemma ZeroPattern(d: Number)
    requires d.Finite?
    ensures Bits(Normalized(d)) == WordOf(d)
  {
    SameValueIsSamePattern(d, PositiveZero());
  }

  /** The sign bit is the sign of the value. */
  lemma SignIs(d: Number)
    requires d.Finite?
    ensures d.Scaled() < 0 <==> d.negative && d.Magnitude() > 0
    ensures d.Scaled() > 0 <==> !d.negative && d.Magnitude() > 0
  {
  }

  /** With no fraction the exponent field `1023 + k` is two to the power `k`, in units of 2^-1074. */
  lemma ExponentIsPower(k: int)
    requires -1023 < k <= 1023
    ensures Finite(false, 1023 + k, 0).Magnitude() == Pow2(1074 + k)
  {
    Pow2Frontier();
    Pow2Add(52, 1022 + k);
  }

  /** The fraction counts fifty-second parts of that power, and plain units below the normal numbers. */
  lemma FractionIsLinear(e: nat, f: nat)
    requires e <= 2046 && f < TWO_52
    ensures Finite(false, e, f).Magnitude() ==
            if e == 0 then f else Finite(false, e, 0).Magnitude() + f * Pow2(e - 1)
  {
    if e > 0 { Distribute(TWO_52, f, Pow2(e - 1)); }
  }

  lemma Distribute(a: nat, b: nat, p: nat)
    ensures (a + b) * p == a * p + b * p
  {
  }

  lemma {:induction false} HexConcat(a: string, b: string)
    requires AllHex(a) && AllHex(b)
    ensures AllHex(a + b) && HexOf(a + b) == HexOf(a) * Pow16(|b|) + HexOf(b)
  {
    if b == "" {
      assert a + b == a;
    } else {
      var c := b[..|b| - 1];
      assert (a + b)[..|a + b| - 1] == a + c;
      HexConcat(a, c);
      Widen(HexOf(a), Pow16(|c|), HexOf(c), HexValue(b[|b| - 1]));
    }
  }

  lemma Widen(x: nat, p: nat, y: nat, d: nat)
    ensures (x * p + y) * 16 + d == x * (16 * p) + (y * 16 + d)
  {
  }

  lemma Pow16Fraction()
    ensures Pow16(13) == TWO_52 && Pow16(3) == 4096
  {
    assert Pow16(4) == 65536;
    assert Pow16(8) == 0x1_0000_0000;
    assert Pow16(12) == 0x1_0000_0000_0000;
  }

  lemma FieldOfWord(n: nat, high: nat, low: nat)
    requires high < 4096 && low < TWO_52 && n == high * TWO_52 + low
    ensures n < TWO_64 && n % TWO_63 / TWO_52 == high % 2048
  {
    if high < 2048 {
      assert n % TWO_63 == n;
      Quotient(n, high, TWO_52, low);
    } else {
      var m := n - TWO_63;
      assert n % TWO_63 == m && m == (high - 2048) * TWO_52 + low;
      Quotient(m, high - 2048, TWO_52, low);
    }
  }

  lemma OneMoreHex(s: string, c: char)
    requires AllHex(s) && IsHex(c)
    ensures AllHex(s + [c]) && HexOf(s + [c]) == HexOf(s) * 16 + HexValue(c)
  {
    assert (s + [c])[..|s|] == s;
  }

  lemma ThreeDigits(a: char, b: char, c: char)
    requires IsHex(a) && IsHex(b) && IsHex(c)
    ensures AllHex([a, b, c]) && HexOf([a, b, c]) == HexValue(a) * 256 + HexValue(b) * 16 + HexValue(c)
  {
    OneMoreHex("", a);
    OneMoreHex([a], b);
    OneMoreHex([a, b], c);
    assert "" + [a] == [a] && [a] + [b] == [a, b] && [a, b] + [c] == [a, b, c];
  }

  lemma OnesBelow2048(a: nat, b: nat, c: nat)
    requires a < 16 && b < 16 && c < 16
    ensures (a * 256 + b * 16 + c) % 2048 == 2047 <==> (a == 7 || a == 15) && b == 15 && c == 15
  {
  }

  lemma HighDigits(c: char)
    requires IsHex(c)
    ensures (HexValue(c) == 7 <==> c == '7') && (HexValue(c) == 15 <==> c == 'f')
  {
  }

  lemma AllOnes(head: string)
    requires |head| == 3 && AllHex(head)
    ensures HexOf(head) < 4096 && (HexOf(head) % 2048 == 2047 <==> head == "7ff" || head == "fff")
  {
    var a, b, c := head[0], head[1], head[2];
    assert head == [a, b, c];
    ThreeDigits(a, b, c);
    OnesBelow2048(HexValue(a), HexValue(b), HexValue(c));
    HighDigits(a);
    HighDigits(b);
    HighDigits(c);
  }

  /** Why a text is refused: its shape, negative zero, or an exponent of ones (an infinity or no number). */
  lemma WireRefusal(s: string)
    ensures FromWire(s) == Err(NotCanonical) <==> !(|s| == 16 && forall c :: c in s ==> c in "0123456789abcdef")
    ensures FromWire(s) == Err(NegativeZero) <==> s == "8000000000000000"
    ensures FromWire(s) == Err(NotFiniteNumber) <==>
            && |s| == 16 && (forall c :: c in s ==> c in "0123456789abcdef") && (s[..3] == "7ff" || s[..3] == "fff")
  {
    AlphabetIsHex(s);
    if |s| == 16 && AllHex(s) {
      var head, tail := s[..3], s[3..];
      assert s == head + tail;
      HexConcat(head, tail);
      FixedOfHex(tail);
      Pow16Fraction();
      AllOnes(head);
      FieldOfWord(HexOf(s), HexOf(head), HexOf(tail));
    }
  }

  lemma AlphabetIsHex(s: string)
    ensures AllHex(s) <==> forall c :: c in s ==> c in "0123456789abcdef"
    ensures AllHex("8000000000000000") && "8000000000000000"[..3] == "800"
  {
    forall c: char ensures IsHex(c) <==> c in HEX_DIGITS {
      if IsHex(c) { assert c == HEX_DIGITS[HexValue(c)]; }
    }
  }

  // ---- the shared 8-byte view ----

  /** The `k` low bytes of `n`, most significant first. */
  function Bytes(n: nat, k: nat): (s: seq<nat>)
    ensures |s| == k && forall i :: 0 <= i < k ==> s[i] < 256
  {
    if k == 0 then [] else Bytes(n / 256, k - 1) + [n % 256]
  }

  function BigEndian(s: seq<nat>): nat {
    if s == [] then 0 else BigEndian(s[..|s| - 1]) * 256 + s[|s| - 1]
  }

  lemma {:induction false} BigEndianOfBytes(n: nat, k: nat)
    requires n < Pow16(2 * k)
    ensures BigEndian(Bytes(n, k)) == n
  {
    if k > 0 {
      var s := Bytes(n, k);
      assert s[..|s| - 1] == Bytes(n / 256, k - 1);
      assert Pow16(2 * k) == 256 * Pow16(2 * (k - 1));
      BigEndianOfBytes(n / 256, k - 1);
    }
  }

  /** The reusable buffer both conversions write before they read it back. */
  class DataView {
    const buffer: array<nat>

    constructor ()
      ensures buffer.Length == 8 && fresh(buffer)
    {
      buffer := new nat[8];
    }

    method SetBigUint64(n: nat)
      requires buffer.Length == 8 && n < TWO_64
      modifies buffer
      ensures BigEndian(buffer[..]) == n
    {
      var bytes := Bytes(n, 8);
      forall i | 0 <= i < 8 { buffer[i] := bytes[i]; }
      Pow16Word();
      BigEndianOfBytes(n, 8);
      assert buffer[..] == bytes;
    }

    method GetBigUint64() returns (n: nat)
      requires buffer.Length == 8
      ensures n == BigEndian(buffer[..])
    {
      n := 0;
      for i := 0 to 8
        invariant n == BigEndian(buffer[..i])
      {
        n := n * 256 + buffer[i];
        assert buffer[..i + 1][..i] == buffer[..i];
      }
      assert buffer[..8] == buffer[..];
    }

    /** `finiteNumberToWire`, through the buffer. */
    method FiniteNumberToWire(value: Number) returns (wire: Result<string, WireError>)
      requires buffer.Length == 8
      modifies buffer
      ensures wire == ToWire(value)
    {
      if !value.Finite? { return Err(NotFiniteNumber); }
      SetBigUint64(Bits(Normalized(value)));
      var word := GetBigUint64();
      wire := Ok(PadStart(HexText(word), WIRE_CHARS));
    }

    /** `finiteNumberFromWire`, through the buffer. */
    method FiniteNumberFromWire(wire: string) returns (value: Result<Number, WireError>)
      requires buffer.Length == 8
      modifies buffer
      ensures value == FromWire(wire)
    {
      if |wire| != WIRE_CHARS || !AllHex(wire) { return Err(NotCanonical); }
      if wire == NEGATIVE_ZERO_WIRE { return Err(NegativeZero); }
      FixedOfHex(wire);
      Pow16Word();
      SetBigUint64(HexOf(wire));
      var word := GetBigUint64();
      var d := FromBits(word);
      value := if d.Finite? then Ok(d) else Err(NotFiniteNumber);
    }
  }
}
