/**
 * Reading a human decimal as one exact binary64, and printing a whole one so
 * that it can be typed back.
 */
module NumberDraft {
  import opened Common
  import opened Decimal
  import opened Binary64

  // ---- surrounding whitespace ----

  predicate IsSpace(c: char) {
    || '\t' <= c <= '\r' || c == ' ' || c == '\U{a0}' || c == '\U{1680}'
    || '\U{2000}' <= c <= '\U{200a}' || c == '\U{2028}' || c == '\U{2029}'
    || c == '\U{202f}' || c == '\U{205f}' || c == '\U{3000}' || c == '\U{feff}'
  }

  predicate Trimmed(s: string) {
    s != "" ==> !IsSpace(s[0]) && !IsSpace(s[|s| - 1])
  }

  /** `s[i..j]`, with nothing but white space around it. */
  predicate Core(s: string, i: int, j: int) {
    && 0 <= i <= j <= |s|
    && (forall k :: 0 <= k < i ==> IsSpace(s[k])) && (forall k :: j <= k < |s| ==> IsSpace(s[k]))
  }

  /** `r` is `s` without some white space at either end. */
  ghost predicate Within(s: string, r: string) { exists i, j :: Core(s, i, j) && r == s[i..j] }

  function Trim(s: string): (r: string)
    ensures Trimmed(r) && Within(s, r)
    ensures Trimmed(s) ==> r == s
  {
    if s != "" && IsSpace(s[0]) then
      WithinTail(s, Trim(s[1..]));
      Trim(s[1..])
    else if s != "" && IsSpace(s[|s| - 1]) then
      WithinHead(s, Trim(s[..|s| - 1]));
      Trim(s[..|s| - 1])
    else
      assert Core(s, 0, |s|) && s == s[0..|s|];
      s
  }

  lemma WithinTail(s: string, r: string)
    requires s != "" && IsSpace(s[0]) && Within(s[1..], r)
    ensures Within(s, r)
  {
    var t := s[1..];
    var i, j :| Core(t, i, j) && r == t[i..j];
    forall k | 0 <= k < |s| && (k < i + 1 || j + 1 <= k) ensures IsSpace(s[k]) {
      if k > 0 { assert s[k] == t[k - 1]; }
    }
    assert r == s[i + 1..j + 1];
    assert Core(s, i + 1, j + 1);
  }

  lemma WithinHead(s: string, r: string)
    requires s != "" && IsSpace(s[|s| - 1]) && Within(s[..|s| - 1], r)
    ensures Within(s, r)
  {
    var t := s[..|s| - 1];
    var i, j :| Core(t, i, j) && r == t[i..j];
    assert forall k :: 0 <= k < |t| ==> s[k] == t[k];
    assert Core(s, i, j) && r == s[i..j];
  }

  // ---- syntax ----

  datatype Exponent = Exponent(mark: char, sign: string, digits: string)

  predicate IsMark(c: char) { c == 'e' || c == 'E' }

  predicate IsSign(s: string) { s == "" || s == "+" || s == "-" }

  /** The capture groups of `^-?(\d*)(?:\.(\d*))?(?:[eE]([+-]?)(\d+))?$`. */
  datatype Spelling = Spelling(negative: bool, integer: string, fraction: Option<string>, exponent: Option<Exponent>)
  {
    predicate WellFormed() {
      && AllDigits(integer)
      && (fraction.Some? ==> AllDigits(fraction.value))
      && (exponent.Some? ==>
            && IsMark(exponent.value.mark) && IsSign(exponent.value.sign)
            && exponent.value.digits != "" && AllDigits(exponent.value.digits))
    }

    function FractionDigits(): string { if fraction.Some? then fraction.value else "" }

    /** The pattern alone would let through a lone point or a bare exponent. */
    predicate HasDigits() { |integer| + |FractionDigits()| > 0 }

    function Tail(): string {
      (if fraction.Some? then "." + fraction.value else "") + ExponentText(exponent)
    }

    function Text(): string { (if negative then "-" else "") + (integer + Tail()) }

    function ExponentValue(): int
      requires WellFormed()
    {
      match exponent
      case None => 0
      case Some(e) => var m: int := NatOf(e.digits); if e.sign == "-" then -m else m
    }

    function Significand(): nat
      requires WellFormed()
    {
      NatOfConcat(integer, FractionDigits());
      NatOf(integer + FractionDigits())
    }

    function Scale(): int
      requires WellFormed()
    {
      ExponentValue() - |FractionDigits()|
    }

    /** The spelled rational equals the integer `v`. */
    ghost predicate Denotes(v: int)
      requires WellFormed()
    {
      && (negative ==> v <= 0) && (!negative ==> v >= 0)
      && Equals(Significand(), Scale(), Abs(v))
    }
  }

  function ExponentText(e: Option<Exponent>): string {
    match e
    case None => ""
    case Some(x) => [x.mark] + x.sign + x.digits
  }

  /** How many leading characters are digits. */
  function DigitRun(s: string): (n: nat)
    ensures n <= |s| && AllDigits(s[..n]) && (n < |s| ==> !IsDigit(s[n]))
  {
    RunLength(s, IsDigit)
  }

  lemma DigitRunOf(digits: string, rest: string)
    requires AllDigits(digits) && (rest != "" ==> !IsDigit(rest[0]))
    ensures DigitRun(digits + rest) == |digits|
    ensures (digits + rest)[..|digits|] == digits && (digits + rest)[|digits|..] == rest
  {
    RunLengthOf(digits, rest, IsDigit);
  }

  /** The exponent group, anchored at the end of the text. */
  function MatchExponent(s: string): Option<Option<Exponent>> {
    if s == "" then Some(None)
    else if !IsMark(s[0]) then None
    else
      var sign := if |s| > 1 && (s[1] == '+' || s[1] == '-') then [s[1]] else "";
      var digits := s[1 + |sign|..];
      if digits != "" && AllDigits(digits) then Some(Some(Exponent(s[0], sign, digits))) else None
  }

  /** The fraction and exponent groups. */
  function MatchTail(s: string): Option<(Option<string>, Option<Exponent>)> {
    if s != "" && s[0] == '.' then
      var m := DigitRun(s[1..]);
      var e := MatchExponent(s[1..][m..]);
      if e.None? then None else Some((Some(s[1..][..m]), e.value))
    else
      var e := MatchExponent(s);
      if e.None? then None else Some((None, e.value))
  }

  function Match(s: string): Option<Spelling> {
    var negative := s != "" && s[0] == '-';
    var a := if negative then s[1..] else s;
    var n := DigitRun(a);
    var tail := MatchTail(a[n..]);
    if tail.None? then None else Some(Spelling(negative, a[..n], tail.value.0, tail.value.1))
  }

  lemma MatchExponentSound(s: string)
    requires MatchExponent(s).Some?
    ensures ExponentText(MatchExponent(s).value) == s
  {
    if s != "" {
      var x := MatchExponent(s).value.value;
      assert s == [x.mark] + x.sign + x.digits;
    }
  }

  lemma MatchExponentShape(s: string)
    requires MatchExponent(s).Some?
    ensures Spelling(false, "", None, MatchExponent(s).value).WellFormed()
  {
  }

  lemma Dotted(s: string, m: nat)
    requires s != "" && s[0] == '.' && m <= |s| - 1
    ensures s == "." + s[1..][..m] + s[1..][m..]
  {
  }

  lemma MatchTailSound(s: string)
    requires MatchTail(s).Some?
    ensures var t := MatchTail(s).value; var p := Spelling(false, "", t.0, t.1); p.WellFormed() && p.Tail() == s
  {
    if s != "" && s[0] == '.' {
      var m := DigitRun(s[1..]);
      var rest := s[1..][m..];
      MatchExponentSound(rest);
      MatchExponentShape(rest);
      Dotted(s, m);
    } else {
      MatchExponentSound(s);
      MatchExponentShape(s);
      assert "" + s == s;
    }
  }

  lemma SplitAt(s: string, n: nat)
    requires n <= |s|
    ensures s == s[..n] + s[n..]
  {
  }

  /** What a matched spelling says after its sign. */
  lemma MatchSoundUnsigned(a: string, p: Spelling)
    requires MatchTail(a[DigitRun(a)..]) == Some((p.fraction, p.exponent)) && p.integer == a[..DigitRun(a)]
    ensures p.WellFormed() && p.integer + p.Tail() == a
  {
    MatchTailSound(a[DigitRun(a)..]);
    SplitAt(a, DigitRun(a));
  }

  lemma MatchSound(s: string)
    requires Match(s).Some?
    ensures Match(s).value.WellFormed() && Match(s).value.Text() == s
  {
    var negative := s != "" && s[0] == '-';
    if negative {
      MatchSoundUnsigned(s[1..], Match(s).value);
      SplitAt(s, 1);
    } else {
      MatchSoundUnsigned(s, Match(s).value);
      assert "" + s == s;
    }
  }

  lemma MatchExponentComplete(e: Option<Exponent>)
    requires Spelling(false, "", None, e).WellFormed()
    ensures MatchExponent(ExponentText(e)) == Some(e)
    ensures ExponentText(e) != "" ==> IsMark(ExponentText(e)[0])
  {
    if e.Some? {
      var x := e.value;
      var s := ExponentText(e);
      assert s[0] == x.mark;
      assert s[1 + |x.sign|..] == x.digits;
      assert x.sign == "" ==> s[1] == x.digits[0];
    }
  }

  lemma Regrouped(a: string, b: string, c: string)
    ensures (a + b) + c == a + (b + c)
  {
  }

  lemma MatchTailComplete(p: Spelling)
    requires p.WellFormed()
    ensures MatchTail(p.Tail()) == Some((p.fraction, p.exponent))
    ensures p.Tail() != "" ==> !IsDigit(p.Tail()[0]) && p.Tail()[0] != '-'
  {
    MatchExponentComplete(p.exponent);
    var e := ExponentText(p.exponent);
    if p.fraction.Some? {
      var f := p.fraction.value;
      Regrouped(".", f, e);
      DigitRunOf(f, e);
      assert p.Tail() == "." + (f + e);
      assert ("." + (f + e))[1..] == f + e;
    } else {
      assert p.Tail() == e;
    }
  }

  lemma MatchComplete(p: Spelling)
    requires p.WellFormed()
    ensures Match(p.Text()) == Some(p)
  {
    MatchTailComplete(p);
    DigitRunOf(p.integer, p.Tail());
    var s, a := p.Text(), p.integer + p.Tail();
    if p.negative { assert s[1..] == a; } else { assert s == a; }
  }

  /** The pattern accepts exactly the spellings, and recovers their parts. */
  lemma MatchIsInverse(s: string, p: Spelling)
    ensures Match(s) == Some(p) <==> p.WellFormed() && p.Text() == s
  {
    if Match(s) == Some(p) { MatchSound(s); }
    if p.WellFormed() && p.Text() == s { MatchComplete(p); }
  }

  // ---- the integer a decimal denotes ----

  /** Finite magnitudes are below 2^RANGE, with PRECISION significant bits. */
  const RANGE: nat := 1024
  const PRECISION: nat := 53


  function Abs(v: int): nat { if v < 0 then -v else v }

  /** `n * 10^scale == v`, cross-multiplied so that it stays exact. */
  ghost predicate Equals(n: nat, scale: int, v: nat) {
    if scale >= 0 then n * Pow10(scale) == v else n == v * Pow10(-scale)
  }

  /** `n * 10^scale < bound`. */
  ghost predicate Below(n: nat, scale: int, bound: nat) {
    if scale >= 0 then n * Pow10(scale) < bound else n < bound * Pow10(-scale)
  }

  /** The cancel loop: significand, scale and iterations at its exit. */
  function Cancel(n: nat, scale: int): (nat, int, nat)
    requires n > 0
    decreases -scale
  {
    if scale >= 0 || n % 10 != 0 then (n, scale, 0)
    else var (s, e, k) := Cancel(n / 10, scale + 1); (s, e, k + 1)
  }

  /** `decimalWholeValue` on an already concatenated significand. */
  function WholeValue(n: nat, scale: int): Option<nat> {
    if n == 0 then Some(0)
    else var (s, e, _) := Cancel(n, scale); if e < 0 then None else Some(s * Pow10(e))
  }

  lemma TenTimes(v: nat, k: nat)
    requires k > 0
    ensures v * Pow10(k) == 10 * (v * Pow10(k - 1))
  {
    var q := Pow10(k - 1);
    assert v * (10 * q) == 10 * (v * q);
  }

  lemma {:induction false} CancelKeepsValue(n: nat, scale: int, v: nat)
    requires n > 0
    ensures var (s, e, k) := Cancel(n, scale);
            && s > 0 && (Equals(s, e, v) <==> Equals(n, scale, v))
            && (e < 0 ==> s % 10 != 0)
            && (scale >= 0 ==> e == scale && s == n)
    decreases -scale
  {
    if scale < 0 && n % 10 == 0 {
      CancelKeepsValue(n / 10, scale + 1, v);
      TenTimes(v, -scale);
    }
  }

  lemma {:induction false} CancelDivides(n: nat, scale: int)
    requires n > 0
    ensures var (s, e, k) := Cancel(n, scale); s > 0 && e == scale + k && n == s * Pow10(k)
    decreases -scale
  {
    if scale < 0 && n % 10 == 0 {
      CancelDivides(n / 10, scale + 1);
      var (s, e, k) := Cancel(n, scale);
      TenTimes(s, k);
    }
  }

  lemma ZeroEquals(scale: int, v: nat)
    ensures Equals(0, scale, v) <==> v == 0
  {
    if scale < 0 && v > 0 { ProductStrict(0, v, Pow10(-scale)); }
  }

  /** Exact: the answer is `v` just when the spelled rational equals the integer `v`. */
  lemma WholeValueExact(n: nat, scale: int, v: nat)
    ensures WholeValue(n, scale) == Some(v) <==> Equals(n, scale, v)
  {
    if n == 0 {
      ZeroEquals(scale, v);
    } else {
      CancelKeepsValue(n, scale, v);
      var (s, e, _) := Cancel(n, scale);
      if e < 0 { NotWhole(s, e, v); }
    }
  }

  /** A significand not divisible by ten, at a negative scale, is no integer. */
  lemma NotWhole(s: nat, e: int, v: nat)
    requires e < 0 && s % 10 != 0
    ensures !Equals(s, e, v)
  {
    TenTimes(v, -e);
  }

  /** The loop runs fewer times than the significand has digits, whatever the exponent. */
  lemma CancelIsShort(digits: string, scale: int)
    requires AllDigits(digits) && NatOf(digits) > 0
    ensures Cancel(NatOf(digits), scale).2 < |digits|
  {
    CancelDivides(NatOf(digits), scale);
    var (s, _, k) := Cancel(NatOf(digits), scale);
    NatOfBounds(digits);
    ProductStrict(0, s, Pow10(k));
    assert s * Pow10(k) >= 1 * Pow10(k) by { if s > 1 { ProductStrict(1, s, Pow10(k)); } }
    if k >= |digits| { Pow10Monotone(|digits|, k); }
  }

  lemma SquareBound(k: nat, a: nat, i: nat, b: nat, j: nat)
    requires Pow2(k) <= a * Pow10(i) && a * a <= b * Pow10(j)
    ensures Pow2(2 * k) <= b * Pow10(j + 2 * i)
  {
    var p, t, u := Pow2(k), Pow10(i), Pow10(j);
    Pow2Add(k, k);
    Pow10Add(i, i);
    Pow10Add(j, 2 * i);
    Squares(p, a, t, b, u);
  }

  lemma Squares(p: nat, a: nat, t: nat, b: nat, u: nat)
    requires p <= a * t && a * a <= b * u
    ensures p * p <= b * (u * (t * t))
  {
    var at, tt := a * t, t * t;
    ProductMonotone(p, p, at);
    ProductMonotone(at, p, at);
    Commute(p, at);
    Regroup(a, t, at);
    Commute(t, at);
    Regroup(a, t, t);
    Regroup(a, a, tt);
    ProductMonotone(tt, a * a, b * u);
    Commute(tt, a * a);
    Commute(tt, b * u);
    Regroup(b, u, tt);
  }

  lemma BinaryRangeBelowTen309()
    ensures Pow2(RANGE) < Pow10(309)
  {
    Pow2Frontier();
    Pow2Add(53, 11);
    assert Pow10(5) == 100000 && Pow10(4) == 10000;
    Pow10Add(5, 5);
    Pow10Add(10, 5);
    SquareBound(64, 18447, 15, 34030, 4);
    SquareBound(128, 34030, 34, 11581, 5);
    SquareBound(256, 11581, 73, 13412, 4);
    SquareBound(512, 13412, 150, 17989, 4);
    Pow10Add(5, 304);
  }

  /** A nonzero decimal that leaves the loop at scale `e` or more is at least `bound`, if `10^e` is. */
  lemma LargeScale(n: nat, scale: int, bound: nat)
    requires n > 0 && Cancel(n, scale).1 >= 0 && bound < Pow10(Cancel(n, scale).1)
    ensures !Below(n, scale, bound)
  {
    CancelDivides(n, scale);
    var (s, e, k) := Cancel(n, scale);
    if scale >= 0 {
      CancelKeepsValue(n, scale, 0);
      ProductAtLeast(n, Pow10(scale));
    } else {
      ScaledDown(s, e, -scale, n, bound);
    }
  }

  lemma BeyondTen309(e: nat)
    requires e > 308
    ensures Pow2(RANGE) < Pow10(e)
  {
    BinaryRangeBelowTen309();
    Pow10Monotone(309, e);
  }

  /** A nonzero decimal below the binary64 range leaves the loop at scale at most 308. */
  lemma FinalScaleIsBounded(n: nat, scale: int)
    requires n > 0 && Below(n, scale, Pow2(RANGE))
    ensures Cancel(n, scale).1 <= 308
  {
    if Cancel(n, scale).1 > 308 {
      BeyondTen309(Cancel(n, scale).1);
      LargeScale(n, scale, Pow2(RANGE));
    }
  }

  lemma ScaledDown(s: nat, e: nat, d: nat, n: nat, bound: nat)
    requires s > 0 && bound < Pow10(e) && n == s * Pow10(e + d)
    ensures bound * Pow10(d) < n
  {
    Pow10Add(e, d);
    ProductAtLeast(s, Pow10(e + d));
    ProductStrict(bound, Pow10(e), Pow10(d));
  }

  lemma ProductAtLeast(a: nat, b: nat)
    requires a > 0
    ensures a * b >= b
  {
  }

  /** The loop itself, as `decimalWholeValue` runs it. */
  method DecimalWholeValue(integerDigits: string, fractionDigits: string, exponent: int)
      returns (whole: Option<nat>, ghost steps: nat)
    requires AllDigits(integerDigits) && AllDigits(fractionDigits)
    ensures AllDigits(integerDigits + fractionDigits)
    ensures whole == WholeValue(NatOf(integerDigits + fractionDigits), exponent - |fractionDigits|)
    ensures steps <= |integerDigits| + |fractionDigits|
  {
    NatOfConcat(integerDigits, fractionDigits);
    var significand := NatOf(integerDigits + fractionDigits);
    ghost var n := significand;
    steps := 0;
    if significand == 0 { return Some(0), 0; }
    var scale := exponent - |fractionDigits|;
    CancelIsShort(integerDigits + fractionDigits, scale);
    while scale < 0
      invariant significand > 0
      invariant var (s, e, k) := Cancel(significand, scale);
                Cancel(n, exponent - |fractionDigits|) == (s, e, steps + k)
      decreases -scale
    {
      if significand % 10 != 0 { return None, steps; }
      significand := significand / 10;
      scale := scale + 1;
      steps := steps + 1;
    }
    whole := Some(significand * Pow10(scale));
  }

  // ---- exactness of a whole number ----

  function OddPart(n: nat): (o: nat)
    requires n > 0
    ensures o > 0 && o <= n && o % 2 == 1
  {
    if n % 2 == 0 then OddPart(n / 2) else n
  }

  function Twos(n: nat): nat
    requires n > 0
  {
    if n % 2 == 0 then 1 + Twos(n / 2) else 0
  }

  predicate ExactWhole(v: nat) { v == 0 || OddPart(v) < TWO_53 }

  method IsExactBinary64Whole(value: int) returns (exact: bool)
    ensures exact == ExactWhole(Abs(value))
  {
    var odd: nat := if value < 0 then -value else value;
    if odd == 0 { return true; }
    while odd % 2 == 0
      invariant odd > 0 && OddPart(odd) == OddPart(Abs(value))
      decreases odd
    {
      odd := odd / 2;
    }
    exact := odd < TWO_53;
  }

  lemma TwoTimes(m: nat, k: nat)
    requires k > 0
    ensures m * Pow2(k) == 2 * (m * Pow2(k - 1))
  {
    var q := Pow2(k - 1);
    assert m * (2 * q) == 2 * (m * q);
  }

  lemma {:induction false} OddPartTimesTwos(n: nat)
    requires n > 0
    ensures n == OddPart(n) * Pow2(Twos(n))
  {
    if n % 2 == 0 {
      OddPartTimesTwos(n / 2);
      TwoTimes(OddPart(n), Twos(n));
    }
  }

  lemma OddPartDouble(x: nat)
    requires x > 0
    ensures OddPart(2 * x) == OddPart(x)
  {
    assert 2 * x % 2 == 0 && 2 * x / 2 == x;
  }

  lemma {:induction false} OddPartShift(m: nat, k: nat)
    requires m > 0
    ensures m * Pow2(k) > 0 && OddPart(m * Pow2(k)) == OddPart(m)
  {
    if k == 0 {
      assert m * Pow2(k) == m;
    } else {
      OddPartShift(m, k - 1);
      TwoTimes(m, k);
      OddPartDouble(m * Pow2(k - 1));
    }
  }

  /** `v = m * 2^k` with a 53-bit `m`. */
  ghost predicate FitsIn53(v: nat, m: nat, k: nat) { m < TWO_53 && v == m * Pow2(k) }

  lemma ExactWholeIsFiftyThreeBits(v: nat)
    ensures ExactWhole(v) <==> exists m, k :: FitsIn53(v, m, k)
  {
    if v == 0 {
      assert FitsIn53(v, 0, 0);
    } else {
      OddPartTimesTwos(v);
      if ExactWhole(v) { assert FitsIn53(v, OddPart(v), Twos(v)); }
      if exists m, k :: FitsIn53(v, m, k) {
        var m, k :| FitsIn53(v, m, k);
        OddPartOfProduct(v, m, k);
      }
    }
  }

  lemma OddPartOfProduct(v: nat, m: nat, k: nat)
    requires v > 0 && v == m * Pow2(k)
    ensures m > 0 && OddPart(v) == OddPart(m)
  {
    assert m != 0;
    OddPartShift(m, k);
  }

  // ---- the binary64 a whole number is ----

  /** The finite number is the integer `v`. */
  ghost predicate IsWhole(d: Number, v: int) {
    d.Finite? && (d.negative ==> v <= 0) && (!d.negative ==> v >= 0) && d.Magnitude() == Abs(v) * Pow2(ULP_SHIFT)
  }

  ghost predicate Representable(v: int) { exists d: Number :: IsWhole(d, v) }

  lemma RepresentableIsExact(d: Number, v: int)
    requires IsWhole(d, v)
    ensures ExactWhole(Abs(v))
  {
    if v != 0 {
      OddPartShift(Abs(v), ULP_SHIFT);
      if d.exponent > 0 {
        OddPartOfProduct(d.Magnitude(), TWO_52 + d.fraction, d.exponent - 1);
      }
    }
  }

  /** Doublings that bring a positive 53-bit integer to its leading bit. */
  function Headroom(o: nat): (s: nat)
    requires 0 < o < TWO_53
    ensures TWO_52 <= o * Pow2(s) < TWO_53
    decreases TWO_53 - o
  {
    if o >= TWO_52 then assert o * Pow2(0) == o; 0
    else
      var s := Headroom(2 * o);
      TwoTimes(o, s + 1);
      assert 2 * o * Pow2(s) == 2 * (o * Pow2(s));
      s + 1
  }

  lemma HeadroomBound(o: nat)
    requires 0 < o < TWO_53
    ensures Headroom(o) <= 52
  {
    Pow2Frontier();
    var s := Headroom(o);
    ProductAtLeast(o, Pow2(s));
    if s > 52 { Pow2Monotone(53, s); }
  }

  /** Moving doublings between two factors. */
  lemma ShiftedProduct(o: nat, s: nat, j: nat, u: nat)
    requires s <= j + u
    ensures (o * Pow2(s)) * Pow2(j + u - s) == (o * Pow2(j)) * Pow2(u)
  {
    Pow2Add(s, j + u - s);
    Pow2Add(j, u);
    Regroup(o, Pow2(s), Pow2(j + u - s));
    Regroup(o, Pow2(j), Pow2(u));
  }

  lemma LeadingBit(o: nat, s: nat, j: nat)
    requires s <= j && TWO_52 <= o * Pow2(s)
    ensures Pow2(52 + (j - s)) <= o * Pow2(j)
  {
    Pow2Frontier();
    Pow2Add(52, j - s);
    Pow2Add(s, j - s);
    Regroup(o, Pow2(s), Pow2(j - s));
    if TWO_52 < o * Pow2(s) { ProductStrict(TWO_52, o * Pow2(s), Pow2(j - s)); }
  }

  lemma BeyondRange(o: nat, s: nat, j: nat)
    requires s + 972 <= j && TWO_52 <= o * Pow2(s)
    ensures Pow2(RANGE) <= o * Pow2(j)
  {
    var k := 52 + (j - s);
    LeadingBit(o, s, j);
    Pow2Monotone(RANGE, k);
  }

  lemma WholeExponentRange(n: nat)
    requires 0 < n < Pow2(RANGE) && OddPart(n) < TWO_53
    ensures var s := Headroom(OddPart(n)); s <= 52 && 0 < Twos(n) + 1075 - s <= 2046
  {
    var o, j := OddPart(n), Twos(n);
    HeadroomBound(o);
    OddPartTimesTwos(n);
    if Headroom(o) + 972 <= j { BeyondRange(o, Headroom(o), j); }
  }

  lemma Regroup(a: nat, b: nat, c: nat)
    ensures (a * b) * c == a * (b * c)
  {
  }

  /** A significand with its leading bit spelled out. */
  lemma MagnitudeOf(negative: bool, m: nat, e: nat)
    requires TWO_52 <= m < TWO_53 && 0 < e <= 2046
    ensures Finite(negative, e, m - TWO_52).Magnitude() == m * Pow2(e - 1)
  {
  }

  /** The finite number of a positive whole, in units of `2^-u`. */
  function PositiveWhole(n: nat, negative: bool, u: nat): (d: Number)
    requires n > 0 && OddPart(n) < TWO_53
    requires 0 < Twos(n) + u + 1 - Headroom(OddPart(n)) <= 2046
  {
    var o := OddPart(n);
    var s := Headroom(o);
    Finite(negative, Twos(n) + u + 1 - s, o * Pow2(s) - TWO_52)
  }

  /** The finite number equal to an exact whole below 2^1024. */
  function WholeNumber(v: int): (d: Number)
    requires ExactWhole(Abs(v)) && Abs(v) < Pow2(RANGE)
  {
    if v == 0 then PositiveZero()
    else
      WholeExponentRange(Abs(v));
      PositiveWhole(Abs(v), v < 0, ULP_SHIFT)
  }

  lemma NormalizedMagnitude(negative: bool, m: nat, e: nat, whole: nat)
    requires TWO_52 <= m < TWO_53 && 0 < e <= 2046 && m * Pow2(e - 1) == whole
    ensures Finite(negative, e, m - TWO_52).Magnitude() == whole
  {
    MagnitudeOf(negative, m, e);
  }

  lemma ScaledOdd(negative: bool, n: nat, o: nat, j: nat, s: nat, u: nat, m: nat)
    requires n == o * Pow2(j) && m == o * Pow2(s) && TWO_52 <= m < TWO_53 && s <= j + u < 2046 + s
    ensures Finite(negative, j + u + 1 - s, m - TWO_52).Magnitude() == n * Pow2(u)
  {
    ShiftedProduct(o, s, j, u);
    NormalizedMagnitude(negative, m, j + u + 1 - s, n * Pow2(u));
  }

  lemma PositiveWholeIsExact(n: nat, negative: bool, u: nat)
    requires n > 0 && OddPart(n) < TWO_53
    requires 0 < Twos(n) + u + 1 - Headroom(OddPart(n)) <= 2046
    ensures PositiveWhole(n, negative, u).Magnitude() == n * Pow2(u)
  {
    var s := Headroom(OddPart(n));
    OddPartTimesTwos(n);
    ScaledOdd(negative, n, OddPart(n), Twos(n), s, u, OddPart(n) * Pow2(s));
  }

  lemma WholeNumberIsExact(v: int)
    requires ExactWhole(Abs(v)) && Abs(v) < Pow2(RANGE)
    ensures IsWhole(WholeNumber(v), v)
  {
    if v == 0 {
      assert Abs(v) * Pow2(ULP_SHIFT) == 0;
    } else {
      WholeExponentRange(Abs(v));
      PositiveWholeIsExact(Abs(v), v < 0, ULP_SHIFT);
    }
  }

  /** An integer below 2^1024 is a binary64 exactly when the odd-part test accepts it. */
  lemma ExactnessTest(v: int)
    requires Abs(v) < Pow2(RANGE)
    ensures ExactWhole(Abs(v)) <==> Representable(v)
  {
    if ExactWhole(Abs(v)) {
      WholeNumberIsExact(v);
    } else if Representable(v) {
      var d: Number :| IsWhole(d, v);
      RepresentableIsExact(d, v);
    }
  }

  // ---- reading a draft ----

  datatype Reading = Value(value: Number) | Malformed | NotFinite | Inexact

  /** `readNumberDraft`; `convert` is JavaScript's `Number(text)`. */
  function ReadNumberDraft(draft: string, convert: string -> Number): Reading {
    var spelling := Trim(draft);
    var found := Match(spelling);
    if found.None? then Malformed
    else
      MatchSound(spelling);
      var p := found.value;
      if !p.HasDigits() then Malformed
      else
        var value := convert(spelling);
        if !value.Finite? then NotFinite
        else
          var whole := WholeValue(p.Significand(), p.Scale());
          if whole.Some? && !ExactWhole(whole.value) then Inexact
          else Value(value)
  }

  /** 2^1024 - 2^970: the magnitude from which rounding overflows. */
  function OverflowThreshold(): nat { Pow2(RANGE - PRECISION - 1) * (Pow2(PRECISION + 1) - 1) }

  lemma LessByOne(a: nat, b: nat)
    requires b > 0
    ensures a * (b - 1) == a * b - a
  {
  }

  lemma ThresholdBelowRange()
    ensures OverflowThreshold() < Pow2(RANGE)
  {
    var a, b := Pow2(RANGE - PRECISION - 1), Pow2(PRECISION + 1);
    Pow2Add(RANGE - PRECISION - 1, PRECISION + 1);
    LessByOne(a, b);
  }

  ghost predicate InRange(p: Spelling)
    requires p.WellFormed()
  {
    Below(p.Significand(), p.Scale(), OverflowThreshold())
  }

  /** What `Number(text)` is trusted for: its range, and the value of an integer binary64 holds. */
  ghost predicate FaithfulConversion(convert: string -> Number) {
    forall p: Spelling :: p.WellFormed() && p.HasDigits() ==>
      && (convert(p.Text()).Finite? <==> InRange(p))
      && forall v :: p.Denotes(v) && Representable(v) ==> IsWhole(convert(p.Text()), v)
  }

  lemma DenotedIsBelow(n: nat, scale: int, v: nat, bound: nat)
    requires Equals(n, scale, v) && Below(n, scale, bound)
    ensures v < bound
  {
    if scale < 0 && v >= bound {
      if v > bound { ProductStrict(bound, v, Pow10(-scale)); }
    }
  }

  /** A whole draft in range is read as its integer, and the odd-part test decides whether binary64 holds it. */
  lemma WholeReading(p: Spelling, v: int)
    requires p.WellFormed() && p.Denotes(v) && InRange(p)
    ensures WholeValue(p.Significand(), p.Scale()) == Some(Abs(v)) && (ExactWhole(Abs(v)) <==> Representable(v))
  {
    WholeValueExact(p.Significand(), p.Scale(), Abs(v));
    DenotedIsBelow(p.Significand(), p.Scale(), Abs(v), OverflowThreshold());
    ThresholdBelowRange();
    ExactnessTest(v);
  }

  lemma WholeIsDenoted(p: Spelling)
    requires p.WellFormed() && WholeValue(p.Significand(), p.Scale()).Some?
    ensures exists w :: p.Denotes(w)
  {
    var whole := WholeValue(p.Significand(), p.Scale()).value;
    WholeValueExact(p.Significand(), p.Scale(), whole);
    var w: int := whole;
    assert p.Denotes(if p.negative then -w else w);
  }

  /**
   * Classification by the rational number spelled: out of range, a whole
   * number binary64 cannot hold, or a value, exact when the draft is whole.
   */
  lemma DraftClassification(draft: string, convert: string -> Number, p: Spelling, v: int)
    requires FaithfulConversion(convert)
    requires p.WellFormed() && p.HasDigits() && Trim(draft) == p.Text()
    ensures var r := ReadNumberDraft(draft, convert);
            && r != Malformed
            && (r == NotFinite <==> !InRange(p))
            && (p.Denotes(v) && InRange(p) ==> (r == Inexact <==> !Representable(v)))
            && (p.Denotes(v) && r.Value? ==> IsWhole(r.value, v))
            && (r == Inexact ==> exists w :: p.Denotes(w))
  {
    MatchComplete(p);
    if WholeValue(p.Significand(), p.Scale()).Some? { WholeIsDenoted(p); }
    if p.Denotes(v) && InRange(p) { WholeReading(p, v); }
  }

  /** Some spelling with a digit has this text. */
  ghost predicate Spelled(s: string) {
    exists p: Spelling :: p.WellFormed() && p.HasDigits() && p.Text() == s
  }

  lemma MatchDecidesSpelled(s: string)
    ensures Spelled(s) <==> Match(s).Some? && Match(s).value.HasDigits()
  {
    if Match(s).Some? { MatchSound(s); }
    if Spelled(s) {
      var p: Spelling :| p.WellFormed() && p.HasDigits() && p.Text() == s;
      MatchComplete(p);
    }
  }

  /** Malformed exactly when no spelling with a digit has this text. */
  lemma MalformedExactly(draft: string, convert: string -> Number)
    ensures ReadNumberDraft(draft, convert) == Malformed <==> !Spelled(Trim(draft))
  {
    MatchDecidesSpelled(Trim(draft));
  }

  // ---- respelling ----

  /** Both decimals, as multiples of 10^-m, are the same integer. */
  ghost predicate AgreeOver(a: nat, i: int, b: nat, j: int, m: nat) {
    0 <= i + m && 0 <= j + m && a * Pow10(i + m) == b * Pow10(j + m)
  }

  /** The two spellings denote one rational number. */
  ghost predicate SameRational(p: Spelling, q: Spelling)
    requires p.WellFormed() && q.WellFormed()
  {
    && (p.negative == q.negative || p.Significand() == 0)
    && exists m: nat :: AgreeOver(p.Significand(), p.Scale(), q.Significand(), q.Scale(), m)
  }

  lemma EqualsOver(n: nat, scale: int, m: nat, v: nat)
    requires 0 <= scale + m
    ensures Equals(n, scale, v) <==> n * Pow10(scale + m) == v * Pow10(m)
  {
    if scale >= 0 {
      Pow10Add(scale, m);
      Regroup(n, Pow10(scale), Pow10(m));
      SameFactor(n * Pow10(scale), v, Pow10(m));
    } else {
      Pow10Add(-scale, scale + m);
      Regroup(v, Pow10(-scale), Pow10(scale + m));
      SameFactor(n, v * Pow10(-scale), Pow10(scale + m));
    }
  }

  lemma SameFactor(a: nat, b: nat, p: nat)
    requires p > 0
    ensures a == b <==> a * p == b * p
  {
    if a < b { ProductStrict(a, b, p); }
    if b < a { ProductStrict(b, a, p); }
  }

  lemma StrictFactor(a: nat, b: nat, p: nat)
    requires p > 0
    ensures a < b <==> a * p < b * p
  {
    if a < b { ProductStrict(a, b, p); }
    if b < a { ProductStrict(b, a, p); }
  }

  lemma BelowOver(n: nat, scale: int, m: nat, bound: nat)
    requires 0 <= scale + m
    ensures Below(n, scale, bound) <==> n * Pow10(scale + m) < bound * Pow10(m)
  {
    if scale >= 0 {
      Pow10Add(scale, m);
      Regroup(n, Pow10(scale), Pow10(m));
      StrictFactor(n * Pow10(scale), bound, Pow10(m));
    } else {
      Pow10Add(-scale, scale + m);
      Regroup(bound, Pow10(-scale), Pow10(scale + m));
      StrictFactor(n, bound * Pow10(-scale), Pow10(scale + m));
    }
  }

  lemma AgreeEquals(a: nat, i: int, b: nat, j: int, m: nat, v: nat)
    requires AgreeOver(a, i, b, j, m)
    ensures Equals(a, i, v) <==> Equals(b, j, v)
  {
    EqualsOver(a, i, m, v);
    EqualsOver(b, j, m, v);
  }

  lemma AgreeBelow(a: nat, i: int, b: nat, j: int, m: nat, bound: nat)
    requires AgreeOver(a, i, b, j, m)
    ensures Below(a, i, bound) <==> Below(b, j, bound)
  {
    BelowOver(a, i, m, bound);
    BelowOver(b, j, m, bound);
  }

  lemma AgreeWhole(a: nat, i: int, b: nat, j: int, m: nat)
    requires AgreeOver(a, i, b, j, m)
    ensures WholeValue(a, i) == WholeValue(b, j)
  {
    var x, y := WholeValue(a, i), WholeValue(b, j);
    if x.Some? {
      WholeValueExact(a, i, x.value);
      AgreeEquals(a, i, b, j, m, x.value);
      WholeValueExact(b, j, x.value);
    } else if y.Some? {
      WholeValueExact(b, j, y.value);
      AgreeEquals(a, i, b, j, m, y.value);
      WholeValueExact(a, i, y.value);
    }
  }

  /** Every respelling of one rational denotes the same integer, if any, and is in range alike. */
  lemma RespellingIsIrrelevant(p: Spelling, q: Spelling, v: int)
    requires p.WellFormed() && q.WellFormed() && SameRational(p, q)
    ensures p.Denotes(v) <==> q.Denotes(v)
    ensures WholeValue(p.Significand(), p.Scale()) == WholeValue(q.Significand(), q.Scale())
    ensures InRange(p) <==> InRange(q)
  {
    var a, i, b, j := p.Significand(), p.Scale(), q.Significand(), q.Scale();
    var m: nat :| AgreeOver(a, i, b, j, m);
    AgreeEquals(a, i, b, j, m, Abs(v));
    if a == 0 { ZeroEquals(i, Abs(v)); }
    AgreeWhole(a, i, b, j, m);
    AgreeBelow(a, i, b, j, m, OverflowThreshold());
  }

  /** The kind of reading depends on the range and the whole value alone. */
  lemma KindOfDraft(draft: string, convert: string -> Number, p: Spelling)
    requires FaithfulConversion(convert) && p.WellFormed() && p.HasDigits() && Trim(draft) == p.Text()
    ensures var r, whole := ReadNumberDraft(draft, convert), WholeValue(p.Significand(), p.Scale());
            && (r == NotFinite <==> !InRange(p))
            && (r == Inexact <==> InRange(p) && whole.Some? && !ExactWhole(whole.value))
            && (r.Value? <==> InRange(p) && !(whole.Some? && !ExactWhole(whole.value)))
  {
    MatchComplete(p);
  }

  /** So two drafts that spell one rational are refused alike: neither verdict can be evaded by respelling. */
  lemma RespelledDraftsReadAlike(draft: string, other: string, convert: string -> Number, p: Spelling, q: Spelling)
    requires FaithfulConversion(convert) && p.WellFormed() && q.WellFormed() && p.HasDigits() && q.HasDigits()
    requires Trim(draft) == p.Text() && Trim(other) == q.Text() && SameRational(p, q)
    ensures var r, s := ReadNumberDraft(draft, convert), ReadNumberDraft(other, convert);
            (r == NotFinite <==> s == NotFinite) && (r == Inexact <==> s == Inexact) && (r.Value? <==> s.Value?)
  {
    KindOfDraft(draft, convert, p);
    KindOfDraft(other, convert, q);
    RespellingIsIrrelevant(p, q, 0);
  }

  // ---- display ----

  /** `Number.isInteger`. */
  predicate IsInteger(d: Number) { d.Finite? && d.Magnitude() % Pow2(ULP_SHIFT) == 0 }

  function IntegerOf(d: Number): int
    requires IsInteger(d)
  {
    var m: int := d.Magnitude() / Pow2(ULP_SHIFT);
    if d.negative then -m else m
  }

  /** `finiteNumberDecimal` of a whole number: `BigInt(value).toString()`. */
  function WholeDecimal(d: Number): string
    requires IsInteger(d)
  {
    IntText(IntegerOf(d))
  }

  lemma IntegerOfIsWhole(d: Number)
    requires IsInteger(d)
    ensures IsWhole(d, IntegerOf(d))
  {
    var m, u := d.Magnitude(), Pow2(ULP_SHIFT);
    assert m == (m / u) * u + m % u;
  }

  lemma IntTextSpelling(v: int)
    ensures var p := Spelling(v < 0, NatText(Abs(v)), None, None);
            p.WellFormed() && p.HasDigits() && p.Text() == IntText(v) && p.Denotes(v)
    ensures Trim(IntText(v)) == IntText(v)
  {
    var digits := NatText(Abs(v));
    var p := Spelling(v < 0, digits, None, None);
    assert digits + "" == digits;
    assert p.Significand() == Abs(v) && p.Scale() == 0;
    var text := IntText(v);
    assert text[|text| - 1] == digits[|digits| - 1];
    assert text[0] == '-' || text[0] == digits[0];
    assert IsDigit(digits[0]) && IsDigit(digits[|digits| - 1]);
    assert Trimmed(text);
  }

  lemma SameWhole(a: Number, b: Number, v: int)
    requires IsWhole(a, v) && IsWhole(b, v)
    ensures SameValue(a, b)
  {
    if v == 0 { assert Abs(v) * Pow2(ULP_SHIFT) == 0; }
  }

  lemma ProductMonotone(m: nat, x: nat, y: nat)
    requires x <= y
    ensures m * x <= m * y
  {
  }

  lemma DoubledFactor(m: nat, k: nat)
    ensures m * Pow2(k + 1) == (2 * m) * Pow2(k)
  {
    TwoTimes(m, k + 1);
    Regroup(2, m, Pow2(k));
  }

  lemma SplitPower(t: nat, a: nat, u: nat)
    ensures t * Pow2(a + u) == (Pow2(a) * t) * Pow2(u)
  {
    Pow2Add(a, u);
    Regroup(t, Pow2(a), Pow2(u));
    Commute(t, Pow2(a));
  }

  lemma Commute(a: nat, b: nat)
    ensures a * b == b * a
  {
  }

  /** The largest finite magnitude lies below the overflow threshold. */
  lemma LargestIsBelow(m: nat, k: nat, a: nat, u: nat, t: nat)
    requires 2 * m < t && k <= a + u + 1
    ensures m * Pow2(k) < (Pow2(a) * t) * Pow2(u)
  {
    Pow2Monotone(k, a + u + 1);
    ProductMonotone(m, Pow2(k), Pow2(a + u + 1));
    DoubledFactor(m, a + u);
    ProductStrict(2 * m, t, Pow2(a + u));
    SplitPower(t, a, u);
  }

  /** An integer binary64 holds is in range. */
  lemma RepresentableIsBelow(v: int)
    requires Representable(v)
    ensures Abs(v) < OverflowThreshold()
  {
    var d: Number :| IsWhole(d, v);
    FiniteIsBelow(d, RANGE - PRECISION - 1, ULP_SHIFT);
    ThresholdIs();
    StrictFactor(Abs(v), OverflowThreshold(), Pow2(ULP_SHIFT));
  }

  lemma FiniteIsBelow(d: Number, a: nat, u: nat)
    requires d.Finite? && a + u + 2 == 2046
    ensures d.Magnitude() < (Pow2(a) * (2 * TWO_53 - 1)) * Pow2(u)
  {
    if d.exponent == 0 {
      LargestIsBelow(d.fraction, 0, a, u, 2 * TWO_53 - 1);
      assert d.fraction * Pow2(0) == d.fraction;
    } else {
      LargestIsBelow(TWO_52 + d.fraction, d.exponent - 1, a, u, 2 * TWO_53 - 1);
    }
  }

  lemma ThresholdIs()
    ensures OverflowThreshold() == Pow2(RANGE - PRECISION - 1) * (2 * TWO_53 - 1)
  {
    Pow2Frontier();
    assert Pow2(PRECISION + 1) == 2 * Pow2(PRECISION);
  }

  lemma RepresentableIsRead(p: Spelling, v: int)
    requires p.WellFormed() && p.Denotes(v) && Representable(v)
    ensures InRange(p)
  {
    RepresentableIsBelow(v);
    EqualIsBelow(p.Significand(), p.Scale(), Abs(v), OverflowThreshold());
  }

  lemma EqualIsBelow(n: nat, scale: int, v: nat, bound: nat)
    requires Equals(n, scale, v) && v < bound
    ensures Below(n, scale, bound)
  {
    if scale < 0 { ProductStrict(v, bound, Pow10(-scale)); }
  }

  // ---- the conversion contract can be met ----

  /** Exact on integers binary64 holds, and in range exactly when it must be. */
  ghost function ReferenceNumber(p: Spelling): Number
    requires p.WellFormed()
  {
    if !InRange(p) then NotANumber
    else
      var whole := WholeValue(p.Significand(), p.Scale());
      if whole.Some? && ExactWhole(whole.value) && whole.value < Pow2(RANGE)
      then WholeNumber(Signed(p.negative, whole.value)) else PositiveZero()
  }

  ghost function ReferenceConversion(text: string): Number {
    var found := Match(text);
    if found.None? then NotANumber
    else
      MatchSound(text);
      ReferenceNumber(found.value)
  }

  function Signed(negative: bool, n: nat): int { var m: int := n; if negative then -m else m }

  lemma ReferenceIsExact(p: Spelling, v: int)
    requires p.WellFormed() && p.HasDigits() && p.Denotes(v) && Representable(v)
    ensures IsWhole(ReferenceConversion(p.Text()), v)
  {
    MatchComplete(p);
    RepresentableIsRead(p, v);
    RepresentableIsBelow(v);
    ThresholdBelowRange();
    WholeReading(p, v);
    assert v == Signed(p.negative, Abs(v));
    WholeNumberIsExact(v);
  }

  /** Some conversion meets the contract, so nothing above is vacuous. */
  lemma ConversionContractIsMet()
    ensures exists convert: string -> Number :: FaithfulConversion(convert)
  {
    var convert: string -> Number := text => ReferenceConversion(text);
    forall p: Spelling | p.WellFormed() && p.HasDigits() ensures convert(p.Text()).Finite? <==> InRange(p) {
      MatchComplete(p);
    }
    forall p: Spelling, v: int | p.WellFormed() && p.HasDigits() && p.Denotes(v) && Representable(v)
      ensures IsWhole(convert(p.Text()), v)
    {
      ReferenceIsExact(p, v);
    }
    assert FaithfulConversion(convert);
  }

  /** A displayed whole number can be typed back and is the same value. */
  lemma DisplayReadsBack(d: Number, convert: string -> Number)
    requires IsInteger(d) && FaithfulConversion(convert)
    ensures var r := ReadNumberDraft(WholeDecimal(d), convert);
            r.Value? && r.value.Finite? && SameValue(r.value, d)
  {
    var v := IntegerOf(d);
    var p := Spelling(v < 0, NatText(Abs(v)), None, None);
    IntTextSpelling(v);
    IntegerOfIsWhole(d);
    RepresentableIsRead(p, v);
    DraftClassification(WholeDecimal(d), convert, p, v);
    SameWhole(ReadNumberDraft(WholeDecimal(d), convert).value, d, v);
  }

  // ---- integers ----

  datatype IntegerReading = Integer(value: int, wire: string) | IntegerMalformed | OutOfRange

  predicate InInt64(v: int) { -0x8000_0000_0000_0000 <= v < 0x8000_0000_0000_0000 }

  /** `^(?:0|-?[1-9][0-9]*)$`. */
  predicate CanonicalInteger(s: string) {
    s == "0" || (
      var digits := if s != "" && s[0] == '-' then s[1..] else s;
      digits != "" && AllDigits(digits) && digits[0] != '0')
  }

  /** `BigInt(s)` of canonical integer text. */
  function IntegerValue(s: string): int
    requires CanonicalInteger(s)
  {
    if s[0] == '-' then var m: int := NatOf(s[1..]); -m else NatOf(s)
  }

  function ReadIntegerDraft(draft: string): IntegerReading {
    var s := Trim(draft);
    if !CanonicalInteger(s) then IntegerMalformed
    else if InInt64(IntegerValue(s)) then Integer(IntegerValue(s), s)
    else OutOfRange
  }

  /** Digits without a leading zero are the text of a positive number. */
  lemma LeadingDigit(digits: string)
    requires digits != "" && AllDigits(digits) && digits[0] != '0'
    ensures NatOf(digits) > 0 && digits == NatText(NatOf(digits))
  {
    CanonicalIsNatText(digits);
    NatOfBounds(digits);
  }

  lemma NegatedText(digits: string, m: int)
    requires m > 0 && digits == NatText(m)
    ensures "-" + digits == IntText(-m)
  {
  }

  lemma CanonicalIsIntText(s: string)
    requires CanonicalInteger(s)
    ensures s == IntText(IntegerValue(s))
  {
    if s == "0" {
      CanonicalIsNatText(s);
    } else if s[0] == '-' {
      LeadingDigit(s[1..]);
      NegatedText(s[1..], NatOf(s[1..]));
      assert s == "-" + s[1..];
    } else {
      LeadingDigit(s);
    }
  }

  lemma IntTextIsCanonical(v: int)
    ensures CanonicalInteger(IntText(v)) && IntegerValue(IntText(v)) == v
  {
    var s, digits := IntText(v), NatText(Abs(v));
    if v < 0 { assert s[1..] == digits && digits != "0"; } else { assert s == digits; }
  }

  lemma CanonicalIntegerText(s: string, v: int)
    ensures CanonicalInteger(s) && IntegerValue(s) == v <==> s == IntText(v)
  {
    if CanonicalInteger(s) { CanonicalIsIntText(s); }
    IntTextIsCanonical(v);
  }

  /** An accepted draft submits exactly the canonical text of its value, and every i64 has one. */
  lemma IntegerDraftExact(draft: string, v: int, wire: string)
    ensures ReadIntegerDraft(draft) == Integer(v, wire) <==> InInt64(v) && Trim(draft) == wire == IntText(v)
  {
    CanonicalIntegerText(Trim(draft), v);
  }
}
