/** What number a draft spells, read off its digits and signs alone, and the respellings of one refused integer. */
module DraftMeaning {
  import opened Common
  import opened Decimal
  import opened Binary64
  import opened NumberDraft
  import Text

  function FractionOf(p: Spelling): string { match p.fraction case Some(f) => f case None => "" }

  /** How far the point and a negative exponent divide, and how far any other exponent multiplies. */
  function Divides(p: Spelling): nat
    requires p.WellFormed()
  {
    |FractionOf(p)| + (if p.exponent.Some? && p.exponent.value.sign == "-" then NatOf(p.exponent.value.digits) else 0)
  }

  function Multiplies(p: Spelling): nat
    requires p.WellFormed()
  {
    if p.exponent.Some? && p.exponent.value.sign != "-" then NatOf(p.exponent.value.digits) else 0
  }

  /** The spelled magnitude is the whole number `v`, cross-multiplied so that it is exact. */
  ghost predicate SpellsWhole(p: Spelling, v: nat)
    requires p.WellFormed()
  {
    NatOfConcat(p.integer, FractionOf(p));
    NatOf(p.integer + FractionOf(p)) * Pow10(Multiplies(p)) == v * Pow10(Divides(p))
  }

  /** The spelled magnitude is less than the whole number `v`. */
  ghost predicate SpellsLess(p: Spelling, v: nat)
    requires p.WellFormed()
  {
    NatOfConcat(p.integer, FractionOf(p));
    NatOf(p.integer + FractionOf(p)) * Pow10(Multiplies(p)) < v * Pow10(Divides(p))
  }

  lemma ScaleIs(p: Spelling)
    requires p.WellFormed()
    ensures p.Scale() == Multiplies(p) - Divides(p)
  {
  }

  /** A spelling denotes an integer exactly when its digits, point and exponent say so and the sign agrees. */
  lemma DenotesByDigits(p: Spelling, v: int)
    requires p.WellFormed()
    ensures p.Denotes(v) <==> (v == 0 || p.negative == (v < 0)) && SpellsWhole(p, Abs(v))
  {
    ScaleIs(p);
    EqualsOver(p.Significand(), p.Scale(), Divides(p), Abs(v));
  }

  /** And it is in range exactly when what they say is below the overflow threshold. */
  lemma InRangeByDigits(p: Spelling)
    requires p.WellFormed()
    ensures InRange(p) <==> SpellsLess(p, OverflowThreshold())
  {
    ScaleIs(p);
    BelowOver(p.Significand(), p.Scale(), Divides(p), OverflowThreshold());
  }

  /** The whole number the digits spell, with the draft's sign, is one no binary64 equals. */
  ghost predicate SpellsInexact(p: Spelling, v: nat)
    requires p.WellFormed()
  {
    SpellsWhole(p, v) && !Representable(Signed(p.negative, v))
  }

  lemma InexactIsSpelled(draft: string, convert: string -> Number, p: Spelling)
    requires FaithfulConversion(convert) && p.WellFormed() && p.HasDigits() && Trim(draft) == p.Text()
    requires ReadNumberDraft(draft, convert) == Inexact
    ensures exists v: nat :: SpellsInexact(p, v)
  {
    DraftClassification(draft, convert, p, 0);
    var w :| p.Denotes(w);
    DraftClassification(draft, convert, p, w);
    DenotesByDigits(p, w);
    assert w == Signed(p.negative, Abs(w));
    assert SpellsInexact(p, Abs(w));
  }

  lemma SpelledIsDenoted(p: Spelling, v: nat)
    requires p.WellFormed() && SpellsWhole(p, v)
    ensures p.Denotes(Signed(p.negative, v))
  {
    DenotesByDigits(p, Signed(p.negative, v));
  }

  lemma SpelledIsInexact(draft: string, convert: string -> Number, p: Spelling, v: nat)
    requires FaithfulConversion(convert) && p.WellFormed() && p.HasDigits() && Trim(draft) == p.Text()
    requires InRange(p) && SpellsInexact(p, v)
    ensures ReadNumberDraft(draft, convert) == Inexact
  {
    SpelledIsDenoted(p, v);
    DraftClassification(draft, convert, p, Signed(p.negative, v));
  }

  /** The draft is refused as inexact exactly when its digits spell such a number in range. */
  lemma InexactByDigits(draft: string, convert: string -> Number, p: Spelling)
    requires FaithfulConversion(convert) && p.WellFormed() && p.HasDigits() && Trim(draft) == p.Text()
    ensures ReadNumberDraft(draft, convert) == Inexact <==>
            SpellsLess(p, OverflowThreshold()) && exists v: nat :: SpellsInexact(p, v)
  {
    InRangeByDigits(p);
    DraftClassification(draft, convert, p, 0);
    if ReadNumberDraft(draft, convert) == Inexact { InexactIsSpelled(draft, convert, p); }
    if InRange(p) && exists v: nat :: SpellsInexact(p, v) {
      var v: nat :| SpellsInexact(p, v);
      SpelledIsInexact(draft, convert, p, v);
    }
  }

  /** A draft without a digit, however it is signed or scaled, is malformed. */
  lemma NoDigitsIsMalformed(draft: string, convert: string -> Number, p: Spelling)
    requires p.WellFormed() && p.integer == "" && FractionOf(p) == "" && Trim(draft) == p.Text()
    ensures ReadNumberDraft(draft, convert) == Malformed
  {
    MatchComplete(p);
  }

  /** What `trim` removes is Unicode white space, except that it keeps U+0085 and also removes U+FEFF. */
  lemma SpaceIsWhiteSpace(c: char)
    ensures IsSpace(c) <==> (Text.IsWhiteSpace(c) && c != '\U{85}') || c == '\U{feff}'
  {
  }

  // ---- one refused integer, spelled five ways ----

  const REFUSED: nat := 9007199254740993

  lemma OneMoreDigit(s: string, c: char)
    requires AllDigits(s) && IsDigit(c)
    ensures AllDigits(s + [c]) && NatOf(s + [c]) == NatOf(s) * 10 + DigitValue(c)
  {
    assert (s + [c])[..|s|] == s;
  }

  lemma FourDigits(a: char, b: char, c: char, d: char)
    requires IsDigit(a) && IsDigit(b) && IsDigit(c) && IsDigit(d)
    ensures AllDigits([a, b, c, d])
    ensures NatOf([a, b, c, d]) ==
            ((DigitValue(a) * 10 + DigitValue(b)) * 10 + DigitValue(c)) * 10 + DigitValue(d)
  {
    OneMoreDigit("", a);
    OneMoreDigit([a], b);
    OneMoreDigit([a, b], c);
    OneMoreDigit([a, b, c], d);
    assert "" + [a] == [a] && [a] + [b] == [a, b] && [a, b] + [c] == [a, b, c] && [a, b, c] + [d] == [a, b, c, d];
  }

  lemma RefusedDigits()
    ensures AllDigits("9007199254740993") && NatOf("9007199254740993") == REFUSED
  {
    FourDigits('9', '0', '0', '7');
    FourDigits('1', '9', '9', '2');
    FourDigits('5', '4', '7', '4');
    FourDigits('0', '9', '9', '3');
    assert Pow10(4) == 10000;
    NatOfConcat("9007", "1992");
    NatOfConcat("90071992", "5474");
    NatOfConcat("900719925474", "0993");
    assert "9007" + "1992" == "90071992" && "90071992" + "5474" == "900719925474";
    assert "900719925474" + "0993" == "9007199254740993";
  }

  lemma RefusedTimesTen()
    ensures AllDigits("90071992547409930") && NatOf("90071992547409930") == 10 * REFUSED
  {
    RefusedDigits();
    assert "90071992547409930"[..16] == "9007199254740993";
  }

  lemma SmallNumbers()
    ensures NatOf("15") == 15 && NatOf("1") == 1 && AllDigits("15") && AllDigits("1")
  {
    assert "15"[..1] == "1" && "1"[..0] == "";
  }

  /** Odd and just above 2^53. */
  lemma RefusedIsNotBinary64()
    ensures !Representable(REFUSED) && REFUSED < OverflowThreshold()
  {
    assert OddPart(REFUSED) == REFUSED && !ExactWhole(REFUSED);
    Pow2Frontier();
    Pow2Monotone(54, RANGE - PRECISION - 1);
    var a, b := Pow2(RANGE - PRECISION - 1), Pow2(PRECISION + 1);
    LessByOne(a, b);
    ProductMonotone(a, 2, b);
    Pow2Monotone(54, RANGE);
    ExactnessTest(REFUSED);
  }

  /** Every spelling of it is refused. */
  lemma RefusedReading(convert: string -> Number, p: Spelling)
    requires FaithfulConversion(convert) && p.WellFormed() && p.HasDigits() && !p.negative && SpellsWhole(p, REFUSED)
    requires Trimmed(p.Text())
    ensures ReadNumberDraft(p.Text(), convert) == Inexact
  {
    RefusedIsNotBinary64();
    StrictFactor(REFUSED, OverflowThreshold(), Pow10(Divides(p)));
    InRangeByDigits(p);
    assert SpellsInexact(p, REFUSED);
    SpelledIsInexact(p.Text(), convert, p, REFUSED);
  }

  /** Plain, and with a fraction of zero. */
  lemma RefusedPlain(convert: string -> Number)
    requires FaithfulConversion(convert)
    ensures ReadNumberDraft("9007199254740993", convert) == Inexact
  {
    RefusedDigits();
    var p := Spelling(false, "9007199254740993", None, None);
    assert p.integer + FractionOf(p) == p.integer && p.integer + p.Tail() == p.integer && p.Text() == p.integer;
    RefusedReading(convert, p);
  }

  lemma RefusedWithFraction(convert: string -> Number)
    requires FaithfulConversion(convert)
    ensures ReadNumberDraft("9007199254740993" + ".0", convert) == Inexact
  {
    RefusedDigits();
    RefusedTimesTen();
    var p := Spelling(false, "9007199254740993", Some("0"), None);
    assert p.integer + FractionOf(p) == "90071992547409930" && Pow10(1) == 10;
    assert p.Tail() == ".0" && p.Text() == p.integer + ".0";
    RefusedReading(convert, p);
  }

  function ScaledUp(sign: string): Spelling {
    Spelling(false, "9", Some("007199254740993"), Some(Exponent('e', sign, "15")))
  }

  lemma ScaledUpText(sign: string)
    ensures var p := ScaledUp(sign);
            && p.integer + FractionOf(p) == "9007199254740993"
            && p.Text() == "9" + (".007199254740993" + ("e" + sign + "15"))
  {
    assert "." + FractionOf(ScaledUp(sign)) == ".007199254740993";
  }

  /** As many places up as the fraction is long. */
  lemma ScaledUpSpells(sign: string)
    requires sign == "" || sign == "+"
    ensures var p := ScaledUp(sign); p.WellFormed() && p.HasDigits() && SpellsWhole(p, REFUSED)
  {
    RefusedDigits();
    SmallNumbers();
    ScaledUpText(sign);
    var p := ScaledUp(sign);
    assert AllDigits(p.integer) && AllDigits(FractionOf(p));
    assert Multiplies(p) == Divides(p);
  }

  lemma RefusedScaledUp(convert: string -> Number, sign: string)
    requires FaithfulConversion(convert) && (sign == "" || sign == "+")
    ensures ReadNumberDraft("9" + (".007199254740993" + ("e" + sign + "15")), convert) == Inexact
  {
    ScaledUpText(sign);
    ScaledUpSpells(sign);
    RefusedReading(convert, ScaledUp(sign));
  }

  lemma RefusedScaledDown(convert: string -> Number)
    requires FaithfulConversion(convert)
    ensures ReadNumberDraft("90071992547409930" + "e-1", convert) == Inexact
  {
    RefusedTimesTen();
    SmallNumbers();
    var p := Spelling(false, "90071992547409930", None, Some(Exponent('e', "-", "1")));
    assert p.integer + FractionOf(p) == p.integer && Pow10(1) == 10;
    assert p.Tail() == "e-1" && p.Text() == p.integer + "e-1";
    RefusedReading(convert, p);
  }
}
