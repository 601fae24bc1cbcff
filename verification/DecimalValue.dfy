/** The normal form that decides whether two decimal literals are one rational number. */
module DecimalValue {
  import opened Common
  import opened Decimal
  import opened NumberDraft

  const I64_MIN: int := -0x8000_0000_0000_0000
  const I64_MAX: int := 0x7fff_ffff_ffff_ffff

  predicate InI64(v: int) { I64_MIN <= v <= I64_MAX }

  /** Sign, significant digits and exponent; zero has one value. */
  datatype Normal = Normal(negative: bool, digits: string, exponent: int)

  function TrimStart(s: string): string { if s != "" && s[0] == '0' then TrimStart(s[1..]) else s }

  function TrimEnd(s: string): string { if s != "" && s[|s| - 1] == '0' then TrimEnd(s[..|s| - 1]) else s }

  /** `decimal_value`, with its checked 64-bit exponent. */
  function ValueOf(p: Spelling): Option<Normal>
    requires p.WellFormed()
  {
    if !InI64(p.ExponentValue()) then None
    else
      var leading := TrimStart(p.integer + p.FractionDigits());
      var significant := TrimEnd(leading);
      if significant == "" then Some(Normal(false, "", 0))
      else
        var shifted := p.ExponentValue() - |p.FractionDigits()|;
        var exponent := shifted + (|leading| - |significant|);
        if !InI64(|p.FractionDigits()|) || !InI64(shifted) || !InI64(|leading| - |significant|) || !InI64(exponent)
        then None
        else Some(Normal(p.negative, significant, exponent))
  }

  // ---- trimming keeps the value ----

  lemma {:induction false} TrimStartKeeps(s: string)
    requires AllDigits(s)
    ensures var t := TrimStart(s); AllDigits(t) && NatOf(t) == NatOf(s) && (t != "" ==> t[0] != '0')
  {
    if s != "" && s[0] == '0' {
      TrimStartKeeps(s[1..]);
      assert s == "0" + s[1..];
      NatOfConcat("0", s[1..]);
      assert NatOf("0") == 0 by { assert "0"[..0] == ""; }
    }
  }

  lemma {:induction false} TrimEndKeeps(s: string)
    requires AllDigits(s)
    ensures var t := TrimEnd(s);
            && t <= s && AllDigits(t) && (t != "" ==> t[|t| - 1] != '0')
            && NatOf(s) == NatOf(t) * Pow10(|s| - |t|)
  {
    if s != "" && s[|s| - 1] == '0' {
      var init := s[..|s| - 1];
      TrimEndKeeps(init);
      var t := TrimEnd(init);
      TenTimes(NatOf(t), |s| - |t|);
    } else {
      assert NatOf(s) * Pow10(0) == NatOf(s);
    }
  }

  /** No leading zero and no trailing zero: the text of its number, which ten does not divide. */
  lemma SignificantDigits(s: string)
    requires AllDigits(s)
    ensures var t := TrimEnd(TrimStart(s));
            && (t == "" <==> NatOf(s) == 0)
            && (t != "" ==> AllDigits(t) && NatOf(t) % 10 != 0 && t == NatText(NatOf(t)))
  {
    var leading := TrimStart(s);
    TrimStartKeeps(s);
    TrimEndKeeps(leading);
    var t := TrimEnd(leading);
    if t != "" {
      assert t[0] == leading[0];
      CanonicalIsNatText(t);
      LastDigit(t);
    }
  }

  lemma Remainder(x: nat, d: nat)
    requires 0 < d < 10
    ensures (10 * x + d) % 10 == d
  {
  }

  lemma LastDigit(t: string)
    requires AllDigits(t) && t != "" && t[|t| - 1] != '0'
    ensures NatOf(t) % 10 != 0 && NatOf(t) > 0
  {
    var x, d := NatOf(t[..|t| - 1]), DigitValue(t[|t| - 1]);
    assert 0 < d < 10 && NatOf(t) == 10 * x + d;
    Remainder(x, d);
  }

  // ---- equal normal forms, equal rationals ----

  /** A significand ten does not divide fixes both itself and its exponent. */
  lemma OneScale(s: nat, e: nat, t: nat, f: nat)
    requires s % 10 != 0 && t % 10 != 0 && s * Pow10(e) == t * Pow10(f)
    ensures s == t && e == f
  {
    if e > f { NotMultiple(s, e - f, t, f); }
    if f > e { NotMultiple(t, f - e, s, e); }
    SameFactor(s, t, Pow10(e));
  }

  lemma NotMultiple(s: nat, d: nat, t: nat, f: nat)
    requires d > 0 && t % 10 != 0
    ensures s * Pow10(d + f) != t * Pow10(f)
  {
    Pow10Add(d, f);
    Regroup(s, Pow10(d), Pow10(f));
    SameFactor(s * Pow10(d), t, Pow10(f));
    TenTimes(s, d);
  }

  function Significant(p: Spelling): string { TrimEnd(TrimStart(p.integer + p.FractionDigits())) }

  function Dropped(p: Spelling): int {
    |TrimStart(p.integer + p.FractionDigits())| - |Significant(p)|
  }

  lemma SignificantIs(p: Spelling)
    requires p.WellFormed()
    ensures (Significant(p) == "" <==> p.Significand() == 0)
    ensures AllDigits(Significant(p)) && Dropped(p) >= 0
    ensures Significant(p) != "" ==> NatOf(Significant(p)) % 10 != 0 && Significant(p) == NatText(NatOf(Significant(p)))
  {
    var digits := p.integer + p.FractionDigits();
    NatOfConcat(p.integer, p.FractionDigits());
    SignificantDigits(digits);
    TrimStartKeeps(digits);
    TrimEndKeeps(TrimStart(digits));
  }

  /** A spelling over a common denominator, in terms of its significant digits. */
  lemma Normalized(p: Spelling, m: nat)
    requires p.WellFormed() && 0 <= p.Scale() + m
    ensures AllDigits(Significant(p)) && Dropped(p) >= 0
    ensures p.Significand() * Pow10(p.Scale() + m) == NatOf(Significant(p)) * Pow10(Dropped(p) + (p.Scale() + m))
  {
    var digits := p.integer + p.FractionDigits();
    NatOfConcat(p.integer, p.FractionDigits());
    TrimStartKeeps(digits);
    TrimEndKeeps(TrimStart(digits));
    Pow10Add(Dropped(p), p.Scale() + m);
    Regroup(NatOf(Significant(p)), Pow10(Dropped(p)), Pow10(p.Scale() + m));
  }

  /** Agreement of two nonzero spellings is agreement of digits and exponent. */
  /** Two decimals are one number exactly when, with no zero at the end, they are the same digits and scale. */
  lemma AgreeOverExactly(a: nat, i: nat, b: nat, j: nat, s: nat, e: nat, t: nat, f: nat)
    requires s % 10 != 0 && t % 10 != 0
    requires a * Pow10(i) == s * Pow10(e) && b * Pow10(j) == t * Pow10(f)
    ensures a * Pow10(i) == b * Pow10(j) <==> s == t && e == f
  {
    if s * Pow10(e) == t * Pow10(f) { OneScale(s, e, t, f); }
  }

  lemma SameSignificant(p: Spelling, q: Spelling)
    requires p.WellFormed() && q.WellFormed() && Significant(p) != "" && Significant(q) != ""
    ensures AllDigits(Significant(p)) && AllDigits(Significant(q)) && Dropped(p) >= 0 && Dropped(q) >= 0
    ensures NatOf(Significant(p)) % 10 != 0 && NatOf(Significant(q)) % 10 != 0
    ensures Significant(p) == Significant(q) <==> NatOf(Significant(p)) == NatOf(Significant(q))
  {
    SignificantIs(p);
    SignificantIs(q);
  }

  lemma AgreeExactly(p: Spelling, q: Spelling, m: nat)
    requires p.WellFormed() && q.WellFormed() && Significant(p) != "" && Significant(q) != ""
    requires 0 <= p.Scale() + m && 0 <= q.Scale() + m
    ensures AgreeOver(p.Significand(), p.Scale(), q.Significand(), q.Scale(), m) <==>
            Significant(p) == Significant(q) && p.Scale() + Dropped(p) == q.Scale() + Dropped(q)
  {
    SameSignificant(p, q);
    Normalized(p, m);
    Normalized(q, m);
    AgreeOverExactly(p.Significand(), p.Scale() + m, q.Significand(), q.Scale() + m,
      NatOf(Significant(p)), Dropped(p) + (p.Scale() + m), NatOf(Significant(q)), Dropped(q) + (q.Scale() + m));
  }

  lemma ZeroAgrees(a: nat, i: int, b: nat, j: int)
    requires a == 0 || b == 0
    ensures (exists m: nat :: AgreeOver(a, i, b, j, m)) <==> a == b
  {
    if a == b {
      var m: nat := Abs(i) + Abs(j);
      assert AgreeOver(a, i, b, j, m);
    } else {
      forall m: nat ensures !AgreeOver(a, i, b, j, m) {
        if 0 <= i + m && 0 <= j + m {
          if a > 0 { ProductStrict0(a, Pow10(i + m)); } else { ProductStrict0(b, Pow10(j + m)); }
        }
      }
    }
  }

  lemma ProductStrict0(a: nat, p: nat)
    requires a > 0 && p > 0
    ensures a * p > 0
  {
  }

  /** What the normal form is made of, when there is one. */
  lemma ValueForm(p: Spelling)
    requires p.WellFormed() && ValueOf(p).Some?
    ensures ValueOf(p) == Some(if Significant(p) == "" then Normal(false, "", 0)
                               else Normal(p.negative, Significant(p), p.Scale() + Dropped(p)))
  {
  }

  lemma NonzeroAgree(p: Spelling, q: Spelling)
    requires p.WellFormed() && q.WellFormed() && Significant(p) != "" && Significant(q) != ""
    ensures (exists m: nat :: AgreeOver(p.Significand(), p.Scale(), q.Significand(), q.Scale(), m)) <==>
            Significant(p) == Significant(q) && p.Scale() + Dropped(p) == q.Scale() + Dropped(q)
  {
    var m: nat := Abs(p.Scale()) + Abs(q.Scale());
    AgreeExactly(p, q, m);
    forall k: nat | AgreeOver(p.Significand(), p.Scale(), q.Significand(), q.Scale(), k)
      ensures Significant(p) == Significant(q) && p.Scale() + Dropped(p) == q.Scale() + Dropped(q)
    {
      AgreeExactly(p, q, k);
    }
  }

  /** Literals whose exponents fit are one rational number exactly when their normal forms are equal. */
  lemma ValueDecidesEquality(p: Spelling, q: Spelling)
    requires p.WellFormed() && q.WellFormed() && ValueOf(p).Some? && ValueOf(q).Some?
    ensures ValueOf(p) == ValueOf(q) <==> SameRational(p, q)
  {
    SignificantIs(p);
    SignificantIs(q);
    ValueForm(p);
    ValueForm(q);
    if Significant(p) == "" || Significant(q) == "" {
      ZeroAgrees(p.Significand(), p.Scale(), q.Significand(), q.Scale());
    } else {
      NonzeroAgree(p, q);
    }
  }

  /**
   * `exact_json_number`: the literal, what is emitted for it and what binary64
   * prints for that. The first two are absent when a parse fails or the value
   * is not finite.
   */
  predicate Exact(literal: Spelling, emitted: Option<Spelling>, printed: Option<Spelling>)
    requires literal.WellFormed() && (emitted.Some? ==> emitted.value.WellFormed())
             && (printed.Some? ==> printed.value.WellFormed())
  {
    && emitted.Some? && printed.Some? && ValueOf(literal).Some?
    && ValueOf(literal) == ValueOf(emitted.value) && ValueOf(literal) == ValueOf(printed.value)
  }

  /** Accepted exactly when every hop means the same rational number, and is spelled within range. */
  lemma ExactMeansOneValue(literal: Spelling, emitted: Spelling, printed: Spelling)
    requires literal.WellFormed() && emitted.WellFormed() && printed.WellFormed()
    ensures Exact(literal, Some(emitted), Some(printed)) <==>
            && ValueOf(literal).Some? && ValueOf(emitted).Some? && ValueOf(printed).Some?
            && SameRational(literal, emitted) && SameRational(literal, printed)
  {
    if ValueOf(literal).Some? && ValueOf(emitted).Some? { ValueDecidesEquality(literal, emitted); }
    if ValueOf(literal).Some? && ValueOf(printed).Some? { ValueDecidesEquality(literal, printed); }
  }
}
