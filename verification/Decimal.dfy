/** Exact decimal text: what `BigInt(text)` reads from digits and `toString` prints. */
module Decimal {

  predicate IsDigit(c: char) { '0' <= c <= '9' }

  predicate AllDigits(s: string) { forall i :: 0 <= i < |s| ==> IsDigit(s[i]) }

  /** The canonical spellings: no leading zero except the single digit `0`. */
  predicate Canonical(s: string) {
    AllDigits(s) && |s| > 0 && (s[0] == '0' ==> |s| == 1)
  }

  function Pow10(k: nat): (p: nat)
    ensures p >= 1
  {
    if k == 0 then 1 else 10 * Pow10(k - 1)
  }

  lemma {:induction false} Pow10Add(a: nat, b: nat)
    ensures Pow10(a + b) == Pow10(a) * Pow10(b)
  {
    if a > 0 {
      Pow10Add(a - 1, b);
      calc {
        Pow10(a + b);
        10 * Pow10(a - 1 + b);
        10 * (Pow10(a - 1) * Pow10(b));
        (10 * Pow10(a - 1)) * Pow10(b);
      }
    }
  }

  lemma {:induction false} Pow10Monotone(a: nat, b: nat)
    requires a <= b
    ensures Pow10(a) <= Pow10(b)
    decreases b
  {
    if a < b { Pow10Monotone(a, b - 1); }
  }

  function DigitValue(c: char): nat
    requires IsDigit(c)
  {
    (c - '0') as nat
  }

  function DigitChar(d: nat): (c: char)
    requires d < 10
    ensures IsDigit(c) && DigitValue(c) == d
  {
    '0' + d as char
  }

  /** The natural number a run of digits denotes; the empty run denotes 0. */
  function NatOf(s: string): nat
    requires AllDigits(s)
  {
    if s == "" then 0 else NatOf(s[..|s| - 1]) * 10 + DigitValue(s[|s| - 1])
  }

  lemma ShiftDigit(x: nat, p: nat, y: nat, d: nat)
    ensures (x * p + y) * 10 + d == x * (10 * p) + (y * 10 + d)
  {
  }

  lemma {:induction false} NatOfConcat(a: string, b: string)
    requires AllDigits(a) && AllDigits(b)
    ensures AllDigits(a + b) && NatOf(a + b) == NatOf(a) * Pow10(|b|) + NatOf(b)
  {
    if b == "" {
      assert a + b == a;
    } else {
      var c := b[..|b| - 1];
      assert (a + b)[..|a + b| - 1] == a + c;
      NatOfConcat(a, c);
      ShiftDigit(NatOf(a), Pow10(|c|), NatOf(c), DigitValue(b[|b| - 1]));
    }
  }

  lemma {:induction false} NatOfBounds(s: string)
    requires AllDigits(s)
    ensures NatOf(s) < Pow10(|s|)
    ensures s != "" && s[0] != '0' ==> NatOf(s) >= Pow10(|s| - 1)
  {
    if s != "" {
      NatOfBounds(s[..|s| - 1]);
      if |s| > 1 { assert s[..|s| - 1][0] == s[0]; }
    }
  }

  /** Canonical decimal text of a natural number. */
  function NatText(n: nat): (s: string)
    ensures Canonical(s) && NatOf(s) == n
  {
    if n < 10 then [DigitChar(n)] else
      var head := NatText(n / 10);
      var s := head + [DigitChar(n % 10)];
      assert s[..|s| - 1] == head;
      assert head != "0";
      s
  }

  lemma {:induction false} NatOfIsPositive(s: string)
    requires AllDigits(s) && s != "" && s[0] != '0'
    ensures NatOf(s) >= 1
  {
    if |s| > 1 { NatOfIsPositive(s[..|s| - 1]); }
  }

  lemma NatTextGrows(n: nat, last: char)
    requires n >= 1 && IsDigit(last)
    ensures NatText(n * 10 + DigitValue(last)) == NatText(n) + [last]
  {
    var m := n * 10 + DigitValue(last);
    assert m / 10 == n && m % 10 == DigitValue(last) && m >= 10;
  }

  lemma SingleDigit(s: string)
    requires |s| == 1 && IsDigit(s[0])
    ensures s == NatText(NatOf(s))
  {
    assert s[..0] == "";
    assert NatOf(s) == DigitValue(s[0]);
  }

  /** The digits before the last of canonical text are canonical, and not zero. */
  lemma CanonicalHead(s: string)
    requires Canonical(s) && |s| > 1
    ensures var head := s[..|s| - 1];
            Canonical(head) && NatOf(head) >= 1 && NatOf(s) == NatOf(head) * 10 + DigitValue(s[|s| - 1])
  {
    assert s[..|s| - 1][0] == s[0];
    NatOfIsPositive(s[..|s| - 1]);
  }

  /** Canonical text is the only canonical text of its value. */
  lemma {:induction false} CanonicalIsNatText(s: string)
    requires Canonical(s)
    ensures s == NatText(NatOf(s))
  {
    if |s| == 1 {
      SingleDigit(s);
    } else {
      var head, last := s[..|s| - 1], s[|s| - 1];
      CanonicalHead(s);
      CanonicalIsNatText(head);
      NatTextGrows(NatOf(head), last);
      assert s == head + [last];
    }
  }

  /** Text of an integer, as `BigInt.prototype.toString` prints it. */
  function IntText(v: int): (s: string)
    ensures s != ""
  {
    if v < 0 then "-" + NatText(-v) else NatText(v)
  }

  /** The ten digits and what they count. */
  lemma DigitsAre(d: nat)
    requires d < 10
    ensures DigitChar(d) == "0123456789"[d] && IsDigit("0123456789"[d]) && DigitValue("0123456789"[d]) == d
  {
  }
}
