/** A text spells at most one JSON document: tokens, numbers, strings and nesting can each be read one way only. */
module JsonReading {
  import opened Common
  import opened JsonSyntax
  import opened StrictJson

  // ---- bytes to tokens ----

  lemma BodyUnfold(a: seq<Atom>, r: seq<Byte>)
    requires a != []
    ensures BodyBytes(a) + r == AtomBytes(a[0]) + (BodyBytes(a[1..]) + r)
  {
    Assoc(AtomBytes(a[0]), BodyBytes(a[1..]), r);
  }

  lemma FirstAtomByte(a: seq<Atom>, x: seq<Byte>)
    requires forall i :: 0 <= i < |a| ==> ValidAtom(a[i])
    ensures var text := BodyBytes(a) + ([QUOTE] + x);
            && text != [] && (text[0] == QUOTE <==> a == [])
            && (a != [] ==> |AtomBytes(a[0])| == (if text[0] == BACKSLASH then 2 else 1))
  {
    if a != [] { BodyUnfold(a, [QUOTE] + x); }
  }

  lemma SameAtom(a: Atom, b: Atom)
    requires ValidAtom(a) && ValidAtom(b) && AtomBytes(a) == AtomBytes(b)
    ensures a == b
  {
    assert AtomBytes(a)[0] == AtomBytes(b)[0];
    if a.Esc? { assert AtomBytes(a)[1] == AtomBytes(b)[1]; }
  }

  lemma {:induction false} BodyIsUnique(a: seq<Atom>, b: seq<Atom>, x: seq<Byte>, y: seq<Byte>)
    requires forall i :: 0 <= i < |a| ==> ValidAtom(a[i])
    requires forall i :: 0 <= i < |b| ==> ValidAtom(b[i])
    requires BodyBytes(a) + ([QUOTE] + x) == BodyBytes(b) + ([QUOTE] + y)
    ensures a == b && x == y
    decreases |a|
  {
    FirstAtomByte(a, x);
    FirstAtomByte(b, y);
    if a == [] {
      SameCut(BodyBytes(a) + [QUOTE], BodyBytes(b) + [QUOTE], x, y) by {
        Assoc(BodyBytes(a), [QUOTE], x);
        Assoc(BodyBytes(b), [QUOTE], y);
      }
    } else {
      var p, q := BodyBytes(a[1..]) + ([QUOTE] + x), BodyBytes(b[1..]) + ([QUOTE] + y);
      BodyUnfold(a, [QUOTE] + x);
      BodyUnfold(b, [QUOTE] + y);
      SameCut(AtomBytes(a[0]), AtomBytes(b[0]), p, q);
      SameAtom(a[0], b[0]);
      BodyIsUnique(a[1..], b[1..], x, y);
      assert a == [a[0]] + a[1..] && b == [b[0]] + b[1..];
    }
  }

  /** The first byte of a token tells its kind. */
  lemma TokenKind(t: Token)
    requires ValidToken(t)
    ensures var bytes := TokenBytes(t);
            && bytes != [] && (bytes[0] == QUOTE <==> t.Quoted?) && (StartsNumber(bytes[0]) <==> t.Num?)
  {
  }

  lemma FirstTokenIsUnique(a: seq<Token>, b: seq<Token>)
    requires Separated(a) && Separated(b) && a != [] && b != [] && Render(a) == Render(b)
    ensures a[0] == b[0]
  {
    var text := Render(a);
    NextToken(text, a);
    NextToken(text, b);
    assert ValidToken(a[0]) && ValidToken(b[0]);
    TokenKind(a[0]);
    TokenKind(b[0]);
    assert text[0] == TokenBytes(a[0])[0] == TokenBytes(b[0])[0];
    match a[0]
    case Other(_) =>
    case Num(s) => NumberTokenIsUnique(text, s, b[0].text);
    case Quoted(body) => QuotedTokenIsUnique(body, b[0].body, Render(a[1..]), Render(b[1..]));
  }

  lemma NumberTokenIsUnique(text: seq<Byte>, s: seq<Byte>, t: seq<Byte>)
    requires s <= text && t <= text && ValidToken(Num(s)) && ValidToken(Num(t))
    requires (|s| < |text| ==> !InNumber(text[|s|])) && (|t| < |text| ==> !InNumber(text[|t|]))
    ensures s == t
  {
    assert |s| == |t|;
  }

  lemma QuotedShape(a: seq<Byte>, x: seq<Byte>)
    ensures ([QUOTE] + a + [QUOTE]) + x == [QUOTE] + (a + ([QUOTE] + x))
  {
  }

  lemma QuotedTokenIsUnique(a: seq<Atom>, b: seq<Atom>, x: seq<Byte>, y: seq<Byte>)
    requires ValidToken(Quoted(a)) && ValidToken(Quoted(b))
    requires TokenBytes(Quoted(a)) + x == TokenBytes(Quoted(b)) + y
    ensures a == b
  {
    QuotedShape(BodyBytes(a), x);
    QuotedShape(BodyBytes(b), y);
    SameCut([QUOTE], [QUOTE], BodyBytes(a) + ([QUOTE] + x), BodyBytes(b) + ([QUOTE] + y));
    BodyIsUnique(a, b, x, y);
  }

  lemma RestIsSame(a: seq<Token>, b: seq<Token>)
    requires a != [] && b != [] && a[0] == b[0] && Render(a) == Render(b)
    ensures Render(a[1..]) == Render(b[1..])
  {
    SameCut(TokenBytes(a[0]), TokenBytes(b[0]), Render(a[1..]), Render(b[1..]));
  }

  /** Separated tokens are read back from their bytes. */
  lemma {:induction false} TokensAreUnique(a: seq<Token>, b: seq<Token>)
    requires Separated(a) && Separated(b) && Render(a) == Render(b)
    ensures a == b
    decreases |a|
  {
    TextEndsWithTokens(a);
    TextEndsWithTokens(b);
    if a != [] {
      FirstTokenIsUnique(a, b);
      RestIsSame(a, b);
      TokensAreUnique(a[1..], b[1..]);
      assert a == [a[0]] + a[1..] && b == [b[0]] + b[1..];
    }
  }

  // ---- number literals ----

  predicate NoDigit(x: seq<Byte>) { x == [] || !IsDigit(x[0]) }

  lemma DigitsAreUnique(a: seq<Byte>, b: seq<Byte>, x: seq<Byte>, y: seq<Byte>)
    requires Digits(a) && Digits(b) && NoDigit(x) && NoDigit(y) && a + x == b + y
    ensures a == b && x == y
  {
    RunLengthOf(a, x, IsDigit);
    RunLengthOf(b, y, IsDigit);
    SameCut(a, b, x, y);
  }

  function FractionBytes(f: Option<seq<Byte>>): seq<Byte> { if f.Some? then [46] + f.value else [] }

  function ExponentBytes(e: Option<Exponent>): seq<Byte> {
    if e.None? then [] else [e.value.marker] + (SignBytes(e.value.sign) + e.value.digits)
  }

  function SignBytes(s: Option<Byte>): seq<Byte> { if s.Some? then [s.value] else [] }

  predicate ValidExponent(e: Option<Exponent>) {
    e.Some? ==>
      && e.value.marker in [101, 69] && (e.value.sign.Some? ==> e.value.sign.value in [43, 45])
      && Digits(e.value.digits)
  }

  lemma ExponentIsUnique(a: Option<Exponent>, b: Option<Exponent>)
    requires ValidExponent(a) && ValidExponent(b) && ExponentBytes(a) == ExponentBytes(b)
    ensures a == b
  {
    if a.Some? && b.Some? {
      var x, y := SignBytes(a.value.sign) + a.value.digits, SignBytes(b.value.sign) + b.value.digits;
      SameCut([a.value.marker], [b.value.marker], x, y);
      assert [a.value.marker][0] == [b.value.marker][0];
      assert x[0] == y[0];
      SameCut(SignBytes(a.value.sign), SignBytes(b.value.sign), a.value.digits, b.value.digits);
      if a.value.sign.Some? { assert SignBytes(a.value.sign)[0] == SignBytes(b.value.sign)[0]; }
    }
  }

  lemma ExponentStart(e: Option<Exponent>)
    requires ValidExponent(e)
    ensures ExponentBytes(e) == [] || ExponentBytes(e)[0] in [101, 69]
  {
  }

  lemma FractionKind(f: Option<seq<Byte>>, e: Option<Exponent>)
    requires ValidExponent(e)
    ensures var text := FractionBytes(f) + ExponentBytes(e); f.Some? <==> text != [] && text[0] == 46
  {
    ExponentStart(e);
  }

  lemma FractionIsUnique(f: Option<seq<Byte>>, g: Option<seq<Byte>>, a: Option<Exponent>, b: Option<Exponent>)
    requires (f.Some? ==> Digits(f.value)) && (g.Some? ==> Digits(g.value)) && ValidExponent(a) && ValidExponent(b)
    requires FractionBytes(f) + ExponentBytes(a) == FractionBytes(g) + ExponentBytes(b)
    ensures f == g && a == b
  {
    var x, y := ExponentBytes(a), ExponentBytes(b);
    FractionKind(f, a);
    FractionKind(g, b);
    ExponentStart(a);
    ExponentStart(b);
    if f.Some? {
      Assoc([46], f.value, x);
      Assoc([46], g.value, y);
      SameCut([46], [46], f.value + x, g.value + y);
      DigitsAreUnique(f.value, g.value, x, y);
    } else {
      SameCut([], [], x, y);
    }
    ExponentIsUnique(a, b);
  }

  lemma NumberShape(n: NumberText)
    ensures NumberBytes(n) == (if n.negative then [45] else [])
            + (n.whole + (FractionBytes(n.fraction) + ExponentBytes(n.exponent)))
  {
    if n.exponent.Some? {
      var e := n.exponent.value;
      assert [e.marker] + SignBytes(e.sign) + e.digits == [e.marker] + (SignBytes(e.sign) + e.digits);
    }
  }

  /** Section 6 of RFC 8259 splits a literal one way only. */
  lemma NumberIsUnique(m: NumberText, n: NumberText)
    requires ValidNumber(m) && ValidNumber(n) && NumberBytes(m) == NumberBytes(n)
    ensures m == n
  {
    NumberShape(m);
    NumberShape(n);
    var x, y := FractionBytes(m.fraction) + ExponentBytes(m.exponent),
      FractionBytes(n.fraction) + ExponentBytes(n.exponent);
    var text := NumberBytes(m);
    assert text[0] == if m.negative then 45 else m.whole[0];
    assert text[0] == if n.negative then 45 else n.whole[0];
    SameCut(if m.negative then [45] else [], if n.negative then [45] else [], m.whole + x, n.whole + y);
    DigitsAreUnique(m.whole, n.whole, x, y);
    FractionIsUnique(m.fraction, n.fraction, m.exponent, n.exponent);
  }

  // ---- strings ----

  lemma LitsAreUnique(a: seq<Byte>, b: seq<Byte>)
    requires Lits(a) == Lits(b)
    ensures a == b
  {
    assert |a| == |Lits(a)| == |b|;
    forall i | 0 <= i < |a| ensures a[i] == b[i] {
      assert Lits(a)[i] == Lits(b)[i];
    }
  }

  /** The first byte of a scalar's UTF-8 form gives its length. */
  lemma Utf8Length(c: char)
    ensures var s := Utf8(c);
            |s| == (if s[0] < 0x80 then 1 else if s[0] < 0xE0 then 2 else if s[0] < 0xF0 then 3 else 4)
  {
  }

  lemma Low(m: int, n: int)
    requires m / 64 == n / 64 && m % 64 == n % 64
    ensures m == n
  {
  }

  lemma Nested(m: int)
    requires m >= 0
    ensures m / 64 / 64 == m / 4096 && m / 64 / 64 / 64 == m / 262144 && m / 4096 == m / 64 / 64
  {
  }

  lemma Utf8IsUnique(c: char, d: char)
    requires Utf8(c) == Utf8(d)
    ensures c == d
  {
    var s, t, m, n := Utf8(c), Utf8(d), c as int, d as int;
    Utf8Length(c);
    Utf8Length(d);
    Nested(m);
    Nested(n);
    assert |s| == |t| && s[0] == t[0];
    if |s| == 2 {
      assert s[1] == t[1];
      Low(m, n);
    } else if |s| == 3 {
      assert s[1] == t[1] && s[2] == t[2];
      Low(m / 64, n / 64);
      Low(m, n);
    } else if |s| == 4 {
      assert s[1] == t[1] && s[2] == t[2] && s[3] == t[3];
      Low(m / 4096, n / 4096);
      Low(m / 64, n / 64);
      Low(m, n);
    }
  }

  lemma PieceIsPrefixFree(p: Piece, q: Piece, x: seq<Atom>, y: seq<Atom>)
    requires ValidPiece(p) && ValidPiece(q) && PieceAtoms(p) + x == PieceAtoms(q) + y
    ensures p == q && x == y
  {
    var a, b := PieceAtoms(p), PieceAtoms(q);
    if p.Plain? { Utf8Length(p.c); }
    if q.Plain? { Utf8Length(q.c); }
    assert a != [] && b != [];
    assert (a + x)[0] == a[0] && (b + y)[0] == b[0];
    assert |a| == |b|;
    SameCut(a, b, x, y);
    if p.Plain? {
      LitsAreUnique(Utf8(p.c), Utf8(q.c));
      Utf8IsUnique(p.c, q.c);
    } else if p.Unicode? {
      assert a[1..] == Lits(p.hex) && b[1..] == Lits(q.hex);
      LitsAreUnique(p.hex, q.hex);
    }
  }

  lemma {:induction false} PiecesAreUnique(a: seq<Piece>, b: seq<Piece>)
    requires ValidPieces(a) && ValidPieces(b) && Atoms(a) == Atoms(b)
    ensures a == b
    decreases |a|
  {
    if a != [] { PieceIsSome(a[0]); }
    if b != [] { PieceIsSome(b[0]); }
    if a != [] && b != [] {
      assert ValidPiece(a[0]) && ValidPiece(b[0]);
      PieceIsPrefixFree(a[0], b[0], Atoms(a[1..]), Atoms(b[1..]));
      PiecesAreUnique(a[1..], b[1..]);
      assert a == [a[0]] + a[1..] && b == [b[0]] + b[1..];
    }
  }

  lemma PieceIsSome(p: Piece)
    ensures PieceAtoms(p) != []
  {
  }

  // ---- tokens to documents ----

  predicate IsGap(t: Token) { t.Other? && t.b in [32, 9, 10, 13] }

  predicate NoGap(x: seq<Token>) { x == [] || !IsGap(x[0]) }

  function GapRun(x: seq<Token>): nat { if NoGap(x) then 0 else 1 + GapRun(x[1..]) }

  lemma {:induction false} RunIsGap(g: seq<Byte>, x: seq<Token>)
    requires Gap(g) && NoGap(x)
    ensures GapRun(Others(g) + x) == |g|
  {
    if g == [] {
      assert Others(g) + x == x;
    } else {
      assert (Others(g) + x)[1..] == Others(g[1..]) + x;
      assert (Others(g) + x)[0] == Other(g[0]);
      RunIsGap(g[1..], x);
    }
  }

  lemma OthersAreUnique(g: seq<Byte>, h: seq<Byte>)
    requires Others(g) == Others(h)
    ensures g == h
  {
    assert |g| == |Others(g)| == |h|;
    forall i | 0 <= i < |g| ensures g[i] == h[i] {
      assert Others(g)[i] == Others(h)[i];
    }
  }

  lemma GapIsUnique(g: seq<Byte>, h: seq<Byte>, x: seq<Token>, y: seq<Token>)
    requires Gap(g) && Gap(h) && NoGap(x) && NoGap(y) && Others(g) + x == Others(h) + y
    ensures g == h && x == y
  {
    RunIsGap(g, x);
    RunIsGap(h, y);
    SameCut(Others(g), Others(h), x, y);
    OthersAreUnique(g, h);
  }

  /** The first token of a value, which is never white space, a separator or a closing bracket. */
  predicate Opens(j: Json, t: Token) {
    match j
    case Word(letters) => letters != [] && t == Other(letters[0]) && t.b in [116, 102, 110]
    case Number(_) => t.Num?
    case Text(_) => t.Quoted?
    case Array(_, _) => t == Other(91)
    case Object(_, _) => t == Other(123)
  }

  lemma ValueOpens(j: Json)
    requires Valid(j)
    ensures Tokens(j) != [] && Opens(j, Tokens(j)[0])
  {
  }

  lemma WordIsUnique(a: seq<Byte>, b: seq<Byte>, x: seq<Token>, y: seq<Token>)
    requires IsWord(a) && IsWord(b) && Others(a) + x == Others(b) + y
    ensures a == b && x == y
  {
    assert (Others(a) + x)[0] == Other(a[0]) && (Others(b) + y)[0] == Other(b[0]);
    SameCut(Others(a), Others(b), x, y);
    OthersAreUnique(a, b);
  }

  /** Nested values are read back from their tokens, whatever follows. */
  lemma {:induction false} ValueIsUnique(j: Json, k: Json, x: seq<Token>, y: seq<Token>)
    requires Valid(j) && Valid(k) && Tokens(j) + x == Tokens(k) + y
    ensures j == k && x == y
    decreases j
  {
    ValueOpens(j);
    ValueOpens(k);
    assert (Tokens(j) + x)[0] == Tokens(j)[0] && (Tokens(k) + y)[0] == Tokens(k)[0];
    match j
    case Word(letters) => WordIsUnique(letters, k.letters, x, y);
    case Number(n) =>
      SameCut(Tokens(j), Tokens(k), x, y);
      assert Tokens(j)[0] == Tokens(k)[0];
      NumberIsUnique(n, k.number);
    case Text(pieces) =>
      SameCut(Tokens(j), Tokens(k), x, y);
      assert Tokens(j)[0] == Tokens(k)[0];
      PiecesAreUnique(pieces, k.pieces);
    case Array(gap, items) => ArrayIsUnique(gap, items, k.gap, k.items, x, y);
    case Object(gap, members) => ObjectIsUnique(gap, members, k.gap, k.members, x, y);
  }

  lemma {:induction false} PaddedIsUnique(p: Padded, q: Padded, x: seq<Token>, y: seq<Token>)
    requires ValidPadded(p) && ValidPadded(q) && NoGap(x) && NoGap(y) && PaddedTokens(p) + x == PaddedTokens(q) + y
    ensures p == q && x == y
    decreases p
  {
    PaddedShape(p, x);
    PaddedShape(q, y);
    ValueOpens(p.value);
    ValueOpens(q.value);
    var a, b := Others(p.after) + x, Others(q.after) + y;
    GapIsUnique(p.before, q.before, Tokens(p.value) + a, Tokens(q.value) + b);
    ValueIsUnique(p.value, q.value, a, b);
    GapIsUnique(p.after, q.after, x, y);
  }

  lemma PaddedShape(p: Padded, x: seq<Token>)
    ensures PaddedTokens(p) + x == Others(p.before) + (Tokens(p.value) + (Others(p.after) + x))
  {
    Assoc(Others(p.before), Tokens(p.value) + Others(p.after), x);
    Assoc(Tokens(p.value), Others(p.after), x);
  }

  /** What stands after the first of some items: a comma and the others, or the closing bracket. */
  function AfterItem(items: seq<Padded>, x: seq<Token>): seq<Token>
    requires items != []
  {
    if |items| == 1 then [Other(93)] + x else [Other(44)] + (ItemTokens(items[1..]) + ([Other(93)] + x))
  }

  lemma ItemShape(items: seq<Padded>, x: seq<Token>)
    requires items != []
    ensures ItemTokens(items) + ([Other(93)] + x) == PaddedTokens(items[0]) + AfterItem(items, x)
  {
    if |items| > 1 {
      Assoc(PaddedTokens(items[0]), [Other(44)] + ItemTokens(items[1..]), [Other(93)] + x);
      Assoc([Other(44)], ItemTokens(items[1..]), [Other(93)] + x);
    }
  }

  lemma {:induction false} ItemsAreUnique(a: seq<Padded>, b: seq<Padded>, x: seq<Token>, y: seq<Token>)
    requires a != [] && b != []
    requires forall i :: 0 <= i < |a| ==> ValidPadded(a[i])
    requires forall i :: 0 <= i < |b| ==> ValidPadded(b[i])
    requires ItemTokens(a) + ([Other(93)] + x) == ItemTokens(b) + ([Other(93)] + y)
    ensures a == b && x == y
    decreases a, 0
  {
    ItemShape(a, x);
    ItemShape(b, y);
    PaddedIsUnique(a[0], b[0], AfterItem(a, x), AfterItem(b, y));
    assert AfterItem(a, x)[0] == AfterItem(b, y)[0];
    if |a| == 1 {
      SameCut([Other(93)], [Other(93)], x, y);
      assert a == [a[0]] && b == [b[0]];
    } else {
      SameCut([Other(44)], [Other(44)], ItemTokens(a[1..]) + ([Other(93)] + x), ItemTokens(b[1..]) + ([Other(93)] + y));
      ItemsAreUnique(a[1..], b[1..], x, y);
      assert a == [a[0]] + a[1..] && b == [b[0]] + b[1..];
    }
  }

  /** Past the white space after an opening bracket stands the closing one exactly when the brackets are empty. */
  lemma EmptyArray(gap: seq<Byte>, items: seq<Padded>, x: seq<Token>)
    requires Valid(Array(gap, items))
    ensures var text := (if items == [] then Others(gap) else ItemTokens(items)) + ([Other(93)] + x);
            var skipped := GapRun(text);
            skipped < |text| && (text[skipped] == Other(93) <==> items == [])
  {
    if items == [] {
      RunIsGap(gap, [Other(93)] + x);
    } else {
      var p := items[0];
      assert ValidPadded(p);
      ItemShape(items, x);
      PaddedShape(p, AfterItem(items, x));
      ValueOpens(p.value);
      var rest := Tokens(p.value) + (Others(p.after) + AfterItem(items, x));
      assert rest[0] == Tokens(p.value)[0];
      RunIsGap(p.before, rest);
      assert (Others(p.before) + rest)[|p.before|] == rest[0];
    }
  }

  lemma ArrayShape(gap: seq<Byte>, items: seq<Padded>, x: seq<Token>)
    ensures Tokens(Array(gap, items)) + x ==
            [Other(91)] + ((if items == [] then Others(gap) else ItemTokens(items)) + ([Other(93)] + x))
  {
    var inner := if items == [] then Others(gap) else ItemTokens(items);
    Assoc([Other(91)], inner + [Other(93)], x);
    Assoc(inner, [Other(93)], x);
  }

  lemma {:induction false} ArrayIsUnique(g: seq<Byte>, a: seq<Padded>, h: seq<Byte>, b: seq<Padded>, x: seq<Token>,
        y: seq<Token>)
    requires Valid(Array(g, a)) && Valid(Array(h, b)) && Tokens(Array(g, a)) + x == Tokens(Array(h, b)) + y
    ensures g == h && a == b && x == y
    decreases a, 1
  {
    ArrayShape(g, a, x);
    ArrayShape(h, b, y);
    var s := (if a == [] then Others(g) else ItemTokens(a)) + ([Other(93)] + x);
    var t := (if b == [] then Others(h) else ItemTokens(b)) + ([Other(93)] + y);
    SameCut([Other(91)], [Other(91)], s, t);
    EmptyArray(g, a, x);
    EmptyArray(h, b, y);
    if a == [] {
      GapIsUnique(g, h, [Other(93)] + x, [Other(93)] + y);
      SameCut([Other(93)], [Other(93)], x, y);
    } else {
      ItemsAreUnique(a, b, x, y);
    }
  }

  lemma MemberShape(m: Member, x: seq<Token>)
    ensures MemberTokens(m) + x ==
            Others(m.before)
              + ([Quoted(Atoms(m.key))] + (Others(m.between) + ([Other(58)] + (PaddedTokens(m.value) + x))))
  {
    var key, value := [Quoted(Atoms(m.key))], PaddedTokens(m.value);
    Assoc(Others(m.before), key + (Others(m.between) + ([Other(58)] + value)), x);
    Assoc(key, Others(m.between) + ([Other(58)] + value), x);
    Assoc(Others(m.between), [Other(58)] + value, x);
    Assoc([Other(58)], value, x);
  }

  lemma {:induction false} MemberIsUnique(m: Member, n: Member, x: seq<Token>, y: seq<Token>)
    requires ValidMember(m) && ValidMember(n) && NoGap(x) && NoGap(y) && MemberTokens(m) + x == MemberTokens(n) + y
    ensures m == n && x == y
    decreases m
  {
    MemberShape(m, x);
    MemberShape(n, y);
    var a, b := [Other(58)] + (PaddedTokens(m.value) + x), [Other(58)] + (PaddedTokens(n.value) + y);
    var key, other := [Quoted(Atoms(m.key))], [Quoted(Atoms(n.key))];
    GapIsUnique(m.before, n.before, key + (Others(m.between) + a), other + (Others(n.between) + b));
    SameCut(key, other, Others(m.between) + a, Others(n.between) + b);
    assert key[0] == other[0];
    PiecesAreUnique(m.key, n.key);
    GapIsUnique(m.between, n.between, a, b);
    SameCut([Other(58)], [Other(58)], PaddedTokens(m.value) + x, PaddedTokens(n.value) + y);
    PaddedIsUnique(m.value, n.value, x, y);
  }

  function AfterMember(members: seq<Member>, x: seq<Token>): seq<Token>
    requires members != []
  {
    if |members| == 1 then [Other(125)] + x else [Other(44)] + (MembersTokens(members[1..]) + ([Other(125)] + x))
  }

  lemma MembersShape(members: seq<Member>, x: seq<Token>)
    requires members != []
    ensures MembersTokens(members) + ([Other(125)] + x) == MemberTokens(members[0]) + AfterMember(members, x)
  {
    if |members| > 1 {
      Assoc(MemberTokens(members[0]), [Other(44)] + MembersTokens(members[1..]), [Other(125)] + x);
      Assoc([Other(44)], MembersTokens(members[1..]), [Other(125)] + x);
    }
  }

  /** After equal first members, both objects end together or go on alike. */
  lemma AfterMemberDecides(a: seq<Member>, b: seq<Member>, x: seq<Token>, y: seq<Token>)
    requires a != [] && b != [] && AfterMember(a, x) == AfterMember(b, y)
    ensures |a| == 1 <==> |b| == 1
    ensures |a| == 1 ==> x == y
    ensures |a| > 1 ==>
              MembersTokens(a[1..]) + ([Other(125)] + x) == MembersTokens(b[1..]) + ([Other(125)] + y)
  {
    assert AfterMember(a, x)[0] == AfterMember(b, y)[0];
    if |a| == 1 {
      SameCut([Other(125)], [Other(125)], x, y);
    } else {
      SameCut([Other(44)], [Other(44)], MembersTokens(a[1..]) + ([Other(125)] + x),
        MembersTokens(b[1..]) + ([Other(125)] + y));
    }
  }

  lemma SameMembers(a: seq<Member>, b: seq<Member>)
    requires a != [] && b != [] && a[0] == b[0] && a[1..] == b[1..]
    ensures a == b
  {
    assert a == [a[0]] + a[1..] && b == [b[0]] + b[1..];
  }

  lemma {:induction false} MembersAreUnique(a: seq<Member>, b: seq<Member>, x: seq<Token>, y: seq<Token>)
    requires a != [] && b != []
    requires forall i :: 0 <= i < |a| ==> ValidMember(a[i])
    requires forall i :: 0 <= i < |b| ==> ValidMember(b[i])
    requires MembersTokens(a) + ([Other(125)] + x) == MembersTokens(b) + ([Other(125)] + y)
    ensures a == b && x == y
    decreases a, 0
  {
    MembersShape(a, x);
    MembersShape(b, y);
    MemberIsUnique(a[0], b[0], AfterMember(a, x), AfterMember(b, y));
    AfterMemberDecides(a, b, x, y);
    if |a| == 1 {
      assert a[1..] == [] && b[1..] == [];
    } else {
      MembersAreUnique(a[1..], b[1..], x, y);
    }
    SameMembers(a, b);
  }

  lemma EmptyObject(gap: seq<Byte>, members: seq<Member>, x: seq<Token>)
    requires Valid(Object(gap, members))
    ensures var text := (if members == [] then Others(gap) else MembersTokens(members)) + ([Other(125)] + x);
            var skipped := GapRun(text);
            skipped < |text| && (text[skipped] == Other(125) <==> members == [])
  {
    if members == [] {
      RunIsGap(gap, [Other(125)] + x);
    } else {
      var m := members[0];
      assert ValidMember(m);
      MembersShape(members, x);
      MemberShape(m, AfterMember(members, x));
      var rest := [Quoted(Atoms(m.key))]
        + (Others(m.between) + ([Other(58)] + (PaddedTokens(m.value) + AfterMember(members, x))));
      RunIsGap(m.before, rest);
      assert (Others(m.before) + rest)[|m.before|] == rest[0];
    }
  }

  lemma ObjectShape(gap: seq<Byte>, members: seq<Member>, x: seq<Token>)
    ensures Tokens(Object(gap, members)) + x ==
            [Other(123)] + ((if members == [] then Others(gap) else MembersTokens(members)) + ([Other(125)] + x))
  {
    var inner := if members == [] then Others(gap) else MembersTokens(members);
    Assoc([Other(123)], inner + [Other(125)], x);
    Assoc(inner, [Other(125)], x);
  }

  lemma {:induction false} ObjectIsUnique(g: seq<Byte>, a: seq<Member>, h: seq<Byte>, b: seq<Member>, x: seq<Token>,
        y: seq<Token>)
    requires Valid(Object(g, a)) && Valid(Object(h, b)) && Tokens(Object(g, a)) + x == Tokens(Object(h, b)) + y
    ensures g == h && a == b && x == y
    decreases a, 1
  {
    ObjectShape(g, a, x);
    ObjectShape(h, b, y);
    var s := (if a == [] then Others(g) else MembersTokens(a)) + ([Other(125)] + x);
    var t := (if b == [] then Others(h) else MembersTokens(b)) + ([Other(125)] + y);
    SameCut([Other(123)], [Other(123)], s, t);
    EmptyObject(g, a, x);
    EmptyObject(h, b, y);
    if a == [] {
      GapIsUnique(g, h, [Other(125)] + x, [Other(125)] + y);
      SameCut([Other(125)], [Other(125)], x, y);
    } else {
      MembersAreUnique(a, b, x, y);
    }
  }

  /** The text is the spelling of this document. */
  predicate Spells(text: seq<Byte>, p: Padded) { ValidPadded(p) && Render(PaddedTokens(p)) == text }

  /** A text spells at most one document, spelling included. */
  lemma DocumentIsUnique(text: seq<Byte>, p: Padded, q: Padded)
    requires Spells(text, p) && Spells(text, q)
    ensures p == q
  {
    PaddedSeparated(p, []);
    PaddedSeparated(q, []);
    assert PaddedTokens(p) + [] == PaddedTokens(p) && PaddedTokens(q) + [] == PaddedTokens(q);
    TokensAreUnique(PaddedTokens(p), PaddedTokens(q));
    PaddedIsUnique(p, q, [], []);
  }
}
