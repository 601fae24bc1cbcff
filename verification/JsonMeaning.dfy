/** What spelled strings mean: UTF-8, UTF-16 and escapes against the numbers they stand for, and whole documents. */
module JsonMeaning {
  import opened Common
  import opened JsonSyntax
  import opened StrictJson
  import opened JsonReading
  import opened RequestParams
  import Decimal
  import JsonText
  import Text

  // ---- bytes ----

  /** Section 3 of RFC 3629: the scalar value a UTF-8 sequence stands for. */
  function ScalarOf(bytes: seq<Byte>): int {
    match |bytes|
    case 1 => bytes[0]
    case 2 => (bytes[0] - 0xC0) * 0x40 + (bytes[1] - 0x80)
    case 3 => (bytes[0] - 0xE0) * 0x1000 + (bytes[1] - 0x80) * 0x40 + (bytes[2] - 0x80)
    case 4 => (bytes[0] - 0xF0) * 0x4_0000 + (bytes[1] - 0x80) * 0x1000 + (bytes[2] - 0x80) * 0x40 + (bytes[3] - 0x80)
    case _ => 0
  }

  predicate Continuation(b: Byte) { 0x80 <= b < 0xC0 }

  lemma ShortUtf8(c: char)
    requires c as int < 0x800
    ensures ScalarOf(Utf8(c)) == c as int && (|Utf8(c)| == 2 ==> Continuation(Utf8(c)[1]))
  {
    var n := c as int;
    assert n == n / 0x40 * 0x40 + n % 0x40;
  }

  lemma ThreeByteUtf8(c: char)
    requires 0x800 <= c as int < 0x1_0000
    ensures ScalarOf(Utf8(c)) == c as int && Continuation(Utf8(c)[1]) && Continuation(Utf8(c)[2])
  {
    var n := c as int;
    var q := n / 0x40;
    assert n == q * 0x40 + n % 0x40 && q == q / 0x40 * 0x40 + q % 0x40 && q / 0x40 == n / 0x1000;
  }

  lemma FourByteUtf8(c: char)
    requires 0x1_0000 <= c as int
    ensures ScalarOf(Utf8(c)) == c as int
    ensures Continuation(Utf8(c)[1]) && Continuation(Utf8(c)[2]) && Continuation(Utf8(c)[3])
  {
    var n := c as int;
    var q := n / 0x40;
    var p := q / 0x40;
    assert n == q * 0x40 + n % 0x40 && q == p * 0x40 + q % 0x40 && p == n / 0x1000;
    assert p == p / 0x40 * 0x40 + p % 0x40 && p / 0x40 == n / 0x4_0000;
  }

  /** A character's bytes are its shortest UTF-8 sequence. */
  lemma Utf8IsShortest(c: char)
    ensures var bytes, n := Utf8(c), c as int;
            && ScalarOf(bytes) == n && |bytes| == Text.CharBytes(c)
            && (|bytes| == 1 <==> n < 0x80) && (|bytes| <= 2 <==> n < 0x800) && (|bytes| <= 3 <==> n < 0x1_0000)
            && forall i :: 0 < i < |bytes| ==> Continuation(bytes[i])
  {
    if c as int < 0x800 {
      ShortUtf8(c);
    } else if c as int < 0x1_0000 {
      ThreeByteUtf8(c);
    } else {
      FourByteUtf8(c);
    }
  }

  // ---- code units ----

  /** Section 2 of RFC 2781: one unit, or a high and a low surrogate. */
  function ScalarOfUnits(units: seq<int>): int {
    match |units|
    case 1 => units[0]
    case 2 => 0x1_0000 + (units[0] - 0xD800) * 0x400 + (units[1] - 0xDC00)
    case _ => -1
  }

  predicate WellPaired(units: seq<int>) {
    || (|units| == 1 && 0 <= units[0] < 0x1_0000 && !(0xD800 <= units[0] < 0xE000))
    || (|units| == 2 && 0xD800 <= units[0] < 0xDC00 <= units[1] < 0xE000)
  }

  lemma OnePiece(p: Piece)
    ensures Decode([p]) == Units(p)
  {
    assert [p][1..] == [] && Units(p) + [] == Units(p);
  }

  /** A plain character is its UTF-16 form. */
  lemma PlainIsUtf16(c: char)
    ensures WellPaired(Decode([Plain(c)])) && ScalarOfUnits(Decode([Plain(c)])) == c as int
  {
    OnePiece(Plain(c));
  }

  const LOWER: seq<Byte> := [48, 49, 50, 51, 52, 53, 54, 55, 56, 57, 97, 98, 99, 100, 101, 102]
  const UPPER: seq<Byte> := [48, 49, 50, 51, 52, 53, 54, 55, 56, 57, 65, 66, 67, 68, 69, 70]

  /** `b` is the hexadecimal digit of value `d`, in either case. */
  predicate IsHexDigit(b: Byte, d: nat) { d < 16 && (b == LOWER[d] || b == UPPER[d]) }

  /** The number four hexadecimal digits spell. */
  lemma UnicodeIsHex(hex: seq<Byte>, a: nat, b: nat, c: nat, d: nat)
    requires |hex| == 4 && IsHexDigit(hex[0], a) && IsHexDigit(hex[1], b) && IsHexDigit(hex[2], c)
    requires IsHexDigit(hex[3], d)
    ensures ValidPiece(Unicode(hex)) && Decode([Unicode(hex)]) == [a * 0x1000 + b * 0x100 + c * 0x10 + d]
  {
    OnePiece(Unicode(hex));
    HexDigitIs(hex[0], a);
    HexDigitIs(hex[1], b);
    HexDigitIs(hex[2], c);
    HexDigitIs(hex[3], d);
  }

  lemma HexDigitIs(b: Byte, d: nat)
    requires IsHexDigit(b, d)
    ensures IsHex(b) && HexValue(b) == d
  {
  }

  lemma HexDigitsAre(b: Byte)
    ensures IsHex(b) <==> exists d :: 0 <= d < 16 && IsHexDigit(b, d)
  {
    if IsHex(b) { assert IsHexDigit(b, HexValue(b)); }
  }

  /** A character stands for itself exactly when it needs no escape. */
  lemma PlainIsUnescaped(c: char)
    ensures ValidPiece(Plain(c)) <==> JsonText.Escape(c) == [c]
  {
    JsonText.EscapeExactly(c);
  }

  /** The four digits of a code unit. */
  function Hex4(n: nat): seq<Byte>
    requires n < 0x1_0000
  {
    [LOWER[n / 16 / 16 / 16], LOWER[n / 16 / 16 % 16], LOWER[n / 16 % 16], LOWER[n % 16]]
  }

  lemma Recompose(n: nat)
    ensures n / 16 / 16 / 16 * 0x1000 + n / 16 / 16 % 16 * 0x100 + n / 16 % 16 * 0x10 + n % 16 == n
  {
    var q := n / 16;
    var r := q / 16;
    assert n == q * 16 + n % 16 && q == r * 16 + q % 16 && r == r / 16 * 16 + r % 16;
  }

  lemma HexDecodes(n: nat, a: nat, b: nat, c: nat, d: nat)
    requires a < 16 && b < 16 && c < 16 && d < 16 && a * 0x1000 + b * 0x100 + c * 0x10 + d == n
    ensures Decode([Unicode([LOWER[a], LOWER[b], LOWER[c], LOWER[d]])]) == [n]
  {
    UnicodeIsHex([LOWER[a], LOWER[b], LOWER[c], LOWER[d]], a, b, c, d);
  }

  lemma Hex4Decodes(n: nat)
    requires n < 0x1_0000
    ensures Decode([Unicode(Hex4(n))]) == [n]
  {
    Recompose(n);
    HexDecodes(n, n / 16 / 16 / 16, n / 16 / 16 % 16, n / 16 % 16, n % 16);
  }

  /** The eight short escapes: quote, backslash, slash, backspace, form feed, newline, carriage return, tab. */
  const SHORTS: seq<(char, nat)> := [
    ('"', 0x22), ('\\', 0x5C), ('/', 0x2F), ('b', 0x08), ('f', 0x0C), ('n', 0x0A), ('r', 0x0D), ('t', 0x09)]

  /** A short escape is valid exactly when it is one of them, and then decodes as the `\u` escape of its character. */
  lemma ShortIsUnicode(i: nat)
    requires i < |SHORTS|
    ensures var b := SHORTS[i].0 as int;
            ValidPiece(Short(b)) && Decode([Short(b)]) == Decode([Unicode(Hex4(SHORTS[i].1))]) == [SHORTS[i].1]
  {
    OnePiece(Short(SHORTS[i].0 as int));
    Hex4Decodes(SHORTS[i].1);
  }

  lemma ShortsAreAll(b: Byte)
    requires ValidPiece(Short(b))
    ensures exists i :: 0 <= i < |SHORTS| && SHORTS[i].0 as int == b
  {
    assert SHORTS[0].0 as int == 34 && SHORTS[1].0 as int == 92 && SHORTS[2].0 as int == 47 && SHORTS[3].0 as int == 98;
    assert SHORTS[4].0 as int == 102 && SHORTS[5].0 as int == 110 && SHORTS[6].0 as int == 114;
    assert SHORTS[7].0 as int == 116;
  }

  lemma {:induction false} DecodeConcat(a: seq<Piece>, b: seq<Piece>)
    ensures Decode(a + b) == Decode(a) + Decode(b)
  {
    if a == [] {
      assert a + b == b;
    } else {
      assert (a + b)[1..] == a[1..] + b;
      DecodeConcat(a[1..], b);
      Assoc(Units(a[0]), Decode(a[1..]), Decode(b));
    }
  }

  function High(n: int): (h: nat)
    requires 0x1_0000 <= n < 0x11_0000
    ensures 0xD800 <= h < 0xDC00
  {
    0xD800 + (n - 0x1_0000) / 0x400
  }

  function Low(n: int): (l: nat)
    ensures 0xDC00 <= l < 0xE000
  {
    0xDC00 + (n - 0x1_0000) % 0x400
  }

  /** Escaping a character any permitted way does not change it: its `\u` escapes are its UTF-16 units. */
  function Escaped(c: char): seq<Piece> {
    var n := c as int;
    if n < 0x1_0000 then [Unicode(Hex4(n))]
    else [Unicode(Hex4(High(n))), Unicode(Hex4(Low(n)))]
  }

  lemma BasicIsEscaped(c: char)
    requires c as int < 0x1_0000
    ensures Units(Plain(c)) == Decode(Escaped(c))
  {
    Hex4Decodes(c as int);
  }

  lemma UnitsOfPair(c: char, n: int)
    requires n == c as int >= 0x1_0000
    ensures n < 0x11_0000 && Units(Plain(c)) == [High(n), Low(n)]
  {
  }

  lemma PairIsEscaped(c: char)
    requires c as int >= 0x1_0000
    ensures Units(Plain(c)) == Decode(Escaped(c))
  {
    var n := c as int;
    UnitsOfPair(c, n);
    var high, low := High(n), Low(n);
    PairDecodes(high, low);
  }

  lemma PlainIsEscaped(c: char)
    ensures Decode([Plain(c)]) == Decode(Escaped(c))
  {
    OnePiece(Plain(c));
    if c as int < 0x1_0000 { BasicIsEscaped(c); } else { PairIsEscaped(c); }
  }

  lemma PairDecodes(high: nat, low: nat)
    requires high < 0x1_0000 && low < 0x1_0000
    ensures Decode([Unicode(Hex4(high)), Unicode(Hex4(low))]) == [high, low]
  {
    Hex4Decodes(high);
    Hex4Decodes(low);
    DecodeConcat([Unicode(Hex4(high))], [Unicode(Hex4(low))]);
    assert [Unicode(Hex4(high)), Unicode(Hex4(low))] == [Unicode(Hex4(high))] + [Unicode(Hex4(low))];
  }

  /** Every character of a text written as escapes. */
  function EscapeAll(s: seq<Piece>): seq<Piece> {
    if s == [] then []
    else
      (match s[0]
       case Plain(c) => Escaped(c)
       case Short(b) => if 0 <= Units(s[0])[0] < 0x1_0000 then [Unicode(Hex4(Units(s[0])[0]))] else [s[0]]
       case Unicode(_) => [s[0]]) + EscapeAll(s[1..])
  }

  lemma {:induction false} RespellingKeepsMeaning(s: seq<Piece>)
    ensures Decode(EscapeAll(s)) == Decode(s)
  {
    if s != [] {
      RespellingKeepsMeaning(s[1..]);
      var first := EscapeAll([s[0]]);
      FirstRespelled(s[0]);
      assert EscapeAll(s) == first + EscapeAll(s[1..]) by { assert [s[0]][1..] == [] && first + [] == first; }
      DecodeConcat(first, EscapeAll(s[1..]));
      OnePiece(s[0]);
    }
  }

  lemma FirstRespelled(p: Piece)
    ensures Decode(EscapeAll([p])) == Units(p)
  {
    assert [p][1..] == [];
    OnePiece(p);
    match p
    case Plain(c) =>
      PlainIsEscaped(c);
      assert EscapeAll([p]) == Escaped(c) + [];
      assert Escaped(c) + [] == Escaped(c);
    case Short(b) =>
      var n := Units(p)[0];
      if 0 <= n < 0x1_0000 {
        Hex4Decodes(n);
        assert EscapeAll([p]) == [Unicode(Hex4(n))];
      } else {
        assert EscapeAll([p]) == [p];
      }
    case Unicode(_) =>
      assert EscapeAll([p]) == [p];
  }

  /** Two keys that differ only in how their characters are written are one key. */
  lemma RespelledKeyIsDuplicate(gap: seq<Byte>, first: Member, second: Member)
    requires second.key == EscapeAll(first.key)
    ensures !UniqueKeys(Object(gap, [first, second]))
  {
    RespellingKeepsMeaning(first.key);
    var members := [first, second];
    assert Decode(members[0].key) == Decode(members[1].key);
  }

  lemma NewlineSpellings()
    ensures Decode([Short('n' as int)]) == [10]
    ensures Decode([Unicode([48, 48, 48, 97])]) == [10] && Decode([Unicode([48, 48, 48, 65])]) == [10]
  {
    ShortIsUnicode(5);
    assert IsHexDigit(48, 0) && IsHexDigit(97, 10) && IsHexDigit(65, 10);
    UnicodeIsHex([48, 48, 48, 97], 0, 0, 0, 10);
    UnicodeIsHex([48, 48, 48, 65], 0, 0, 0, 10);
  }

  /** An escaped newline and its `\u` spelling are one key, in upper or lower case. */
  lemma NewlineKeysCollide(gap: seq<Byte>, first: Member, second: Member)
    requires first.key == [Short('n' as int)]
    requires second.key in {[Unicode([48, 48, 48, 97])], [Unicode([48, 48, 48, 65])]}
    ensures !UniqueKeys(Object(gap, [first, second]))
  {
    NewlineSpellings();
    var members := [first, second];
    assert Decode(members[0].key) == Decode(members[1].key);
  }

  // ---- the grammar in characters ----

  function Ascii(s: string): (bytes: seq<Byte>)
    ensures |bytes| == |s| && forall i :: 0 <= i < |s| ==> bytes[i] == s[i] as int
  {
    seq(|s|, i requires 0 <= i < |s| => s[i] as int)
  }

  lemma {:induction false} RenderConcat(a: seq<Token>, b: seq<Token>)
    ensures Render(a + b) == Render(a) + Render(b)
  {
    if a == [] {
      assert a + b == b;
    } else {
      assert (a + b)[1..] == a[1..] + b;
      RenderConcat(a[1..], b);
      Assoc(TokenBytes(a[0]), Render(a[1..]), Render(b));
    }
  }

  lemma RenderOne(t: Token)
    ensures Render([t]) == TokenBytes(t)
  {
    assert [t][1..] == [] && TokenBytes(t) + [] == TokenBytes(t);
  }

  lemma {:induction false} RenderOthers(s: seq<Byte>)
    ensures Render(Others(s)) == s
  {
    if s != [] {
      OthersFirst(s);
      RenderOthers(s[1..]);
      assert s == [s[0]] + s[1..];
    }
  }

  function TextOf(p: Padded): seq<Byte> { Render(PaddedTokens(p)) }

  lemma PaddedText(p: Padded)
    ensures TextOf(p) == p.before + Render(Tokens(p.value)) + p.after
  {
    RenderConcat(Others(p.before), Tokens(p.value) + Others(p.after));
    RenderConcat(Tokens(p.value), Others(p.after));
    RenderOthers(p.before);
    RenderOthers(p.after);
    Assoc(p.before, Render(Tokens(p.value)), p.after);
  }

  lemma Bracketed(open: Byte, inside: seq<Token>, close: Byte)
    ensures Render([Other(open)] + (inside + [Other(close)])) == [open] + Render(inside) + [close]
  {
    RenderConcat([Other(open)], inside + [Other(close)]);
    RenderConcat(inside, [Other(close)]);
    RenderOne(Other(open));
    RenderOne(Other(close));
    Assoc([open], Render(inside), [close]);
  }

  /** Elements of an array, separated by commas. */
  function ItemsText(items: seq<Padded>): seq<Byte> {
    if items == [] then []
    else if |items| == 1 then TextOf(items[0])
    else TextOf(items[0]) + Ascii(",") + ItemsText(items[1..])
  }

  lemma {:induction false} ItemsAreText(items: seq<Padded>)
    ensures Render(ItemTokens(items)) == ItemsText(items)
  {
    if |items| > 1 {
      ItemsAreText(items[1..]);
      RenderConcat(PaddedTokens(items[0]), [Other(44)] + ItemTokens(items[1..]));
      RenderConcat([Other(44)], ItemTokens(items[1..]));
      RenderOne(Other(44));
      assert Ascii(",") == [44];
      Assoc(TextOf(items[0]), Ascii(","), ItemsText(items[1..]));
    }
  }

  /** An array is its elements between square brackets. */
  lemma ArrayText(gap: seq<Byte>, items: seq<Padded>)
    ensures Render(Tokens(Array(gap, items))) ==
            Ascii("[") + (if items == [] then gap else ItemsText(items)) + Ascii("]")
  {
    Bracketed(91, if items == [] then Others(gap) else ItemTokens(items), 93);
    RenderOthers(gap);
    ItemsAreText(items);
    assert Ascii("[") == [91] && Ascii("]") == [93];
  }

  /** A string is its pieces between quotation marks. */
  function QuotedText(pieces: seq<Piece>): seq<Byte> { Ascii("\"") + PiecesText(pieces) + Ascii("\"") }

  /** A character in UTF-8, a backslash and a letter, or a backslash, `u` and four digits. */
  function PieceText(p: Piece): seq<Byte> {
    match p
    case Plain(c) => Utf8(c)
    case Short(b) => Ascii("\\") + [b]
    case Unicode(hex) => Ascii("\\u") + hex
  }

  function PiecesText(s: seq<Piece>): seq<Byte> { if s == [] then [] else PieceText(s[0]) + PiecesText(s[1..]) }

  lemma {:induction false} BodyConcat(a: seq<Atom>, b: seq<Atom>)
    ensures BodyBytes(a + b) == BodyBytes(a) + BodyBytes(b)
  {
    if a == [] {
      assert a + b == b;
    } else {
      assert (a + b)[1..] == a[1..] + b;
      BodyConcat(a[1..], b);
      Assoc(AtomBytes(a[0]), BodyBytes(a[1..]), BodyBytes(b));
    }
  }

  lemma {:induction false} LitsText(s: seq<Byte>)
    ensures BodyBytes(Lits(s)) == s
  {
    if s != [] {
      assert Lits(s) == [Lit(s[0])] + Lits(s[1..]);
      BodyConcat([Lit(s[0])], Lits(s[1..]));
      LitsText(s[1..]);
      OneAtom(Lit(s[0]));
      assert s == [s[0]] + s[1..];
    }
  }

  lemma OneAtom(a: Atom)
    ensures BodyBytes([a]) == AtomBytes(a)
  {
    assert [a][1..] == [] && AtomBytes(a) + [] == AtomBytes(a);
  }

  lemma PieceIsText(p: Piece)
    ensures BodyBytes(PieceAtoms(p)) == PieceText(p)
  {
    match p
    case Plain(c) => LitsText(Utf8(c));
    case Short(b) =>
      OneAtom(Esc(b));
      assert Ascii("\\") == [92];
    case Unicode(hex) =>
      BodyConcat([Esc(117)], Lits(hex));
      OneAtom(Esc(117));
      LitsText(hex);
      assert Ascii("\\u") == [92, 117];
  }

  lemma {:induction false} PiecesAreText(s: seq<Piece>)
    ensures BodyBytes(Atoms(s)) == PiecesText(s)
  {
    if s != [] {
      PieceIsText(s[0]);
      PiecesAreText(s[1..]);
      BodyConcat(PieceAtoms(s[0]), Atoms(s[1..]));
    }
  }

  lemma QuotedIsText(pieces: seq<Piece>)
    ensures TokenBytes(Quoted(Atoms(pieces))) == QuotedText(pieces)
  {
    PiecesAreText(pieces);
    assert Ascii("\"") == [34];
  }

  lemma StringText(pieces: seq<Piece>)
    ensures Render(Tokens(StrictJson.Json.Text(pieces))) == QuotedText(pieces)
  {
    RenderOne(Quoted(Atoms(pieces)));
    QuotedIsText(pieces);
  }

  function MemberText(m: Member): seq<Byte> {
    m.before + (QuotedText(m.key) + (m.between + (Ascii(":") + TextOf(m.value))))
  }

  lemma MemberIsText(m: Member)
    ensures Render(MemberTokens(m)) == MemberText(m)
  {
    var value := [Other(58)] + PaddedTokens(m.value);
    var rest := Others(m.between) + value;
    RenderConcat(Others(m.before), [Quoted(Atoms(m.key))] + rest);
    RenderConcat([Quoted(Atoms(m.key))], rest);
    RenderConcat(Others(m.between), value);
    RenderConcat([Other(58)], PaddedTokens(m.value));
    RenderOne(Other(58));
    RenderOne(Quoted(Atoms(m.key)));
    QuotedIsText(m.key);
    RenderOthers(m.before);
    RenderOthers(m.between);
    assert Ascii(":") == [58];
  }

  function MembersText(members: seq<Member>): seq<Byte> {
    if members == [] then []
    else if |members| == 1 then MemberText(members[0])
    else MemberText(members[0]) + (Ascii(",") + MembersText(members[1..]))
  }

  lemma {:induction false} MembersAreText(members: seq<Member>)
    ensures Render(MembersTokens(members)) == MembersText(members)
  {
    if members != [] { MemberIsText(members[0]); }
    if |members| > 1 {
      MembersAreText(members[1..]);
      RenderConcat(MemberTokens(members[0]), [Other(44)] + MembersTokens(members[1..]));
      RenderConcat([Other(44)], MembersTokens(members[1..]));
      RenderOne(Other(44));
      assert Ascii(",") == [44];
    }
  }

  /** An object is its members between braces: a quoted key, a colon and a value, separated by commas. */
  lemma ObjectText(gap: seq<Byte>, members: seq<Member>)
    ensures Render(Tokens(Object(gap, members))) ==
            Ascii("{") + (if members == [] then gap else MembersText(members)) + Ascii("}")
  {
    Bracketed(123, if members == [] then Others(gap) else MembersTokens(members), 125);
    RenderOthers(gap);
    MembersAreText(members);
    assert Ascii("{") == [123] && Ascii("}") == [125];
  }

  /** The three words, and the bytes white space is made of. */
  lemma WordText(letters: seq<Byte>)
    ensures Render(Tokens(Word(letters))) == letters
    ensures Valid(Word(letters)) <==> letters == Ascii("true") || letters == Ascii("false") || letters == Ascii("null")
    ensures Gap(letters) <==> forall i :: 0 <= i < |letters| ==>
              letters[i] in {' ' as int, '\t' as int, '\n' as int, '\r' as int}
  {
    RenderOthers(letters);
    assert Ascii("true") == [116, 114, 117, 101] && Ascii("false") == [102, 97, 108, 115, 101];
    assert Ascii("null") == [110, 117, 108, 108];
  }

  /** A number literal: minus, digits, point and digits, exponent mark, sign and digits. */
  lemma NumberLiteral(n: NumberText)
    ensures Render(Tokens(StrictJson.Json.Number(n))) ==
            (if n.negative then Ascii("-") else []) + n.whole
            + (if n.fraction.Some? then Ascii(".") + n.fraction.value else [])
            + (if n.exponent.Some? then
                 [n.exponent.value.marker] + (if n.exponent.value.sign.Some? then [n.exponent.value.sign.value] else [])
                 + n.exponent.value.digits
               else [])
    ensures ValidNumber(n) && n.exponent.Some? ==>
              && n.exponent.value.marker in {'e' as int, 'E' as int}
              && (n.exponent.value.sign.Some? ==> n.exponent.value.sign.value in {'+' as int, '-' as int})
  {
    RenderOne(Num(NumberBytes(n)));
    assert Ascii("-") == [45] && Ascii(".") == [46];
  }

  lemma DigitsAreDecimal(s: string)
    ensures Digits(Ascii(s)) <==> s != "" && Decimal.AllDigits(s)
  {
    var bytes := Ascii(s);
    assert forall i :: 0 <= i < |s| ==> (IsDigit(bytes[i]) <==> Decimal.IsDigit(s[i]));
  }

  /** The digits before the point are canonical; those after it and of the exponent are any. */
  lemma NumberPartsAre(negative: bool, s: string, f: string, marker: Byte, sign: Option<Byte>, e: string)
    ensures ValidNumber(NumberText(negative, Ascii(s), None, None)) <==> Decimal.Canonical(s)
    ensures ValidNumber(NumberText(negative, Ascii(s), Some(Ascii(f)), None)) <==>
            Decimal.Canonical(s) && f != "" && Decimal.AllDigits(f)
    ensures ValidNumber(NumberText(negative, Ascii(s), None, Some(Exponent(marker, sign, Ascii(e))))) <==>
            && Decimal.Canonical(s) && e != "" && Decimal.AllDigits(e) && marker in Ascii("eE")
            && (sign.Some? ==> sign.value in Ascii("+-"))
  {
    DigitsAreDecimal(s);
    DigitsAreDecimal(f);
    DigitsAreDecimal(e);
    assert Ascii("eE") == [101, 69] && Ascii("+-") == [43, 45];
    assert s != "" ==> Ascii(s)[0] == s[0] as int;
  }

  // ---- what containers mean ----

  /** An array means its elements in order. */
  lemma {:induction false} MeaningsAre(items: seq<Padded>, i: nat)
    requires i < |items|
    ensures |Meanings(items)| == |items| && Meanings(items)[i] == Meaning(items[i].value)
  {
    if i < |items| - 1 { MeaningsAre(items[..|items| - 1], i); } else { MeaningsLength(items[..|items| - 1]); }
  }

  lemma {:induction false} MeaningsLength(items: seq<Padded>)
    ensures |Meanings(items)| == |items|
  {
    if items != [] { MeaningsLength(items[..|items| - 1]); }
  }

  /** One more member writes its own key and no other. */
  lemma OneMoreField(members: seq<Member>, key: seq<int>)
    requires members != [] && key != Decode(members[|members| - 1].key)
    ensures var before := Fields(members[..|members| - 1]);
            && (key in Fields(members) <==> key in before)
            && (key in before ==> Fields(members)[key] == before[key])
  {
  }

  /** An object means, under what each key means, the last member of that key (`FieldKeys`: and nothing else). */
  lemma {:induction false} FieldsAre(members: seq<Member>, i: nat, key: seq<int>)
    requires i < |members| && Decode(members[i].key) == key
    requires forall j :: i < j < |members| ==> Decode(members[j].key) != key
    ensures key in Fields(members) && Fields(members)[key] == Meaning(members[i].value.value)
    decreases |members|
  {
    var n := |members| - 1;
    if i < n {
      var init := members[..n];
      assert forall j :: i < j < n ==> init[j] == members[j];
      FieldsAre(init, i, key);
      OneMoreField(members, key);
    }
  }

  // ---- locations ----

  predicate OneLine(s: seq<Byte>) { forall i :: 0 <= i < |s| ==> s[i] != '\n' as int }

  /** Before any newline the line is 1; each newline starts another. The column counts bytes since, from 1. */
  lemma {:induction false} LocationOnLine(head: seq<Byte>, tail: seq<Byte>)
    requires OneLine(tail) && (head == [] || head[|head| - 1] == '\n' as int)
    ensures Column(head + tail) == |tail| + 1
    ensures Line(head + tail) == if head == [] then 1 else Line(head[..|head| - 1]) + 1
    decreases |tail|
  {
    if tail == [] {
      assert head + tail == head;
    } else {
      var init := tail[..|tail| - 1];
      assert (head + tail)[..|head + tail| - 1] == head + init;
      LocationOnLine(head, init);
    }
  }
}
