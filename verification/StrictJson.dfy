/** The strict reader of authored request parameters: one object, no repeated key, no inexact number. */
module StrictJson {
  import opened Common
  import opened JsonSyntax

  // ---- the JSON grammar, with its spelling ----

  /** One string character: itself in UTF-8, a two-character escape, or a `\u` escape. */
  datatype Piece = Plain(c: char) | Short(b: Byte) | Unicode(hex: seq<Byte>)

  datatype Exponent = Exponent(marker: Byte, sign: Option<Byte>, digits: seq<Byte>)

  datatype NumberText = NumberText(negative: bool, whole: seq<Byte>, fraction: Option<seq<Byte>>,
      exponent: Option<Exponent>)

  /** `gap` is the white space between the brackets of an empty array or object. */
  datatype Json =
    | Word(letters: seq<Byte>)
    | Number(number: NumberText)
    | Text(pieces: seq<Piece>)
    | Array(gap: seq<Byte>, items: seq<Padded>)
    | Object(gap: seq<Byte>, members: seq<Member>)

  datatype Padded = Padded(before: seq<Byte>, value: Json, after: seq<Byte>)

  datatype Member = Member(before: seq<Byte>, key: seq<Piece>, between: seq<Byte>, value: Padded)

  /** UTF-8; only the last byte of a scalar below U+0080 can be ASCII. */
  function Utf8(c: char): seq<Byte> {
    var n := c as int;
    if n < 0x80 then [n]
    else if n < 0x800 then [0xC0 + n / 64, 0x80 + n % 64]
    else if n < 0x1_0000 then [0xE0 + n / 4096, 0x80 + n / 64 % 64, 0x80 + n % 64]
    else [0xF0 + n / 262144, 0x80 + n / 4096 % 64, 0x80 + n / 64 % 64, 0x80 + n % 64]
  }

  predicate ValidPiece(p: Piece) {
    match p
    case Plain(c) => c >= ' ' && c != '"' && c != '\\'
    case Short(b) => b in [34, 92, 47, 98, 102, 110, 114, 116]
    case Unicode(hex) => |hex| == 4 && forall i :: 0 <= i < 4 ==> IsHex(hex[i])
  }

  predicate Digits(s: seq<Byte>) { s != [] && forall i :: 0 <= i < |s| ==> IsDigit(s[i]) }

  /** Section 6 of RFC 8259. */
  predicate ValidNumber(n: NumberText) {
    && Digits(n.whole) && (n.whole[0] == 48 ==> |n.whole| == 1)
    && (n.fraction.Some? ==> Digits(n.fraction.value))
    && (n.exponent.Some? ==>
          var e := n.exponent.value;
          e.marker in [101, 69] && (e.sign.Some? ==> e.sign.value in [43, 45]) && Digits(e.digits))
  }

  function NumberBytes(n: NumberText): seq<Byte> {
    (if n.negative then [45] else []) + n.whole
    + (if n.fraction.Some? then [46] + n.fraction.value else [])
    + (if n.exponent.None? then []
       else
         [n.exponent.value.marker] + (if n.exponent.value.sign.Some? then [n.exponent.value.sign.value] else [])
         + n.exponent.value.digits)
  }

  predicate Gap(s: seq<Byte>) { forall i :: 0 <= i < |s| ==> s[i] in [32, 9, 10, 13] }

  /** `true`, `false` and `null`, and nothing else. */
  predicate IsWord(s: seq<Byte>) {
    s == [116, 114, 117, 101] || s == [102, 97, 108, 115, 101] || s == [110, 117, 108, 108]
  }

  predicate ValidPieces(s: seq<Piece>) { forall i :: 0 <= i < |s| ==> ValidPiece(s[i]) }

  predicate Valid(j: Json) {
    match j
    case Word(letters) => IsWord(letters)
    case Number(n) => ValidNumber(n)
    case Text(pieces) => ValidPieces(pieces)
    case Array(gap, items) => Gap(gap) && (items != [] ==> gap == []) && forall i :: 0 <= i < |items| ==>
      ValidPadded(items[i])
    case Object(gap, members) =>
      Gap(gap) && (members != [] ==> gap == []) && forall i :: 0 <= i < |members| ==> ValidMember(members[i])
  }

  predicate ValidPadded(p: Padded) { Gap(p.before) && Valid(p.value) && Gap(p.after) }

  predicate ValidMember(m: Member) { Gap(m.before) && ValidPieces(m.key) && Gap(m.between) && ValidPadded(m.value) }

  // ---- its tokens ----

  function Others(s: seq<Byte>): (t: seq<Token>)
    ensures |t| == |s| && forall i :: 0 <= i < |s| ==> t[i] == Other(s[i])
  {
    seq(|s|, i requires 0 <= i < |s| => Other(s[i]))
  }

  function PieceAtoms(p: Piece): seq<Atom> {
    match p
    case Plain(c) => Lits(Utf8(c))
    case Short(b) => [Esc(b)]
    case Unicode(hex) => [Esc(117)] + Lits(hex)
  }

  function Lits(s: seq<Byte>): (t: seq<Atom>)
    ensures |t| == |s| && forall i :: 0 <= i < |s| ==> t[i] == Lit(s[i])
  {
    seq(|s|, i requires 0 <= i < |s| => Lit(s[i]))
  }

  function Atoms(s: seq<Piece>): seq<Atom> { if s == [] then [] else PieceAtoms(s[0]) + Atoms(s[1..]) }

  function Tokens(j: Json): seq<Token> {
    match j
    case Word(letters) => Others(letters)
    case Number(n) => [Num(NumberBytes(n))]
    case Text(pieces) => [Quoted(Atoms(pieces))]
    case Array(gap, items) => [Other(91)] + ((if items == [] then Others(gap) else ItemTokens(items)) + [Other(93)])
    case Object(gap, members) =>
      [Other(123)] + ((if members == [] then Others(gap) else MembersTokens(members)) + [Other(125)])
  }

  function PaddedTokens(p: Padded): seq<Token> { Others(p.before) + (Tokens(p.value) + Others(p.after)) }

  function ItemTokens(items: seq<Padded>): seq<Token> {
    if items == [] then []
    else if |items| == 1 then PaddedTokens(items[0])
    else PaddedTokens(items[0]) + ([Other(44)] + ItemTokens(items[1..]))
  }

  function MemberTokens(m: Member): seq<Token> {
    Others(m.before) + ([Quoted(Atoms(m.key))] + (Others(m.between) + ([Other(58)] + PaddedTokens(m.value))))
  }

  function MembersTokens(members: seq<Member>): seq<Token> {
    if members == [] then []
    else if |members| == 1 then MemberTokens(members[0])
    else MemberTokens(members[0]) + ([Other(44)] + MembersTokens(members[1..]))
  }

  /** The number literals of a value, in document order; strings and keys have none. */
  function Numbers(j: Json): seq<seq<Byte>> {
    match j
    case Number(n) => [NumberBytes(n)]
    case Array(_, items) => ItemNumbers(items)
    case Object(_, members) => MemberNumbers(members)
    case _ => []
  }

  function ItemNumbers(items: seq<Padded>): seq<seq<Byte>> {
    if items == [] then [] else Numbers(items[0].value) + ItemNumbers(items[1..])
  }

  function MemberNumbers(members: seq<Member>): seq<seq<Byte>> {
    if members == [] then [] else Numbers(members[0].value.value) + MemberNumbers(members[1..])
  }

  // ---- the tokens are separated ----

  predicate Soft(tokens: seq<Token>) { tokens == [] || Ends(tokens[0]) }

  lemma Prepend(t: Token, rest: seq<Token>)
    requires ValidToken(t) && Separated(rest) && (t.Num? ==> Soft(rest))
    ensures Separated([t] + rest)
  {
    var all := [t] + rest;
    assert forall i :: 0 < i < |all| ==> all[i] == rest[i - 1];
  }

  lemma OthersFirst(s: seq<Byte>)
    requires s != []
    ensures Others(s) == [Other(s[0])] + Others(s[1..])
  {
  }

  /** Bytes that neither start a number nor open a string may stand anywhere; gaps may also follow a number. */
  lemma {:induction false} PrependOthers(s: seq<Byte>, rest: seq<Token>)
    requires Separated(rest) && forall i :: 0 <= i < |s| ==> s[i] != QUOTE && !StartsNumber(s[i])
    ensures Separated(Others(s) + rest)
    ensures Soft(rest) && Gap(s) ==> Soft(Others(s) + rest)
  {
    if s == [] {
      assert Others(s) + rest == rest;
    } else {
      PrependOthers(s[1..], rest);
      OthersFirst(s);
      PrependConcat(Other(s[0]), Others(s[1..]), rest);
      Prepend(Other(s[0]), Others(s[1..]) + rest);
    }
  }

  lemma NumberIsToken(n: NumberText)
    requires ValidNumber(n)
    ensures ValidToken(Num(NumberBytes(n)))
  {
    var text := NumberBytes(n);
    assert text[0] == if n.negative then 45 else n.whole[0];
  }

  lemma Utf8IsLiteral(c: char)
    requires c >= ' ' && c != '"' && c != '\\'
    ensures forall i :: 0 <= i < |Utf8(c)| ==> Utf8(c)[i] != QUOTE && Utf8(c)[i] != BACKSLASH
  {
  }

  lemma {:induction false} AtomsAreValid(s: seq<Piece>)
    requires ValidPieces(s)
    ensures forall i :: 0 <= i < |Atoms(s)| ==> ValidAtom(Atoms(s)[i])
  {
    if s != [] {
      AtomsAreValid(s[1..]);
      assert ValidPiece(s[0]);
      PieceIsValid(s[0]);
    }
  }

  lemma PieceIsValid(p: Piece)
    requires ValidPiece(p)
    ensures forall i :: 0 <= i < |PieceAtoms(p)| ==> ValidAtom(PieceAtoms(p)[i])
  {
    if p.Plain? { Utf8IsLiteral(p.c); }
  }

  /** Whatever soft text follows, a value's tokens keep number literals apart from their neighbours. */
  lemma {:induction false} ValueSeparated(j: Json, rest: seq<Token>)
    requires Valid(j) && Separated(rest) && Soft(rest)
    ensures Separated(Tokens(j) + rest)
    decreases j
  {
    match j
    case Word(letters) => PrependOthers(letters, rest);
    case Number(n) =>
      NumberIsToken(n);
      Prepend(Num(NumberBytes(n)), rest);
    case Text(pieces) =>
      AtomsAreValid(pieces);
      Prepend(Quoted(Atoms(pieces)), rest);
    case Array(gap, items) =>
      var close := [Other(93)] + rest;
      var inner := if items == [] then Others(gap) else ItemTokens(items);
      Prepend(Other(93), rest);
      if items == [] { PrependOthers(gap, close); } else { ItemsSeparated(items, close); }
      Prepend(Other(91), inner + close);
      Assoc([Other(91)], inner + [Other(93)], rest);
      Assoc(inner, [Other(93)], rest);
    case Object(gap, members) =>
      var close := [Other(125)] + rest;
      var inner := if members == [] then Others(gap) else MembersTokens(members);
      Prepend(Other(125), rest);
      if members == [] { PrependOthers(gap, close); } else { MembersSeparated(members, close); }
      Prepend(Other(123), inner + close);
      Assoc([Other(123)], inner + [Other(125)], rest);
      Assoc(inner, [Other(125)], rest);
  }

  lemma {:induction false} PaddedSeparated(p: Padded, rest: seq<Token>)
    requires ValidPadded(p) && Separated(rest) && Soft(rest)
    ensures Separated(PaddedTokens(p) + rest)
    decreases p
  {
    PrependOthers(p.after, rest);
    ValueSeparated(p.value, Others(p.after) + rest);
    PrependOthers(p.before, Tokens(p.value) + (Others(p.after) + rest));
    Assoc(Others(p.before), Tokens(p.value) + Others(p.after), rest);
    Assoc(Tokens(p.value), Others(p.after), rest);
  }

  lemma {:induction false} ItemsSeparated(items: seq<Padded>, rest: seq<Token>)
    requires (forall i :: 0 <= i < |items| ==> ValidPadded(items[i])) && Separated(rest) && Soft(rest)
    ensures Separated(ItemTokens(items) + rest)
    decreases items
  {
    if items == [] {
      assert ItemTokens(items) + rest == rest;
    } else if |items| == 1 {
      PaddedSeparated(items[0], rest);
    } else {
      var more := ItemTokens(items[1..]);
      ItemsSeparated(items[1..], rest);
      Prepend(Other(44), more + rest);
      PaddedSeparated(items[0], [Other(44)] + (more + rest));
      Assoc(PaddedTokens(items[0]), [Other(44)] + more, rest);
      Assoc([Other(44)], more, rest);
    }
  }

  lemma {:induction false} MemberSeparated(m: Member, rest: seq<Token>)
    requires ValidMember(m) && Separated(rest) && Soft(rest)
    ensures Separated(MemberTokens(m) + rest)
    decreases m
  {
    var value := PaddedTokens(m.value);
    PaddedSeparated(m.value, rest);
    Prepend(Other(58), value + rest);
    var colon := [Other(58)] + (value + rest);
    PrependOthers(m.between, colon);
    AtomsAreValid(m.key);
    var key := Quoted(Atoms(m.key));
    Prepend(key, Others(m.between) + colon);
    PrependOthers(m.before, [key] + (Others(m.between) + colon));
    Assoc(Others(m.before), [key] + (Others(m.between) + ([Other(58)] + value)), rest);
    Assoc([key], Others(m.between) + ([Other(58)] + value), rest);
    Assoc(Others(m.between), [Other(58)] + value, rest);
    Assoc([Other(58)], value, rest);
  }

  lemma {:induction false} MembersSeparated(members: seq<Member>, rest: seq<Token>)
    requires (forall i :: 0 <= i < |members| ==> ValidMember(members[i])) && Separated(rest) && Soft(rest)
    ensures Separated(MembersTokens(members) + rest)
    decreases members
  {
    if members == [] {
      assert MembersTokens(members) + rest == rest;
    } else if |members| == 1 {
      MemberSeparated(members[0], rest);
    } else {
      var more := MembersTokens(members[1..]);
      MembersSeparated(members[1..], rest);
      Prepend(Other(44), more + rest);
      MemberSeparated(members[0], [Other(44)] + (more + rest));
      Assoc(MemberTokens(members[0]), [Other(44)] + more, rest);
      Assoc([Other(44)], more, rest);
    }
  }

  // ---- the literal tokens are the value's numbers ----

  lemma {:induction false} NoLiterals(s: seq<Byte>)
    ensures Literals(Others(s)) == []
  {
    if s != [] {
      NoLiterals(s[1..]);
      assert Others(s)[1..] == Others(s[1..]);
    }
  }

  lemma Around(a: seq<Token>, b: seq<Token>, c: seq<Token>)
    ensures Literals(a + (b + c)) == Literals(a) + Literals(b) + Literals(c)
  {
    LiteralsConcat(a, b + c);
    LiteralsConcat(b, c);
  }

  lemma Enclosed(open: Byte, inner: seq<Token>, close: Byte)
    ensures Literals([Other(open)] + (inner + [Other(close)])) == Literals(inner)
  {
    NoLiterals([open]);
    NoLiterals([close]);
    assert Others([open]) == [Other(open)] && Others([close]) == [Other(close)];
    Around([Other(open)], inner, [Other(close)]);
  }

  lemma {:induction false} LiteralsOfValue(j: Json)
    ensures Literals(Tokens(j)) == Numbers(j)
    decreases j
  {
    match j
    case Word(letters) => NoLiterals(letters);
    case Number(n) => assert [Num(NumberBytes(n))][1..] == [];
    case Text(pieces) => assert [Quoted(Atoms(pieces))][1..] == [];
    case Array(gap, items) =>
      if items == [] { NoLiterals(gap); } else { LiteralsOfItems(items); }
      Enclosed(91, if items == [] then Others(gap) else ItemTokens(items), 93);
    case Object(gap, members) =>
      if members == [] { NoLiterals(gap); } else { LiteralsOfMembers(members); }
      Enclosed(123, if members == [] then Others(gap) else MembersTokens(members), 125);
  }

  lemma {:induction false} LiteralsOfPadded(p: Padded)
    ensures Literals(PaddedTokens(p)) == Numbers(p.value)
    decreases p
  {
    NoLiterals(p.before);
    NoLiterals(p.after);
    LiteralsOfValue(p.value);
    Around(Others(p.before), Tokens(p.value), Others(p.after));
  }

  lemma Comma()
    ensures Literals([Other(44)]) == []
  {
    NoLiterals([44]);
    assert Others([44]) == [Other(44)];
  }

  lemma {:induction false} LiteralsOfItems(items: seq<Padded>)
    ensures Literals(ItemTokens(items)) == ItemNumbers(items)
    decreases items
  {
    if items != [] {
      LiteralsOfPadded(items[0]);
      if |items| == 1 {
        assert items[1..] == [];
      } else {
        LiteralsOfItems(items[1..]);
        Comma();
        Around(PaddedTokens(items[0]), [Other(44)], ItemTokens(items[1..]));
      }
    }
  }

  lemma {:induction false} LiteralsOfMember(m: Member)
    ensures Literals(MemberTokens(m)) == Numbers(m.value.value)
    decreases m
  {
    var key, value := [Quoted(Atoms(m.key))], PaddedTokens(m.value);
    NoLiterals(m.before);
    NoLiterals(m.between);
    NoLiterals([58]);
    assert Others([58]) == [Other(58)] && key[1..] == [];
    LiteralsOfPadded(m.value);
    Around(Others(m.between), [Other(58)], value);
    Around(Others(m.before), key, Others(m.between) + ([Other(58)] + value));
  }

  lemma {:induction false} LiteralsOfMembers(members: seq<Member>)
    ensures Literals(MembersTokens(members)) == MemberNumbers(members)
    decreases members
  {
    if members != [] {
      LiteralsOfMember(members[0]);
      if |members| == 1 {
        assert members[1..] == [];
      } else {
        LiteralsOfMembers(members[1..]);
        Comma();
        Around(MemberTokens(members[0]), [Other(44)], MembersTokens(members[1..]));
      }
    }
  }
}
