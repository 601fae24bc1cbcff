/** JSON text as bytes (RFC 8259), and the scanner that finds its number literals. */
module JsonSyntax {

  /** Byte values; nothing below depends on their upper bound. */
  type Byte = int

  const QUOTE: Byte := 34
  const BACKSLASH: Byte := 92
  const NEWLINE: Byte := 10

  predicate IsDigit(b: Byte) { 48 <= b <= 57 }

  predicate IsHex(b: Byte) { IsDigit(b) || 65 <= b <= 70 || 97 <= b <= 102 }

  /** `-` or a digit. */
  predicate StartsNumber(b: Byte) { b == 45 || IsDigit(b) }

  /** Digits, `-`, `+`, `.`, `e` and `E`. */
  predicate InNumber(b: Byte) { IsDigit(b) || b == 45 || b == 43 || b == 46 || b == 101 || b == 69 }

  // ---- tokens ----

  /** One step inside a string: a byte that is neither quote nor backslash, or a backslash with what it escapes. */
  datatype Atom = Lit(b: Byte) | Esc(b: Byte)

  datatype Token = Other(b: Byte) | Num(text: seq<Byte>) | Quoted(body: seq<Atom>)

  function AtomBytes(a: Atom): (s: seq<Byte>)
    ensures |s| == if a.Lit? then 1 else 2
  {
    if a.Lit? then [a.b] else [BACKSLASH, a.b]
  }

  function BodyBytes(body: seq<Atom>): seq<Byte> {
    if body == [] then [] else AtomBytes(body[0]) + BodyBytes(body[1..])
  }

  function TokenBytes(t: Token): seq<Byte> {
    match t
    case Other(b) => [b]
    case Num(text) => text
    case Quoted(body) => [QUOTE] + BodyBytes(body) + [QUOTE]
  }

  predicate ValidAtom(a: Atom) { a.Lit? ==> a.b != QUOTE && a.b != BACKSLASH }

  predicate ValidToken(t: Token) {
    match t
    case Other(b) => b != QUOTE && !StartsNumber(b)
    case Num(text) => text != [] && StartsNumber(text[0]) && forall i :: 0 <= i < |text| ==> InNumber(text[i])
    case Quoted(body) => forall i :: 0 <= i < |body| ==> ValidAtom(body[i])
  }

  /** What may stand after a number: something whose first byte cannot extend it. */
  predicate Ends(t: Token) { !t.Num? && (t.Other? ==> !InNumber(t.b)) }

  predicate Separated(tokens: seq<Token>) {
    && (forall i :: 0 <= i < |tokens| ==> ValidToken(tokens[i]))
    && (forall i :: 0 <= i < |tokens| - 1 && tokens[i].Num? ==> Ends(tokens[i + 1]))
  }

  function Render(tokens: seq<Token>): seq<Byte> {
    if tokens == [] then [] else TokenBytes(tokens[0]) + Render(tokens[1..])
  }

  /** Where the number tokens are, in text that starts at offset `at`. */
  function Spans(tokens: seq<Token>, at: nat): seq<(nat, nat)> {
    if tokens == [] then []
    else
      var rest := Spans(tokens[1..], at + |TokenBytes(tokens[0])|);
      if tokens[0].Num? then [(at, at + |TokenBytes(tokens[0])|)] + rest else rest
  }

  /** What they say. */
  function Literals(tokens: seq<Token>): seq<seq<Byte>> {
    if tokens == [] then []
    else if tokens[0].Num? then [tokens[0].text] + Literals(tokens[1..]) else Literals(tokens[1..])
  }

  lemma {:induction false} LiteralsConcat(a: seq<Token>, b: seq<Token>)
    ensures Literals(a + b) == Literals(a) + Literals(b)
  {
    if a == [] {
      assert a + b == b;
    } else {
      assert (a + b)[1..] == a[1..] + b;
      LiteralsConcat(a[1..], b);
    }
  }

  lemma {:induction false} SpansAreLiterals(tokens: seq<Token>, at: nat)
    ensures |Spans(tokens, at)| == |Literals(tokens)|
  {
    if tokens != [] { SpansAreLiterals(tokens[1..], at + |TokenBytes(tokens[0])|); }
  }

  /** `span` is in bounds of `text` and covers exactly `literal`. */
  predicate Covers(text: seq<Byte>, span: (nat, nat), literal: seq<Byte>) {
    span.0 <= span.1 <= |text| && text[span.0..span.1] == literal
  }

  lemma Between(before: seq<Byte>, bytes: seq<Byte>, after: seq<Byte>)
    ensures before + (bytes + after) == (before + bytes) + after
    ensures (before + (bytes + after))[|before|..|before| + |bytes|] == bytes
  {
  }

  /** A span that is not the first token's own is a span of the rest. */
  lemma SpanOfRest(tokens: seq<Token>, at: nat, i: nat) returns (k: nat)
    requires i < |Spans(tokens, at)| && !(tokens[0].Num? && i == 0)
    ensures var next := at + |TokenBytes(tokens[0])|;
            && k < |Spans(tokens[1..], next)| && Spans(tokens, at)[i] == Spans(tokens[1..], next)[k]
            && (k < |Literals(tokens[1..])| ==>
                  i < |Literals(tokens)| && Literals(tokens)[i] == Literals(tokens[1..])[k])
  {
    k := if tokens[0].Num? then i - 1 else i;
  }

  /** Every span covers its literal, counted from wherever the tokens start. */
  lemma {:induction false} SpansCoverLiterals(tokens: seq<Token>, before: seq<Byte>, i: nat)
    requires i < |Spans(tokens, |before|)|
    ensures i < |Literals(tokens)| && |before| <= Spans(tokens, |before|)[i].0
    ensures Covers(before + Render(tokens), Spans(tokens, |before|)[i], Literals(tokens)[i])
    decreases |tokens|
  {
    var bytes, rest := TokenBytes(tokens[0]), tokens[1..];
    Between(before, bytes, Render(rest));
    if !(tokens[0].Num? && i == 0) {
      var k := SpanOfRest(tokens, |before|, i);
      SpansCoverLiterals(rest, before + bytes, k);
    }
  }

  /** Spans ascend without overlap. */
  lemma {:induction false} SpansAscend(tokens: seq<Token>, at: nat, i: nat)
    requires 0 < i < |Spans(tokens, at)|
    ensures Spans(tokens, at)[i - 1].1 <= Spans(tokens, at)[i].0
    decreases |tokens|
  {
    var size, rest := |TokenBytes(tokens[0])|, tokens[1..];
    if !tokens[0].Num? {
      SpansAscend(rest, at + size, i);
    } else if i == 1 {
      SpansStart(rest, at + size, 0);
    } else {
      SpansAscend(rest, at + size, i - 1);
    }
  }

  lemma {:induction false} SpansStart(tokens: seq<Token>, at: nat, i: nat)
    requires i < |Spans(tokens, at)|
    ensures at <= Spans(tokens, at)[i].0
    decreases |tokens|
  {
    var size, rest := |TokenBytes(tokens[0])|, tokens[1..];
    if tokens[0].Num? {
      if i > 0 { SpansStart(rest, at + size, i - 1); }
    } else {
      SpansStart(rest, at + size, i);
    }
  }

  // ---- the scanner ----

  /** The string scan stands at `at`, with `left` and the closing quote still ahead, ending at `end`. */
  predicate InString(bytes: seq<Byte>, at: int, left: seq<Atom>, end: int) {
    && 0 <= at < |bytes| && (forall i :: 0 <= i < |left| ==> ValidAtom(left[i]))
    && BodyBytes(left) + [QUOTE] <= bytes[at..] && at + |BodyBytes(left)| == end
  }

  lemma StringStep(bytes: seq<Byte>, at: int, left: seq<Atom>, end: int)
    requires InString(bytes, at, left, end)
    ensures bytes[at] == QUOTE <==> left == []
    ensures left != [] ==> InString(bytes, at + (if bytes[at] == BACKSLASH then 2 else 1), left[1..], end)
  {
    StringByte(bytes[at..], left);
    if left != [] {
      var size := |AtomBytes(left[0])|;
      assert bytes[at..][size..] == bytes[at + size..];
      StringByte(bytes[at + size..], left[1..]);
    }
  }

  /** The scan of one string from just after its opening quote: it stops past the closing quote, escapes included. */
  method SkipString(bytes: seq<Byte>, start: nat, ghost body: seq<Atom>) returns (at: nat)
    requires InString(bytes, start, body, start + |BodyBytes(body)|)
    ensures at == start + |BodyBytes(body)| + 1 <= |bytes|
  {
    at := start;
    ghost var left, end := body, start + |BodyBytes(body)|;
    while bytes[at] != QUOTE
      invariant InString(bytes, at, left, end)
      decreases |left|
    {
      StringStep(bytes, at, left, end);
      at := at + (if bytes[at] == BACKSLASH then 2 else 1);
      left := left[1..];
    }
    StringStep(bytes, at, left, end);
    at := at + 1;
  }

  /** The first byte of what is left of a string decides how far the scan moves. */
  lemma StringByte(text: seq<Byte>, left: seq<Atom>)
    requires (forall i :: 0 <= i < |left| ==> ValidAtom(left[i])) && BodyBytes(left) + [QUOTE] <= text
    ensures text != [] && (text[0] == QUOTE <==> left == [])
    ensures left != [] ==> |AtomBytes(left[0])| == (if text[0] == BACKSLASH then 2 else 1) <= |text|
    ensures left != [] ==> BodyBytes(left[1..]) + [QUOTE] <= text[|AtomBytes(left[0])|..]
  {
    var prefix := BodyBytes(left) + [QUOTE];
    assert text[0] == prefix[0];
    if left != [] {
      assert prefix == AtomBytes(left[0]) + (BodyBytes(left[1..]) + [QUOTE]);
      SamePrefix(AtomBytes(left[0]), BodyBytes(left[1..]) + [QUOTE], text);
    }
  }

  lemma SamePrefix(a: seq<Byte>, b: seq<Byte>, text: seq<Byte>)
    requires a + b <= text
    ensures a <= text && b <= text[|a|..]
  {
    assert a == (a + b)[..|a|] == text[..|a|];
    assert b == (a + b)[|a|..] == text[|a|..|a| + |b|];
  }

  /** Maximal munch over the number alphabet. */
  method SkipNumber(bytes: seq<Byte>, start: nat, ghost length: nat) returns (at: nat)
    requires start + length <= |bytes| && forall i :: start <= i < start + length ==> InNumber(bytes[i])
    requires start + length < |bytes| ==> !InNumber(bytes[start + length])
    ensures at == start + length
  {
    at := start;
    while at < |bytes| && InNumber(bytes[at])
      invariant start <= at <= start + length
    {
      at := at + 1;
    }
  }

  /** One arm of the scanner's match: past one token, reporting it when it is a number. */
  method ScanToken(bytes: seq<Byte>, at: nat, ghost token: Token) returns (next: nat, number: bool)
    requires ValidToken(token) && at < |bytes| && TokenBytes(token) <= bytes[at..]
    requires token.Num? && at + |token.text| < |bytes| ==> !InNumber(bytes[at + |token.text|])
    ensures next == at + |TokenBytes(token)| <= |bytes| && number == token.Num?
  {
    number := false;
    assert TokenBytes(token)[0] == bytes[at..][0] == bytes[at];
    if bytes[at] == QUOTE {
      SamePrefix([QUOTE], BodyBytes(token.body) + [QUOTE], bytes[at..]) by {
        assert TokenBytes(token) == [QUOTE] + (BodyBytes(token.body) + [QUOTE]);
      }
      assert bytes[at..][1..] == bytes[at + 1..];
      assert InString(bytes, at + 1, token.body, at + 1 + |BodyBytes(token.body)|);
      next := SkipString(bytes, at + 1, token.body);
    } else if StartsNumber(bytes[at]) {
      assert forall i :: at <= i < at + |token.text| ==> bytes[i] == token.text[i - at];
      next := SkipNumber(bytes, at, |token.text|);
      number := true;
    } else {
      next := at + 1;
    }
  }

  /** What the rest of the text tells the scanner about its first token. */
  lemma NextToken(text: seq<Byte>, tokens: seq<Token>)
    requires Separated(tokens) && tokens != [] && text == Render(tokens)
    ensures text != [] && TokenBytes(tokens[0]) <= text && text[|TokenBytes(tokens[0])|..] == Render(tokens[1..])
    ensures tokens[0].Num? && |tokens[0].text| < |text| ==> !InNumber(text[|tokens[0].text|])
  {
    var first, rest := TokenBytes(tokens[0]), tokens[1..];
    assert ValidToken(tokens[0]);
    if tokens[0].Num? && rest != [] {
      assert ValidToken(tokens[1]) && Ends(tokens[1]) && rest[0] == tokens[1];
      assert Render(rest)[0] == TokenBytes(tokens[1])[0];
      assert text[|first|] == Render(rest)[0];
    }
  }

  lemma RestOfText(bytes: seq<Byte>, at: nat, left: seq<Token>)
    requires Separated(left) && left != [] && at < |bytes| && bytes[at..] == Render(left)
    ensures ValidToken(left[0]) && Separated(left[1..])
    ensures at + |TokenBytes(left[0])| <= |bytes| && bytes[at + |TokenBytes(left[0])|..] == Render(left[1..])
  {
    NextToken(bytes[at..], left);
    assert bytes[at..][|TokenBytes(left[0])|..] == bytes[at + |TokenBytes(left[0])|..];
  }

  lemma AppendSpan(spans: seq<(nat, nat)>, left: seq<Token>, at: nat)
    requires left != []
    ensures var next := at + |TokenBytes(left[0])|;
            spans + Spans(left, at) == (if left[0].Num? then spans + [(at, next)] else spans) + Spans(left[1..], next)
  {
  }

  lemma TextEndsWithTokens(left: seq<Token>)
    requires Separated(left)
    ensures Render(left) == [] <==> left == []
  {
    if left != [] {
      assert ValidToken(left[0]);
      assert |Render(left)| >= |TokenBytes(left[0])| > 0;
    }
  }

  /** The scan has passed everything but `left`, which starts at `at`. */
  predicate Scanned(bytes: seq<Byte>, all: seq<(nat, nat)>, spans: seq<(nat, nat)>, left: seq<Token>, at: int) {
    0 <= at <= |bytes| && Separated(left) && bytes[at..] == Render(left) && all == spans + Spans(left, at)
  }

  lemma ScanStep(bytes: seq<Byte>, all: seq<(nat, nat)>, spans: seq<(nat, nat)>, left: seq<Token>, at: int)
    requires Scanned(bytes, all, spans, left, at)
    ensures at < |bytes| <==> left != []
    ensures at < |bytes| ==>
              && ValidToken(left[0]) && TokenBytes(left[0]) <= bytes[at..]
              && (left[0].Num? && at + |left[0].text| < |bytes| ==> !InNumber(bytes[at + |left[0].text|]))
              && var next := at + |TokenBytes(left[0])|;
              Scanned(bytes, all, if left[0].Num? then spans + [(at, next)] else spans, left[1..], next)
  {
    TextEndsWithTokens(left);
    if at < |bytes| {
      NextToken(bytes[at..], left);
      RestOfText(bytes, at, left);
      AppendSpan(spans, left, at);
    }
  }

  lemma ScanStart(bytes: seq<Byte>, tokens: seq<Token>) returns (all: seq<(nat, nat)>)
    requires Separated(tokens) && Render(tokens) == bytes
    ensures all == Spans(tokens, 0) && Scanned(bytes, all, [], tokens, 0)
  {
    all := Spans(tokens, 0);
    assert [] + all == all;
  }

  lemma ScanEnd(bytes: seq<Byte>, all: seq<(nat, nat)>, spans: seq<(nat, nat)>, left: seq<Token>, at: int)
    requires Scanned(bytes, all, spans, left, at) && at >= |bytes|
    ensures spans == all
  {
    TextEndsWithTokens(left);
    assert spans + [] == spans;
  }

  /** One turn of the scanner's loop. */
  method Advance(bytes: seq<Byte>, ghost all: seq<(nat, nat)>, before: seq<(nat, nat)>, ghost left: seq<Token>, at: nat)
      returns (ghost rest: seq<Token>, next: nat, spans: seq<(nat, nat)>)
    requires Scanned(bytes, all, before, left, at) && at < |bytes|
    ensures at < next && Scanned(bytes, all, spans, rest, next)
  {
    ScanStep(bytes, all, before, left, at);
    var number;
    next, number := ScanToken(bytes, at, left[0]);
    spans := if number then before + [(at, next)] else before;
    rest := left[1..];
  }

  /**
   * `number_literals` on already valid JSON text: every index is in bounds, and
   * the spans are exactly the number tokens, in order.
   */
  method NumberLiterals(bytes: seq<Byte>, ghost tokens: seq<Token>) returns (spans: seq<(nat, nat)>)
    requires Separated(tokens) && Render(tokens) == bytes
    ensures spans == Spans(tokens, 0)
  {
    var at := 0;
    spans := [];
    ghost var all := ScanStart(bytes, tokens);
    ghost var left := tokens;
    while at < |bytes|
      invariant Scanned(bytes, all, spans, left, at)
      decreases |bytes| - at
    {
      left, at, spans := Advance(bytes, all, spans, left, at);
    }
    ScanEnd(bytes, all, spans, left, at);
  }
}
