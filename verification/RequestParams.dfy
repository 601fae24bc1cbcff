/** Reading authored request parameters: what is accepted, what it means, and where an error points. */
module RequestParams {
  import opened Common
  import opened JsonSyntax
  import opened StrictJson
  import opened JsonReading

  // ---- string meaning ----

  function HexValue(b: Byte): int { if IsDigit(b) then b - 48 else if b >= 97 then b - 87 else b - 55 }

  /** The UTF-16 code units a spelled character denotes; escapes and plain spellings of one character agree. */
  function Units(p: Piece): seq<int> {
    match p
    case Plain(c) =>
      var n := c as int;
      if n < 0x1_0000 then [n] else [0xD800 + (n - 0x1_0000) / 1024, 0xDC00 + (n - 0x1_0000) % 1024]
    case Short(b) =>
      [if b == 98 then 8 else if b == 102 then 12 else if b == 110 then 10 else if b == 114 then 13
      else if b == 116 then 9 else b]
    case Unicode(hex) => if |hex| != 4 then []
      else [((HexValue(hex[0]) * 16 + HexValue(hex[1])) * 16 + HexValue(hex[2])) * 16 + HexValue(hex[3])]
  }

  function Decode(s: seq<Piece>): seq<int> { if s == [] then [] else Units(s[0]) + Decode(s[1..]) }

  // ---- values ----

  datatype Value =
    | VWord(letters: seq<Byte>)
    | VNumber(number: NumberText)
    | VText(units: seq<int>)
    | VArray(items: seq<Value>)
    | VObject(fields: map<seq<int>, Value>)

  /** No object at any depth spells one key twice. */
  predicate UniqueKeys(j: Json) {
    match j
    case Array(_, items) => forall i :: 0 <= i < |items| ==> UniqueKeys(items[i].value)
    case Object(_, members) =>
      && (forall i, k :: 0 <= i < k < |members| ==> Decode(members[i].key) != Decode(members[k].key))
      && (forall i :: 0 <= i < |members| ==> UniqueKeys(members[i].value.value))
    case _ => true
  }

  /** What a value means, repeated keys aside (the last would win). */
  function Meaning(j: Json): Value {
    match j
    case Word(letters) => VWord(letters)
    case Number(n) => VNumber(n)
    case Text(pieces) => VText(Decode(pieces))
    case Array(_, items) => VArray(Meanings(items))
    case Object(_, members) => VObject(Fields(members))
  }

  function Meanings(items: seq<Padded>): seq<Value> {
    if items == [] then [] else Meanings(items[..|items| - 1]) + [Meaning(items[|items| - 1].value)]
  }

  function Fields(members: seq<Member>): map<seq<int>, Value> {
    if members == [] then map[]
    else Fields(members[..|members| - 1])[Decode(members[|members| - 1].key) :=
      Meaning(members[|members| - 1].value.value)]
  }

  lemma {:induction false} FieldKeys(members: seq<Member>)
    ensures forall k :: k in Fields(members) <==> exists i :: 0 <= i < |members| && Decode(members[i].key) == k
    decreases |members|
  {
    if members != [] {
      var init, last := members[..|members| - 1], members[|members| - 1];
      FieldKeys(init);
      forall k ensures k in Fields(members) <==> exists i :: 0 <= i < |members| && Decode(members[i].key) == k {
        if k in Fields(init) {
          var i :| 0 <= i < |init| && Decode(init[i].key) == k;
          assert members[i] == init[i];
        }
        if k == Decode(last.key) { assert Decode(members[|members| - 1].key) == k; }
        if i :| 0 <= i < |members| && Decode(members[i].key) == k && i < |members| - 1 { assert init[i] == members[i]; }
      }
    }
  }

  /** Member `i` spells a key some earlier member already spelled. */
  predicate Repeats(members: seq<Member>, i: nat)
    requires i < |members|
  {
    exists k :: 0 <= k < i && Decode(members[k].key) == Decode(members[i].key)
  }

  /** The members up to `i` are free of repetition, at this depth and below. */
  predicate UniqueUpTo(members: seq<Member>, i: nat)
    requires i <= |members|
  {
    i > 0 ==> !Repeats(members, i - 1) && UniqueKeys(members[i - 1].value.value) && UniqueUpTo(members, i - 1)
  }

  lemma {:induction false} UniqueBefore(members: seq<Member>, i: nat, k: nat)
    requires i < k <= |members| && UniqueUpTo(members, k)
    ensures !Repeats(members, i) && UniqueKeys(members[i].value.value)
    decreases k
  {
    if i < k - 1 { UniqueBefore(members, i, k - 1); }
  }

  lemma {:induction false} UniqueFrom(members: seq<Member>, k: nat)
    requires k <= |members| && forall i :: 0 <= i < k ==> !Repeats(members, i) && UniqueKeys(members[i].value.value)
    ensures UniqueUpTo(members, k)
  {
    if k > 0 { UniqueFrom(members, k - 1); }
  }

  /** A member that repeats, or repeats inside, refuses the whole. */
  lemma RefusedBy(members: seq<Member>, i: nat)
    requires i < |members| && (Repeats(members, i) || !UniqueKeys(members[i].value.value))
    ensures !UniqueUpTo(members, |members|)
  {
    if UniqueUpTo(members, |members|) { UniqueBefore(members, i, |members|); }
  }

  lemma InsertedExactlyIfRepeats(members: seq<Member>, i: nat)
    requires i < |members|
    ensures Decode(members[i].key) in Fields(members[..i]) <==> Repeats(members, i)
    ensures Fields(members[..i + 1]) == Fields(members[..i])[Decode(members[i].key) := Meaning(members[i].value.value)]
  {
    FieldKeys(members[..i]);
    assert members[..i + 1][..i] == members[..i];
    assert forall k :: 0 <= k < i ==> members[..i][k] == members[k];
  }

  lemma UniqueObject(gap: seq<Byte>, members: seq<Member>)
    ensures UniqueKeys(Object(gap, members)) <==> UniqueUpTo(members, |members|)
  {
    if UniqueUpTo(members, |members|) {
      forall k | 0 <= k < |members| ensures !Repeats(members, k) && UniqueKeys(members[k].value.value) {
        UniqueBefore(members, k, |members|);
      }
      forall i, k | 0 <= i < k < |members| ensures Decode(members[i].key) != Decode(members[k].key) {
        assert !Repeats(members, k);
      }
    } else if UniqueKeys(Object(gap, members)) {
      UniqueFrom(members, |members|);
    }
  }

  // ---- the strict visitor ----

  /** The shared flag that tells a repeated key from any other read error. */
  class Cell {
    var duplicate: bool

    constructor ()
      ensures !duplicate
    {
      duplicate := false;
    }
  }

  /** `StrictValue`: the value, or a refusal exactly when some key repeats at some depth. */
  method Visit(j: Json, cell: Cell) returns (value: Option<Value>)
    modifies cell
    ensures value.Some? <==> UniqueKeys(j)
    ensures value.Some? ==> value.value == Meaning(j)
    ensures cell.duplicate == (old(cell.duplicate) || value.None?)
    decreases j, 2
  {
    match j
    case Word(letters) => value := Some(VWord(letters));
    case Number(n) => value := Some(VNumber(n));
    case Text(pieces) => value := Some(VText(Decode(pieces)));
    case Array(_, items) => value := VisitSeq(j, cell);
    case Object(_, members) => value := VisitMap(j, cell);
  }

  method VisitSeq(j: Json, cell: Cell) returns (value: Option<Value>)
    requires j.Array?
    modifies cell
    ensures value.Some? <==> UniqueKeys(j)
    ensures value.Some? ==> value.value == Meaning(j)
    ensures cell.duplicate == (old(cell.duplicate) || value.None?)
    decreases j, 0
  {
    var values := [];
    for i := 0 to |j.items|
      invariant values == Meanings(j.items[..i]) && forall k :: 0 <= k < i ==> UniqueKeys(j.items[k].value)
      invariant cell.duplicate == old(cell.duplicate)
    {
      var next := Visit(j.items[i].value, cell);
      if next.None? { return None; }
      assert j.items[..i + 1][..i] == j.items[..i];
      values := values + [next.value];
    }
    assert j.items[..|j.items|] == j.items;
    value := Some(VArray(values));
  }

  /** `visit_map`: a key already inserted sets the flag and stops before its value is read. */
  method VisitMembers(j: Json, cell: Cell) returns (fields: Option<map<seq<int>, Value>>)
    requires j.Object?
    modifies cell
    ensures fields.Some? <==> UniqueUpTo(j.members, |j.members|)
    ensures fields.Some? ==> fields.value == Fields(j.members)
    ensures cell.duplicate == (old(cell.duplicate) || fields.None?)
    decreases j, 0
  {
    var members := j.members;
    var inserted: map<seq<int>, Value> := map[];
    for i := 0 to |members|
      invariant inserted == Fields(members[..i]) && UniqueUpTo(members, i) && cell.duplicate == old(cell.duplicate)
    {
      InsertedExactlyIfRepeats(members, i);
      if Decode(members[i].key) in inserted {
        RefusedBy(members, i);
        cell.duplicate := true;
        return None;
      }
      var next := Visit(members[i].value.value, cell);
      if next.None? {
        RefusedBy(members, i);
        return None;
      }
      inserted := inserted[Decode(members[i].key) := next.value];
    }
    assert members[..|members|] == members;
    fields := Some(inserted);
  }

  method VisitMap(j: Json, cell: Cell) returns (value: Option<Value>)
    requires j.Object?
    modifies cell
    ensures value.Some? <==> UniqueKeys(j)
    ensures value.Some? ==> value.value == Meaning(j)
    ensures cell.duplicate == (old(cell.duplicate) || value.None?)
    decreases j, 1
  {
    UniqueObject(j.gap, j.members);
    var fields := VisitMembers(j, cell);
    value := if fields.Some? then Some(VObject(fields.value)) else None;
  }

  // ---- locations ----

  /** One more than the newlines in `before`. */
  function Line(before: seq<Byte>): nat {
    if before == [] then 1 else Line(before[..|before| - 1]) + (if before[|before| - 1] == NEWLINE then 1 else 0)
  }

  /** One more than the bytes of `before` after its last newline. */
  function Column(before: seq<Byte>): (c: nat)
    ensures c >= 1
  {
    if before == [] then 1 else if before[|before| - 1] == NEWLINE then 1 else Column(before[..|before| - 1]) + 1
  }

  lemma {:induction false} LocationsAscend(text: seq<Byte>, i: nat, j: nat)
    requires i < j <= |text|
    ensures Line(text[..i]) < Line(text[..j])
            || (Line(text[..i]) == Line(text[..j]) && Column(text[..i]) < Column(text[..j]))
    decreases j
  {
    assert text[..j][..j - 1] == text[..j - 1];
    if i < j - 1 { LocationsAscend(text, i, j - 1); }
  }

  /** A reported line and column point at one byte of the text. */
  lemma LocationIdentifies(text: seq<Byte>, i: nat, j: nat)
    requires i <= |text| && j <= |text| && Line(text[..i]) == Line(text[..j]) && Column(text[..i]) == Column(text[..j])
    ensures i == j
  {
    if i < j { LocationsAscend(text, i, j); } else if j < i { LocationsAscend(text, j, i); }
  }

  // ---- the reader ----

  datatype ParseError = Syntax | DuplicateKey | NotObject | InexactNumber(line: nat, column: nat)

  /** The first literal some hop would round, and where it starts. */
  ghost predicate FirstInexact(text: seq<Byte>, tokens: seq<Token>, exact: seq<Byte> -> bool, i: nat, e: ParseError) {
    && i < |Literals(tokens)| && i < |Spans(tokens, 0)| && !exact(Literals(tokens)[i])
    && (forall k :: 0 <= k < i ==> exact(Literals(tokens)[k]))
    && Covers(text, Spans(tokens, 0)[i], Literals(tokens)[i])
    && e == InexactNumber(Line(text[..Spans(tokens, 0)[i].0]), Column(text[..Spans(tokens, 0)[i].0]))
  }

  lemma TextIsSeparated(p: Padded)
    requires ValidPadded(p)
    ensures Separated(PaddedTokens(p)) && Literals(PaddedTokens(p)) == Numbers(p.value)
  {
    PaddedSeparated(p, []);
    assert PaddedTokens(p) + [] == PaddedTokens(p);
    LiteralsOfPadded(p);
  }

  /** Every number of a document means the same at every hop. */
  predicate AllExact(j: Json, exact: seq<Byte> -> bool) { forall n :: n in Numbers(j) ==> exact(n) }

  /** What the reader accepts: one object, no repeated key at any depth, every number exact. */
  predicate Acceptable(p: Padded, exact: seq<Byte> -> bool) {
    p.value.Object? && UniqueKeys(p.value) && AllExact(p.value, exact)
  }

  /** The JSON parser's own answer: the document the text spells, unless it is none or beyond the parser's limits. */
  ghost predicate ParserReads(text: seq<Byte>, document: Option<Padded>, readable: Padded -> bool) {
    && (document.Some? ==> Spells(text, document.value) && readable(document.value))
    && (document.None? ==> forall p :: Spells(text, p) ==> !readable(p))
  }

  /** The scan for the first inexact literal. */
  method FindInexact(text: seq<Byte>, document: Padded, exact: seq<Byte> -> bool) returns (found: Option<ParseError>)
    requires Spells(text, document)
    ensures found.None? <==> AllExact(document.value, exact)
    ensures found.Some? ==> exists i :: FirstInexact(text, PaddedTokens(document), exact, i, found.value)
  {
    ghost var tokens := PaddedTokens(document);
    TextIsSeparated(document);
    var spans := NumberLiterals(text, tokens);
    SpansAreLiterals(tokens, 0);
    for i := 0 to |spans|
      invariant forall k :: 0 <= k < i ==> exact(Literals(tokens)[k])
    {
      SpansCoverLiterals(tokens, [], i);
      assert [] + Render(tokens) == text;
      var (start, end) := spans[i];
      if !exact(text[start..end]) {
        found := Some(InexactNumber(Line(text[..start]), Column(text[..start])));
        assert FirstInexact(text, tokens, exact, i, found.value);
        assert Literals(tokens)[i] in Numbers(document.value);
        return;
      }
    }
    found := None;
  }

  /** `parse_request_params_json`; `exact` decides one number literal. */
  method ParseRequestParams(text: seq<Byte>, document: Option<Padded>, exact: seq<Byte> -> bool,
        ghost readable: Padded -> bool)
      returns (result: Result<map<seq<int>, Value>, ParseError>)
    requires ParserReads(text, document, readable)
    ensures result.Ok? <==> exists p :: Spells(text, p) && readable(p) && Acceptable(p, exact)
    ensures result == Err(Syntax) <==> !exists p :: Spells(text, p) && readable(p)
    ensures forall p :: Spells(text, p) && readable(p) ==>
              && (result.Ok? ==> Meaning(p.value) == VObject(result.value))
              && (result == Err(DuplicateKey) <==> !UniqueKeys(p.value))
              && (result == Err(NotObject) <==> UniqueKeys(p.value) && !p.value.Object?)
              && (result.Err? && result.error.InexactNumber? ==>
                    exists i :: FirstInexact(text, PaddedTokens(p), exact, i, result.error))
  {
    if document.None? { return Err(Syntax); }
    OnlyDocument(text, document.value);
    var cell := new Cell();
    var value := Visit(document.value.value, cell);
    if value.None? { return Err(if cell.duplicate then DuplicateKey else Syntax); }
    if !value.value.VObject? { return Err(NotObject); }
    var inexact := FindInexact(text, document.value, exact);
    if inexact.Some? { return Err(inexact.value); }
    assert Acceptable(document.value, exact);
    result := Ok(value.value.fields);
  }

  lemma OnlyDocument(text: seq<Byte>, p: Padded)
    requires Spells(text, p)
    ensures forall q :: Spells(text, q) ==> q == p
  {
    forall q | Spells(text, q) ensures q == p {
      DocumentIsUnique(text, p, q);
    }
  }
}
