/** Folding live content advancements into the loaded blocks, foreground tools and content bindings. */
module ContentAdvance {
  import opened Common
  import opened Decimal
  import opened Text
  import opened ContentIdentity
  import opened BoundedHead

  const INLINE_BYTES := 16384

  datatype Kind = Prose | Reasoning | Refusal | Arguments | Unknown

  /** `body` is a block's text, or a tool call's arguments. */
  datatype Block = Block(kind: Kind, block_index: nat, body: string)

  datatype Tool = Tool(message_id: string, block_index: nat, arguments: string)

  datatype Binding = Binding(content_ref: ContentRef, deferred: bool)

  datatype InFlight = InFlight(message_id: string, blocks: seq<Block>)

  datatype Attempt = Attempt(attempt_id: string, in_flight: Option<InFlight>, foreground: seq<Tool>)

  /** The loaded snapshot with its side table of content frontiers. */
  datatype State = State(conversation_id: string, attempt: Option<Attempt>, bindings: map<string, Binding>)

  datatype Advancement = Advancement(
    position: nat, attempt_id: string, message_id: string, block_index: nat, kind: Kind,
    base: int, end: int, content_revision: int, inline_delta: Option<string>, content_ref: ContentRef)

  function Representation(kind: Kind): string { if kind.Arguments? then "raw_json_utf8" else "utf8_text" }

  predicate SourceMatches(s: State, e: Advancement) {
    var source := e.content_ref.source;
    && e.content_ref.conversation_id == s.conversation_id && source.LivePublicationPrefix?
    && source.component == "payload" && source.attempt_id == e.attempt_id && source.message_id == e.message_id
    && source.block_index == e.block_index && e.content_ref.version == 1
    && e.content_ref.representation == Representation(e.kind)
  }

  predicate SameStream(a: Source, b: Source)
    requires a.LivePublicationPrefix? && b.LivePublicationPrefix?
  {
    a.stream_id == b.stream_id && a.turn_id == b.turn_id && a.publication_request_id == b.publication_request_id
  }

  /** No binding of the same message belongs to another publication. */
  predicate SamePublication(s: State, e: Advancement)
    requires e.content_ref.source.LivePublicationPrefix?
  {
    forall k :: k in s.bindings ==>
      var source := s.bindings[k].content_ref.source;
      source.LivePublicationPrefix? && source.message_id == e.message_id ==> SameStream(source, e.content_ref.source)
  }

  predicate Continues(previous: ContentRef, e: Advancement) {
    && ContentSourceKey(previous) == ContentSourceKey(e.content_ref)
    && previous.readable_end == e.base && previous.content_revision < e.content_ref.content_revision
  }

  predicate ValidFrontier(e: Advancement) {
    && e.content_ref.content_revision == e.content_revision && 0 <= e.base <= MAX_SAFE_INTEGER
      && e.end <= MAX_SAFE_INTEGER
    && e.content_ref.readable_end == e.end && e.base <= e.end
  }

  function FindBlock(blocks: seq<Block>, index: nat): (found: Option<Block>)
    ensures found.Some? ==> found.value in blocks && found.value.block_index == index
    ensures found.None? ==> forall b :: b in blocks ==> b.block_index != index
  {
    if blocks == [] then None else if blocks[0].block_index == index then Some(blocks[0])
      else FindBlock(blocks[1..], index)
  }

  function FindTool(tools: seq<Tool>, message: string, index: nat): (found: Option<Tool>)
    ensures found.Some? ==>
              found.value in tools && found.value.message_id == message && found.value.block_index == index
    ensures found.None? ==> forall t :: t in tools ==> !(t.message_id == message && t.block_index == index)
  {
    if tools == [] then None
    else if tools[0].message_id == message && tools[0].block_index == index then Some(tools[0])
    else FindTool(tools[1..], message, index)
  }

  function WithArguments(tools: seq<Tool>, message: string, index: nat, body: string): (next: seq<Tool>)
    ensures |next| == |tools|
    ensures forall i :: 0 <= i < |tools| ==>
      next[i] == if tools[i].message_id == message && tools[i].block_index == index then tools[i].(arguments := body)
        else tools[i]
  {
    seq(|tools|, i requires 0 <= i < |tools| =>
      if tools[i].message_id == message && tools[i].block_index == index then tools[i].(arguments := body)
        else tools[i])
  }

  const BLOCK_KEY: Block -> string := (b: Block) => NatText(b.block_index)

  /** What is loaded before the advancement. */
  function LoadedText(existing: Option<Block>, tool: Option<Tool>): string {
    if existing.Some? then existing.value.body else if tool.Some? then tool.value.arguments else ""
  }

  /** The new text, when the prefix is loaded, the delta is inline and the result stays within the bound. */
  function Inline(text: string, e: Advancement): string {
    if ByteLength(text) == e.base && e.inline_delta.Some? && ByteLength(text + e.inline_delta.value) <= INLINE_BYTES
    then text + e.inline_delta.value else ""
  }

  /** The guards in source order, up to the point where the text is computed. */
  predicate Accepted(s: State, e: Advancement) {
    && !e.kind.Unknown? && SourceMatches(s, e) && SamePublication(s, e)
    && var key := ContentSourceKey(e.content_ref);
    && (key in s.bindings ==> Continues(s.bindings[key].content_ref, e))
    && s.attempt.Some? && s.attempt.value.in_flight.Some?
    && s.attempt.value.attempt_id == e.attempt_id && s.attempt.value.in_flight.value.message_id == e.message_id
    && (key !in s.bindings ==>
          e.position < HEAD || FindTool(s.attempt.value.foreground, e.message_id, e.block_index).Some? ==> e.base == 0)
    && ValidFrontier(e)
    && var existing := FindBlock(s.attempt.value.in_flight.value.blocks, e.block_index);
    !(e.position < HEAD && e.kind.Arguments? && !(existing.Some? && existing.value.kind.Arguments?))
  }

  /** The `block_content_advanced` branch of `foldRuntimeEvent`; `None` is a thrown error. */
  function Advance(s: State, e: Advancement): Option<State> {
    if !Accepted(s, e) then None
    else
      var attempt := s.attempt.value;
      var flight := attempt.in_flight.value;
      var key := ContentSourceKey(e.content_ref);
      var existing, tool := FindBlock(flight.blocks, e.block_index),
        FindTool(attempt.foreground, e.message_id, e.block_index);
      var inline := Inline(LoadedText(existing, tool), e);
      var blocks := if e.position < HEAD
        then Place(flight.blocks, Block(e.kind, e.block_index, inline), e.position, BLOCK_KEY).value
                    else flight.blocks;
      var foreground := if e.kind.Arguments? then WithArguments(attempt.foreground, e.message_id, e.block_index, inline)
        else attempt.foreground;
      var bindings := if e.position < HEAD || tool.Some?
                      then s.bindings[key := Binding(e.content_ref, ByteLength(inline) != e.end)] else s.bindings;
      Some(State(s.conversation_id,
        Some(Attempt(attempt.attempt_id, Some(InFlight(flight.message_id, blocks)), foreground)), bindings))
  }

  // ---- the native publication behind the events ----

  /** Each block has one native position and kind, and each publication source one complete text. */
  datatype Native = Native(position: (string, nat) -> nat, kind: (string, nat) -> Kind, text: Source -> string)

  /** `delta` is the piece of `text` between two byte offsets that fall between characters. */
  predicate Piece(text: string, delta: string, base: int, end: int, i: nat) {
    && i + |delta| <= |text| && text[i..i + |delta|] == delta
    && ByteLength(text[..i]) == base && ByteLength(text[..i + |delta|]) == end
  }

  ghost predicate Honest(native: Native, e: Advancement) {
    && e.position == native.position(e.message_id, e.block_index)
    && e.kind == native.kind(e.message_id, e.block_index)
    && (e.inline_delta.Some? ==>
      exists i :: Piece(native.text(e.content_ref.source), e.inline_delta.value, e.base, e.end, i))
  }

  // ---- the invariant ----

  /** Exactly the source prefix through the frontier, or nothing and marked deferred. */
  predicate Shown(body: string, binding: Binding, native: Native) {
    if binding.deferred then body == "" && binding.content_ref.readable_end > 0
    else
      && body <= native.text(binding.content_ref.source)
      && ByteLength(body) == binding.content_ref.readable_end <= INLINE_BYTES
  }

  predicate Owns(binding: Binding, message: string, index: nat) {
    var source := binding.content_ref.source;
    source.LivePublicationPrefix? && source.message_id == message && source.block_index == index
  }

  /** A displayed body agrees with the binding of its block, and is empty before there is one. */
  predicate Agrees(bindings: map<string, Binding>, native: Native, message: string, index: nat, body: string) {
    && (forall k :: k in bindings && Owns(bindings[k], message, index) ==> Shown(body, bindings[k], native))
    && ((forall k :: k in bindings ==> !Owns(bindings[k], message, index)) ==> body == "")
  }

  predicate WellBound(s: State, native: Native, k: string)
    requires k in s.bindings
  {
    var ref := s.bindings[k].content_ref;
    var source := ref.source;
    && k == ContentSourceKey(ref) && ref.conversation_id == s.conversation_id && source.LivePublicationPrefix?
    && source.component == "payload" && ref.version == 1
    && ref.representation == Representation(native.kind(source.message_id, source.block_index))
    && (s.bindings[k].deferred ==> ref.readable_end > 0)
  }

  predicate BindingsInv(s: State, native: Native) { forall k :: k in s.bindings ==> WellBound(s, native, k) }

  /** All bindings of the message in flight belong to its attempt and to one publication. */
  predicate OnePublication(s: State, attempt: string, message: string) {
    && (forall k :: k in s.bindings && Of(s.bindings[k], message) ==>
      s.bindings[k].content_ref.source.attempt_id == attempt)
    && (forall j, k ::
          j in s.bindings && k in s.bindings && Of(s.bindings[j], message) && Of(s.bindings[k], message) ==>
          SameStream(s.bindings[j].content_ref.source, s.bindings[k].content_ref.source))
  }

  predicate Of(binding: Binding, message: string) {
    binding.content_ref.source.LivePublicationPrefix? && binding.content_ref.source.message_id == message
  }

  predicate BlocksInv(bindings: map<string, Binding>, native: Native, message: string, blocks: seq<Block>) {
    forall b :: b in blocks ==>
      && native.position(message, b.block_index) < HEAD && b.kind == native.kind(message, b.block_index)
      && Agrees(bindings, native, message, b.block_index, b.body)
  }

  predicate ToolsInv(bindings: map<string, Binding>, native: Native, message: string, tools: seq<Tool>) {
    forall t :: t in tools && t.message_id == message ==>
      native.kind(message, t.block_index).Arguments? && Agrees(bindings, native, message, t.block_index, t.arguments)
  }

  predicate Inv(s: State, native: Native) {
    && BindingsInv(s, native)
    && (s.attempt.Some? && s.attempt.value.in_flight.Some? ==>
          var attempt, message := s.attempt.value, s.attempt.value.in_flight.value.message_id;
          && OnePublication(s, attempt.attempt_id, message)
          && BlocksInv(s.bindings, native, message, attempt.in_flight.value.blocks)
          && ToolsInv(s.bindings, native, message, attempt.foreground))
  }

  // ---- one advancement ----

  /** A binding of the advanced block is the one under the event's own key. */
  lemma OwnerKey(s: State, native: Native, e: Advancement, k: string)
    requires Inv(s, native) && Accepted(s, e) && Honest(native, e)
    requires k in s.bindings && Owns(s.bindings[k], e.message_id, e.block_index)
    ensures k == ContentSourceKey(e.content_ref) && s.bindings[k].content_ref.source == e.content_ref.source
  {
    var ref := s.bindings[k].content_ref;
    assert WellBound(s, native, k);
    assert ref.source == e.content_ref.source;
    assert ref.(content_revision := 0, readable_end := 0) == e.content_ref.(content_revision := 0, readable_end := 0);
    SourceKeyExact(ref, e.content_ref);
  }

  /** The loaded text is what the previous frontier shows: empty, or its exact prefix. */
  lemma LoadedAgrees(s: State, native: Native, e: Advancement)
    requires Inv(s, native) && Accepted(s, e) && Honest(native, e)
    ensures var attempt := s.attempt.value;
            var text := LoadedText(FindBlock(attempt.in_flight.value.blocks, e.block_index),
              FindTool(attempt.foreground, e.message_id, e.block_index));
            text == "" || Agrees(s.bindings, native, e.message_id, e.block_index, text)
  {
  }

  /** Loaded means: the text is the source prefix of `base` bytes. */
  lemma LoadedIsPrefix(s: State, native: Native, e: Advancement, text: string)
    requires Inv(s, native) && Accepted(s, e) && Honest(native, e)
    requires text == "" || Agrees(s.bindings, native, e.message_id, e.block_index, text)
    requires ByteLength(text) == e.base
    ensures text <= native.text(e.content_ref.source)
  {
    if text != "" {
      var k :| k in s.bindings && Owns(s.bindings[k], e.message_id, e.block_index);
      OwnerKey(s, native, e, k);
      assert Shown(text, s.bindings[k], native);
    }
  }

  /** Appending an honest inline piece to its exact prefix gives the longer exact prefix. */
  lemma PieceExtends(full: string, text: string, delta: string, base: int, end: int, i: nat)
    requires text <= full && ByteLength(text) == base && Piece(full, delta, base, end, i)
    ensures text + delta <= full && ByteLength(text + delta) == end
  {
    assert text == full[..|text|];
    if |text| <= i { PrefixByBytes(full, |text|, i); } else { PrefixByBytes(full, i, |text|); }
    assert full[..i + |delta|] == full[..i] + full[i..i + |delta|];
  }

  /** The new text and its binding agree. */
  lemma InlineShown(s: State, native: Native, e: Advancement)
    requires Inv(s, native) && Accepted(s, e) && Honest(native, e)
    ensures var attempt := s.attempt.value;
            var text := LoadedText(FindBlock(attempt.in_flight.value.blocks, e.block_index),
              FindTool(attempt.foreground, e.message_id, e.block_index));
            Shown(Inline(text, e), Binding(e.content_ref, ByteLength(Inline(text, e)) != e.end), native)
  {
    var attempt := s.attempt.value;
    var text := LoadedText(FindBlock(attempt.in_flight.value.blocks, e.block_index),
      FindTool(attempt.foreground, e.message_id, e.block_index));
    LoadedAgrees(s, native, e);
    if ByteLength(text) == e.base && e.inline_delta.Some? {
      LoadedIsPrefix(s, native, e, text);
      var i :| Piece(native.text(e.content_ref.source), e.inline_delta.value, e.base, e.end, i);
      PieceExtends(native.text(e.content_ref.source), text, e.inline_delta.value, e.base, e.end, i);
    }
  }

  /** After the update, the event's binding is the only one of its block. */
  lemma UpdatedAgrees(s: State, native: Native, e: Advancement, binding: Binding, body: string)
    requires Inv(s, native) && Accepted(s, e) && Honest(native, e)
    requires binding.content_ref == e.content_ref && Shown(body, binding, native)
    ensures Agrees(s.bindings[ContentSourceKey(e.content_ref) := binding], native, e.message_id, e.block_index, body)
  {
    var key := ContentSourceKey(e.content_ref);
    var next := s.bindings[key := binding];
    assert Owns(next[key], e.message_id, e.block_index);
    forall k | k in next && Owns(next[k], e.message_id, e.block_index) ensures Shown(body, next[k], native) {
      if k != key { OwnerKey(s, native, e, k); }
    }
  }

  /** Other blocks are untouched by the update. */
  lemma OthersAgree(s: State, native: Native, e: Advancement, binding: Binding, index: nat, body: string)
    requires Inv(s, native) && Accepted(s, e) && binding.content_ref == e.content_ref && index != e.block_index
    requires Agrees(s.bindings, native, e.message_id, index, body)
    ensures Agrees(s.bindings[ContentSourceKey(e.content_ref) := binding], native, e.message_id, index, body)
  {
    var key := ContentSourceKey(e.content_ref);
    var next := s.bindings[key := binding];
    assert !Owns(next[key], e.message_id, index);
    assert key in s.bindings ==> !Owns(s.bindings[key], e.message_id, index) by {
      if key in s.bindings { SourceKeyExact(s.bindings[key].content_ref, e.content_ref); }
    }
    forall k | k in s.bindings && Owns(s.bindings[k], e.message_id, index)
      ensures k in next && Owns(next[k], e.message_id, index)
    {
    }
  }

  /** The event's own binding is well bound. */
  lemma EventIsWellBound(s: State, native: Native, e: Advancement, binding: Binding)
    requires BindingsInv(s, native) && SourceMatches(s, e) && Honest(native, e)
    requires binding.content_ref == e.content_ref && (binding.deferred ==> e.content_ref.readable_end > 0)
    ensures BindingsInv(s.(bindings := s.bindings[ContentSourceKey(e.content_ref) := binding]), native)
  {
    var next := s.(bindings := s.bindings[ContentSourceKey(e.content_ref) := binding]);
    forall k | k in next.bindings ensures WellBound(next, native, k) {
      if k in s.bindings { assert WellBound(s, native, k); }
    }
  }

  lemma PublicationStays(s: State, e: Advancement, binding: Binding)
    requires OnePublication(s, e.attempt_id, e.message_id) && SourceMatches(s, e) && SamePublication(s, e)
    requires binding.content_ref == e.content_ref
    ensures OnePublication(s.(bindings := s.bindings[ContentSourceKey(e.content_ref) := binding]), e.attempt_id,
            e.message_id)
  {
  }

  lemma BindingsStay(s: State, native: Native, e: Advancement)
    requires Inv(s, native) && Accepted(s, e) && Honest(native, e)
    ensures var next := Advance(s, e).value;
            BindingsInv(next, native) && OnePublication(next, e.attempt_id, e.message_id)
  {
    InlineShown(s, native, e);
    var next, key := Advance(s, e).value, ContentSourceKey(e.content_ref);
    if key in next.bindings && next.bindings == s.bindings[key := next.bindings[key]]
      && next.bindings[key].content_ref == e.content_ref {
      EventIsWellBound(s, native, e, next.bindings[key]);
      PublicationStays(s, e, next.bindings[key]);
    }
    assert BindingsInv(s, native);
  }

  lemma BlocksStay(s: State, native: Native, e: Advancement)
    requires Inv(s, native) && Accepted(s, e) && Honest(native, e)
    ensures var next := Advance(s, e).value;
            BlocksInv(next.bindings, native, e.message_id, next.attempt.value.in_flight.value.blocks)
  {
    var next := Advance(s, e).value;
    var attempt := s.attempt.value;
    var blocks := attempt.in_flight.value.blocks;
    var existing, tool := FindBlock(blocks, e.block_index), FindTool(attempt.foreground, e.message_id, e.block_index);
    var inline := Inline(LoadedText(existing, tool), e);
    var binding := Binding(e.content_ref, ByteLength(inline) != e.end);
    var value := Block(e.kind, e.block_index, inline);
    InlineShown(s, native, e);
    UpdatedAgrees(s, native, e, binding, inline);
    if e.position < HEAD {
      PlaceMembers(blocks, value, e.position, BLOCK_KEY);
    }
    forall b | b in next.attempt.value.in_flight.value.blocks && b != value
      ensures b in blocks && b.block_index != e.block_index
    {
      assert b.block_index == e.block_index ==> BLOCK_KEY(b) == BLOCK_KEY(value);
    }
    forall b | b in next.attempt.value.in_flight.value.blocks && b != value && next.bindings != s.bindings
      ensures Agrees(next.bindings, native, e.message_id, b.block_index, b.body)
    {
      OthersAgree(s, native, e, binding, b.block_index, b.body);
    }
  }

  lemma ToolsStay(s: State, native: Native, e: Advancement)
    requires Inv(s, native) && Accepted(s, e) && Honest(native, e)
    ensures var next := Advance(s, e).value;
            ToolsInv(next.bindings, native, e.message_id, next.attempt.value.foreground)
  {
    var next := Advance(s, e).value;
    var attempt := s.attempt.value;
    var existing, tool := FindBlock(attempt.in_flight.value.blocks, e.block_index),
      FindTool(attempt.foreground, e.message_id, e.block_index);
    var inline := Inline(LoadedText(existing, tool), e);
    var binding := Binding(e.content_ref, ByteLength(inline) != e.end);
    InlineShown(s, native, e);
    UpdatedAgrees(s, native, e, binding, inline);
    var tools := next.attempt.value.foreground;
    forall t | t in tools && t.message_id == e.message_id
      ensures native.kind(e.message_id, t.block_index).Arguments?
              && Agrees(next.bindings, native, e.message_id, t.block_index, t.arguments)
    {
      var i :| 0 <= i < |tools| && tools[i] == t;
      var before := attempt.foreground[i];
      assert before in attempt.foreground && before.message_id == e.message_id && before.block_index == t.block_index;
      if t.block_index != e.block_index && next.bindings != s.bindings {
        OthersAgree(s, native, e, binding, t.block_index, t.arguments);
      }
    }
  }

  /** Every accepted honest advancement keeps every loaded text exact or deferred. */
  lemma AdvanceKeepsInv(s: State, native: Native, e: Advancement)
    requires Inv(s, native) && Honest(native, e) && Advance(s, e).Some?
    ensures Inv(Advance(s, e).value, native)
  {
    BindingsStay(s, native, e);
    BlocksStay(s, native, e);
    ToolsStay(s, native, e);
  }

  /** Frontiers never move back, revisions only grow, and a deferred source stays deferred. */
  predicate Forward(before: map<string, Binding>, after: map<string, Binding>) {
    forall k :: k in before ==>
      && k in after
      && before[k].content_ref.readable_end <= after[k].content_ref.readable_end
      && (after[k] == before[k] || before[k].content_ref.content_revision < after[k].content_ref.content_revision)
      && (before[k].deferred ==> after[k].deferred)
  }

  /** A source whose text was once deferred stays deferred: the delta starts past the text that is shown. */
  lemma DeferredStays(s: State, native: Native, e: Advancement)
    requires Inv(s, native) && Honest(native, e) && Accepted(s, e)
    requires ContentSourceKey(e.content_ref) in s.bindings && s.bindings[ContentSourceKey(e.content_ref)].deferred
    ensures var attempt := s.attempt.value;
            var existing := FindBlock(attempt.in_flight.value.blocks, e.block_index);
            var tool := FindTool(attempt.foreground, e.message_id, e.block_index);
            ByteLength(Inline(LoadedText(existing, tool), e)) != e.end
  {
    var key := ContentSourceKey(e.content_ref);
    LoadedAgrees(s, native, e);
    SourceKeyExact(s.bindings[key].content_ref, e.content_ref);
    assert WellBound(s, native, key) && Owns(s.bindings[key], e.message_id, e.block_index);
  }

  /** One binding moves forward, the others stay. */
  lemma ReboundIsForward(before: map<string, Binding>, key: string, binding: Binding)
    requires key in before ==>
      && before[key].content_ref.readable_end <= binding.content_ref.readable_end
      && before[key].content_ref.content_revision < binding.content_ref.content_revision
      && (before[key].deferred ==> binding.deferred)
    ensures Forward(before, before[key := binding])
  {
  }

  lemma AdvanceIsForward(s: State, native: Native, e: Advancement)
    requires Inv(s, native) && Honest(native, e) && Advance(s, e).Some?
    ensures Forward(s.bindings, Advance(s, e).value.bindings)
  {
    var key := ContentSourceKey(e.content_ref);
    if key in s.bindings && s.bindings[key].deferred { DeferredStays(s, native, e); }
    var next := Advance(s, e).value.bindings;
    if next != s.bindings { ReboundIsForward(s.bindings, key, next[key]); }
  }

  // ---- whole runs ----

  datatype Step =
    | MessageStarted(attempt_id: string, message_id: string, loaded: bool)
    | ToolStarted(attempt_id: string, message_id: string, block_index: nat, position: int, foreground_position: int)
    | ToolAssembled(attempt_id: string, message_id: string, block_index: nat, arguments_json: string)
    | Advanced(event: Advancement)

  const TOOL_KEY: Tool -> string := (t: Tool) => NatText(t.block_index)

  /** `assistant_message_started`; `loaded` is whether that message is already among the loaded ones. */
  function StartMessage(s: State, attempt_id: string, message_id: string, loaded: bool): State {
    if !loaded && s.attempt.Some? && s.attempt.value.attempt_id == attempt_id
    then s.(attempt := Some(Attempt(attempt_id, Some(InFlight(message_id, [])), []))) else s
  }

  /** `tool_call_started`: an empty block and an empty foreground slot, each at its native position. */
  function StartTool(s: State, step: Step): Option<State>
    requires step.ToolStarted?
  {
    if s.attempt.None? || s.attempt.value.in_flight.None?
      || s.attempt.value.in_flight.value.message_id != step.message_id then Some(s)
    else
      var attempt, flight := s.attempt.value, s.attempt.value.in_flight.value;
      var blocks := if attempt.attempt_id == step.attempt_id
                    then Place(flight.blocks, Block(Arguments, step.block_index, ""), step.position, BLOCK_KEY)
                      else Some(flight.blocks);
      var tools := Place(attempt.foreground, Tool(step.message_id, step.block_index, ""), step.foreground_position,
        TOOL_KEY);
      if blocks.None? || tools.None? then None
      else Some(s.(attempt :=
        Some(Attempt(attempt.attempt_id, Some(InFlight(flight.message_id, blocks.value)), tools.value))))
  }

  function WithCall(blocks: seq<Block>, index: nat, text: string): (next: seq<Block>)
    ensures |next| == |blocks|
    ensures forall i :: 0 <= i < |blocks| ==>
      next[i] == if blocks[i].kind.Arguments? && blocks[i].block_index == index then blocks[i].(body := text)
        else blocks[i]
  {
    seq(|blocks|, i requires 0 <= i < |blocks| =>
      if blocks[i].kind.Arguments? && blocks[i].block_index == index then blocks[i].(body := text) else blocks[i])
  }

  /** `tool_call_assembled`: the block's and the foreground slot's arguments become the carried text. */
  function AssembleTool(s: State, step: Step): State
    requires step.ToolAssembled?
  {
    if s.attempt.None? || s.attempt.value.in_flight.None?
      || s.attempt.value.in_flight.value.message_id != step.message_id then s
    else
      var attempt, flight := s.attempt.value, s.attempt.value.in_flight.value;
      var blocks := if attempt.attempt_id == step.attempt_id
                    then WithCall(flight.blocks, step.block_index, step.arguments_json) else flight.blocks;
      var tools := WithArguments(attempt.foreground, step.message_id, step.block_index, step.arguments_json);
      s.(attempt := Some(Attempt(attempt.attempt_id, Some(InFlight(flight.message_id, blocks)), tools)))
  }

  function FindCall(blocks: seq<Block>, index: nat): (found: Option<Block>)
    ensures found.Some? ==> found.value in blocks && found.value.block_index == index
    ensures found.None? ==> forall b :: b in blocks && b.kind.Arguments? ==> b.block_index != index
  {
    if blocks == [] then None
    else if blocks[0].kind.Arguments? && blocks[0].block_index == index then Some(blocks[0])
    else FindCall(blocks[1..], index)
  }

  /**
   * What the authority carries: the arguments its own copy has loaded, or nothing unless their
   * length is that of the frontier.
   */
  function AssembledText(s: State, message: string, index: nat): string
    requires s.attempt.Some? && s.attempt.value.in_flight.Some?
  {
    var attempt := s.attempt.value;
    var call, tool := FindCall(attempt.in_flight.value.blocks, index), FindTool(attempt.foreground, message, index);
    var text := LoadedText(call, tool);
    if forall k :: k in s.bindings && Owns(s.bindings[k], message, index) ==>
         s.bindings[k].content_ref.readable_end == ByteLength(text)
    then text else ""
  }

  function Apply(s: State, step: Step): Option<State> {
    match step
    case MessageStarted(attempt, message, loaded) => Some(StartMessage(s, attempt, message, loaded))
    case ToolStarted(_, _, _, _, _) => StartTool(s, step)
    case ToolAssembled(_, _, _, _) => Some(AssembleTool(s, step))
    case Advanced(e) => Advance(s, e)
  }

  /** A message or tool call starts before its own content advances. */
  ghost predicate HonestStep(s: State, native: Native, step: Step) {
    match step
    case MessageStarted(_, message, loaded) => loaded || forall k :: k in s.bindings ==> !Of(s.bindings[k], message)
    case ToolStarted(_, message, index, position, _) =>
      && native.kind(message, index).Arguments? && position == native.position(message, index)
      && forall k :: k in s.bindings ==> !Owns(s.bindings[k], message, index)
    case ToolAssembled(_, message, index, text) =>
      s.attempt.Some? && s.attempt.value.in_flight.Some? && s.attempt.value.in_flight.value.message_id == message ==>
        text == AssembledText(s, message, index)
    case Advanced(e) => Honest(native, e)
  }

  lemma ToolStartKeepsInv(s: State, native: Native, step: Step)
    requires step.ToolStarted? && Inv(s, native) && HonestStep(s, native, step) && StartTool(s, step).Some?
    ensures Inv(StartTool(s, step).value, native)
  {
    if s.attempt.Some? && s.attempt.value.in_flight.Some?
      && s.attempt.value.in_flight.value.message_id == step.message_id {
      var attempt := s.attempt.value;
      var blocks := attempt.in_flight.value.blocks;
      if step.position < HEAD {
        PlaceMembers(blocks, Block(Arguments, step.block_index, ""), step.position, BLOCK_KEY);
      }
      if step.foreground_position < HEAD {
        PlaceMembers(attempt.foreground, Tool(step.message_id, step.block_index, ""), step.foreground_position,
          TOOL_KEY);
      }
      assert Agrees(s.bindings, native, step.message_id, step.block_index, "");
    }
  }

  /** Two texts shown under one binding are one text. */
  lemma ShownIsUnique(a: string, b: string, binding: Binding, native: Native)
    requires Shown(a, binding, native) && Shown(b, binding, native)
    ensures a == b
  {
    if !binding.deferred {
      var full := native.text(binding.content_ref.source);
      assert a == full[..|a|] && b == full[..|b|];
      if |a| <= |b| { PrefixByBytes(full, |a|, |b|); } else { PrefixByBytes(full, |b|, |a|); }
    }
  }

  lemma AgreeingIsUnique(bindings: map<string, Binding>, native: Native, message: string, index: nat, a: string,
        b: string)
    requires Agrees(bindings, native, message, index, a) && Agrees(bindings, native, message, index, b)
    ensures a == b
  {
    if k :| k in bindings && Owns(bindings[k], message, index) { ShownIsUnique(a, b, bindings[k], native); }
  }

  /** The carried text is the one shown for the call. */
  lemma AssembledAgrees(s: State, native: Native, message: string, index: nat, body: string)
    requires Inv(s, native) && s.attempt.Some? && s.attempt.value.in_flight.Some?
    requires s.attempt.value.in_flight.value.message_id == message && Agrees(s.bindings, native, message, index, body)
    requires var attempt := s.attempt.value;
             var call := FindCall(attempt.in_flight.value.blocks, index);
             call.Some? || FindTool(attempt.foreground, message, index).Some?
    ensures AssembledText(s, message, index) == body
  {
    var attempt := s.attempt.value;
    var call, tool := FindCall(attempt.in_flight.value.blocks, index), FindTool(attempt.foreground, message, index);
    var text := LoadedText(call, tool);
    assert Agrees(s.bindings, native, message, index, text);
    AgreeingIsUnique(s.bindings, native, message, index, text, body);
  }

  /** On a copy that has folded what the authority has, assembly changes nothing that is displayed. */
  lemma AssemblyIsNoNews(s: State, native: Native, step: Step)
    requires step.ToolAssembled? && Inv(s, native) && HonestStep(s, native, step)
    ensures AssembleTool(s, step) == s
  {
    if s.attempt.Some? && s.attempt.value.in_flight.Some?
      && s.attempt.value.in_flight.value.message_id == step.message_id {
      var attempt, flight := s.attempt.value, s.attempt.value.in_flight.value;
      forall i | 0 <= i < |flight.blocks|
        ensures WithCall(flight.blocks, step.block_index, step.arguments_json)[i] == flight.blocks[i]
      {
        var b := flight.blocks[i];
        assert b in flight.blocks;
        if b.kind.Arguments? && b.block_index == step.block_index {
          AssembledAgrees(s, native, step.message_id, step.block_index, b.body);
        }
      }
      assert WithCall(flight.blocks, step.block_index, step.arguments_json) == flight.blocks;
      var tools := WithArguments(attempt.foreground, step.message_id, step.block_index, step.arguments_json);
      forall i | 0 <= i < |tools| ensures tools[i] == attempt.foreground[i] {
        var t := attempt.foreground[i];
        assert t in attempt.foreground;
        if t.message_id == step.message_id && t.block_index == step.block_index {
          AssembledAgrees(s, native, step.message_id, step.block_index, t.arguments);
        }
      }
      assert tools == attempt.foreground;
    }
  }

  lemma AssemblyKeepsInv(s: State, native: Native, step: Step)
    requires step.ToolAssembled? && Inv(s, native) && HonestStep(s, native, step)
    ensures Inv(AssembleTool(s, step), native) && AssembleTool(s, step).bindings == s.bindings
  {
    AssemblyIsNoNews(s, native, step);
  }

  /** Once the frontier has reached the end of its source, what is assembled is deferred or the complete source. */
  lemma AssembledIsComplete(s: State, native: Native, step: Step, k: string, t: Tool)
    requires step.ToolAssembled? && Inv(s, native) && HonestStep(s, native, step)
    requires s.attempt.Some? && s.attempt.value.in_flight.Some?
    requires s.attempt.value.in_flight.value.message_id == step.message_id
    requires k in s.bindings && Owns(s.bindings[k], step.message_id, step.block_index)
    requires t in s.attempt.value.foreground && t.message_id == step.message_id && t.block_index == step.block_index
    requires var ref := s.bindings[k].content_ref; ref.readable_end == ByteLength(native.text(ref.source))
    ensures if s.bindings[k].deferred then step.arguments_json == ""
            else step.arguments_json == native.text(s.bindings[k].content_ref.source)
  {
    assert FindTool(s.attempt.value.foreground, step.message_id, step.block_index).Some?;
    AssembledAgrees(s, native, step.message_id, step.block_index, t.arguments);
    assert Shown(t.arguments, s.bindings[k], native);
    if !s.bindings[k].deferred {
      var full := native.text(s.bindings[k].content_ref.source);
      assert full[..|full|] == full && t.arguments == full[..|t.arguments|];
      PrefixByBytes(full, |t.arguments|, |full|);
    }
  }

  lemma StepKeepsInv(s: State, native: Native, step: Step)
    requires Inv(s, native) && HonestStep(s, native, step) && Apply(s, step).Some?
    ensures Inv(Apply(s, step).value, native) && Forward(s.bindings, Apply(s, step).value.bindings)
  {
    match step
    case MessageStarted(attempt, message, loaded) =>
      var next := StartMessage(s, attempt, message, loaded);
      assert forall k :: k in s.bindings ==> WellBound(s, native, k);
      assert forall k :: k in next.bindings ==> WellBound(next, native, k);
    case ToolStarted(_, _, _, _, _) =>
      ToolStartKeepsInv(s, native, step);
    case ToolAssembled(_, _, _, _) =>
      AssemblyKeepsInv(s, native, step);
    case Advanced(e) =>
      AdvanceKeepsInv(s, native, e);
      AdvanceIsForward(s, native, e);
  }

  ghost predicate Run(s: State, native: Native, steps: seq<Step>, t: State)
    decreases |steps|
  {
    if steps == [] then s == t
    else
      && HonestStep(s, native, steps[0]) && Apply(s, steps[0]).Some?
      && Run(Apply(s, steps[0]).value, native, steps[1..], t)
  }

  /** Over every run, every loaded text is its exact source prefix or empty and deferred, and frontiers only advance. */
  lemma {:induction false} RunIsFaithful(s: State, native: Native, steps: seq<Step>, t: State)
    requires Inv(s, native) && Run(s, native, steps, t)
    ensures Inv(t, native) && Forward(s.bindings, t.bindings)
    decreases |steps|
  {
    if steps != [] {
      StepKeepsInv(s, native, steps[0]);
      RunIsFaithful(Apply(s, steps[0]).value, native, steps[1..], t);
    }
  }

  function FreshAttempt(conversation: string, attempt: string): State {
    State(conversation, Some(Attempt(attempt, None, [])), map[])
  }

  /**
   * From a fresh attempt: what is displayed for a bound block is its source through the
   * frontier, or nothing and deferred.
   */
  lemma DisplayedTextIsExact(conversation: string, attempt: string, native: Native, steps: seq<Step>, t: State,
        b: Block, k: string)
    requires Run(FreshAttempt(conversation, attempt), native, steps, t)
    requires t.attempt.Some? && t.attempt.value.in_flight.Some? && b in t.attempt.value.in_flight.value.blocks
    requires k in t.bindings && Owns(t.bindings[k], t.attempt.value.in_flight.value.message_id, b.block_index)
    ensures var ref := t.bindings[k].content_ref; var full := native.text(ref.source);
            || (t.bindings[k].deferred && b.body == "" && ref.readable_end > 0)
            || (!t.bindings[k].deferred && b.body <= full && ByteLength(b.body) == ref.readable_end <= INLINE_BYTES)
  {
    RunIsFaithful(FreshAttempt(conversation, attempt), native, steps, t);
  }

  // ---- each event exactly ----

  /** The text loaded before the advancement. */
  function Before(s: State, e: Advancement): string
    requires s.attempt.Some? && s.attempt.value.in_flight.Some?
  {
    LoadedText(FindBlock(s.attempt.value.in_flight.value.blocks, e.block_index),
               FindTool(s.attempt.value.foreground, e.message_id, e.block_index))
  }

  predicate Holds(s: State, e: Advancement)
    requires s.attempt.Some? && s.attempt.value.in_flight.Some?
  {
    || FindBlock(s.attempt.value.in_flight.value.blocks, e.block_index).Some?
    || FindTool(s.attempt.value.foreground, e.message_id, e.block_index).Some?
  }

  /** The prefix the event builds on is loaded exactly when it is empty, or shown and not deferred. */
  lemma LoadedExactly(s: State, native: Native, e: Advancement)
    requires Inv(s, native) && Accepted(s, e) && Honest(native, e)
    requires e.position < HEAD || FindTool(s.attempt.value.foreground, e.message_id, e.block_index).Some?
    ensures var key := ContentSourceKey(e.content_ref);
            ByteLength(Before(s, e)) == e.base <==>
            e.base == 0 || (key in s.bindings && !s.bindings[key].deferred && Holds(s, e))
  {
    var key := ContentSourceKey(e.content_ref);
    LoadedAgrees(s, native, e);
    if key in s.bindings {
      SourceKeyExact(s.bindings[key].content_ref, e.content_ref);
      assert WellBound(s, native, key) && Owns(s.bindings[key], e.message_id, e.block_index);
      HeldAgrees(s, native, e);
    } else if Before(s, e) != "" {
      var k :| k in s.bindings && Owns(s.bindings[k], e.message_id, e.block_index);
      OwnerKey(s, native, e, k);
    }
    PositiveLength(Before(s, e));
  }

  lemma PositiveLength(text: string)
    ensures ByteLength(text) == 0 <==> text == ""
  {
  }

  lemma HeldAgrees(s: State, native: Native, e: Advancement)
    requires Inv(s, native) && Accepted(s, e) && Honest(native, e)
    ensures Holds(s, e) ==> Agrees(s.bindings, native, e.message_id, e.block_index, Before(s, e))
    ensures !Holds(s, e) ==> Before(s, e) == ""
  {
  }

  /**
   * After the event the source is displayed through the new frontier, and not deferred, exactly when
   * its prefix was loaded, the delta came inline and the whole is at most 16384 bytes.
   */
  lemma ShownExactly(s: State, native: Native, e: Advancement)
    requires Inv(s, native) && Accepted(s, e) && Honest(native, e)
    ensures var inline := Inline(Before(s, e), e);
            && (ByteLength(inline) == e.end && inline <= native.text(e.content_ref.source) <==>
                  e.end == 0 || (ByteLength(Before(s, e)) == e.base && e.inline_delta.Some? && e.end <= 16384))
            && (ByteLength(inline) != e.end ==> inline == "")
  {
    InlineShown(s, native, e);
    LoadedAgrees(s, native, e);
    var text := Before(s, e);
    if ByteLength(text) == e.base && e.inline_delta.Some? {
      LoadedIsPrefix(s, native, e, text);
      var i :| Piece(native.text(e.content_ref.source), e.inline_delta.value, e.base, e.end, i);
      PieceExtends(native.text(e.content_ref.source), text, e.inline_delta.value, e.base, e.end, i);
    }
    PositiveLength(Inline(text, e));
  }

  lemma FindPlaced(blocks: seq<Block>, value: Block, position: nat)
    requires position < HEAD
    ensures Place(blocks, value, position, BLOCK_KEY).Some?
    ensures FindBlock(Place(blocks, value, position, BLOCK_KEY).value, value.block_index) == Some(value)
  {
    PlaceMembers(blocks, value, position, BLOCK_KEY);
    var next := Place(blocks, value, position, BLOCK_KEY).value;
    var found := FindBlock(next, value.block_index);
    assert value in next;
    assert BLOCK_KEY(found.value) == BLOCK_KEY(value);
  }

  lemma {:induction false} FindWritten(tools: seq<Tool>, message: string, index: nat, body: string)
    ensures FindTool(WithArguments(tools, message, index, body), message, index) ==
            match FindTool(tools, message, index)
            case None => None
            case Some(t) => Some(t.(arguments := body))
  {
    if tools != [] {
      FindWritten(tools[1..], message, index, body);
      assert WithArguments(tools, message, index, body)[1..] == WithArguments(tools[1..], message, index, body);
    }
  }

  /** What an accepted advancement leaves: the block in the head, the tool's arguments, and the one new binding. */
  lemma AdvanceExactly(s: State, e: Advancement)
    requires Accepted(s, e)
    ensures Advance(s, e).Some?
    ensures var next, inline := Advance(s, e).value, Inline(Before(s, e), e);
            var before, after := s.attempt.value, next.attempt.value;
            var tool := FindTool(before.foreground, e.message_id, e.block_index);
            && next.conversation_id == s.conversation_id && after.attempt_id == before.attempt_id
            && after.in_flight.Some? && after.in_flight.value.message_id == before.in_flight.value.message_id
            && (e.position < 32 ==>
                  FindBlock(after.in_flight.value.blocks, e.block_index) == Some(Block(e.kind, e.block_index, inline)))
            && (e.position >= 32 ==> after.in_flight.value.blocks == before.in_flight.value.blocks)
            && FindTool(after.foreground, e.message_id, e.block_index) ==
               (if e.kind == Arguments && tool.Some? then Some(tool.value.(arguments := inline)) else tool)
            && next.bindings ==
               (if e.position < 32 || tool.Some?
                then s.bindings[ContentSourceKey(e.content_ref) := Binding(e.content_ref, ByteLength(inline) != e.end)]
                else s.bindings)
  {
    if e.position < HEAD {
      var blocks := s.attempt.value.in_flight.value.blocks;
      FindPlaced(blocks, Block(e.kind, e.block_index, Inline(Before(s, e), e)), e.position);
    }
    FindWritten(s.attempt.value.foreground, e.message_id, e.block_index, Inline(Before(s, e), e));
  }

  /** The reference an advancement must carry: this conversation's live payload of its block, at its frontier. */
  predicate RefIs(s: State, e: Advancement) {
    var ref := e.content_ref;
    && ref.source.LivePublicationPrefix?
    && (ref.conversation_id, ref.version, ref.content_revision, ref.readable_end) ==
       (s.conversation_id, 1, e.content_revision, e.end)
    && ref.representation == (if e.kind == Arguments then "raw_json_utf8" else "utf8_text")
    && (ref.source.component, ref.source.attempt_id, ref.source.message_id, ref.source.block_index) ==
       ("payload", e.attempt_id, e.message_id, e.block_index)
  }

  /** It continues its own binding, or starts at zero where it is going to be displayed. */
  predicate Extends(s: State, e: Advancement)
    requires s.attempt.Some?
  {
    var key := ContentSourceKey(e.content_ref);
    if key in s.bindings then
      && s.bindings[key].content_ref.readable_end == e.base
      && s.bindings[key].content_ref.content_revision < e.content_revision
    else
      e.base == 0 || (e.position >= 32 && FindTool(s.attempt.value.foreground, e.message_id, e.block_index).None?)
  }

  /** An advancement is accepted exactly when all of these hold; otherwise the fold throws. */
  lemma AcceptedExactly(s: State, native: Native, e: Advancement)
    requires BindingsInv(s, native)
    ensures Advance(s, e).Some? <==>
            && e.kind != Unknown && RefIs(s, e)
            && s.attempt.Some? && s.attempt.value.attempt_id == e.attempt_id && s.attempt.value.in_flight.Some?
            && s.attempt.value.in_flight.value.message_id == e.message_id
            && (forall k :: k in s.bindings && Of(s.bindings[k], e.message_id) ==>
                  SameStream(s.bindings[k].content_ref.source, e.content_ref.source))
            && Extends(s, e) && 0 <= e.base <= e.end < 0x20_0000_0000_0000
            && (e.position < 32 && e.kind == Arguments ==>
                  var block := FindBlock(s.attempt.value.in_flight.value.blocks, e.block_index);
                  block.Some? && block.value.kind == Arguments)
  {
    var key := ContentSourceKey(e.content_ref);
    if key in s.bindings { assert WellBound(s, native, key); }
  }

  /** Starting a message clears what was in flight; loaded already, or of another attempt, it changes nothing. */
  lemma MessageStartExactly(s: State, attempt_id: string, message_id: string, loaded: bool)
    ensures var next := StartMessage(s, attempt_id, message_id, loaded);
            && next.conversation_id == s.conversation_id && next.bindings == s.bindings
            && (if !loaded && s.attempt.Some? && s.attempt.value.attempt_id == attempt_id
                then next.attempt == Some(Attempt(attempt_id, Some(InFlight(message_id, [])), []))
                else next == s)
  {
  }

  /** Starting a tool call within the head shows an empty call, and within the foreground an empty slot. */
  lemma ToolStartExactly(s: State, step: Step)
    requires step.ToolStarted? && s.attempt.Some? && s.attempt.value.in_flight.Some?
    requires s.attempt.value.in_flight.value.message_id == step.message_id && StartTool(s, step).Some?
    ensures var next, before := StartTool(s, step).value, s.attempt.value;
            && next.bindings == s.bindings && next.attempt.Some? && next.attempt.value.in_flight.Some?
            && next.attempt.value.attempt_id == before.attempt_id
            && (before.attempt_id == step.attempt_id && step.position < 32 ==>
                  FindBlock(next.attempt.value.in_flight.value.blocks, step.block_index) ==
                  Some(Block(Arguments, step.block_index, "")))
            && (step.foreground_position < 32 ==>
                  Tool(step.message_id, step.block_index, "") in next.attempt.value.foreground)
  {
    var before := s.attempt.value;
    if before.attempt_id == step.attempt_id && step.position < HEAD {
      FindPlaced(before.in_flight.value.blocks, Block(Arguments, step.block_index, ""), step.position);
    }
    if step.foreground_position < HEAD {
      PlaceMembers(before.foreground, Tool(step.message_id, step.block_index, ""), step.foreground_position, TOOL_KEY);
    }
  }

  predicate OfInFlight(s: State, message_id: string) {
    s.attempt.Some? && s.attempt.value.in_flight.Some? && s.attempt.value.in_flight.value.message_id == message_id
  }

  /** A tool call of another message changes nothing; one of this message throws only for an unsafe position. */
  lemma ToolStartDecided(s: State, step: Step)
    requires step.ToolStarted?
    ensures !OfInFlight(s, step.message_id) ==> StartTool(s, step) == Some(s)
    ensures OfInFlight(s, step.message_id) ==>
              (StartTool(s, step).Some? <==>
                 && 0 <= step.foreground_position <= 0x1F_FFFF_FFFF_FFFF
                 && (s.attempt.value.attempt_id == step.attempt_id ==> 0 <= step.position <= 0x1F_FFFF_FFFF_FFFF))
  {
  }

  lemma OtherAssemblyIgnored(s: State, step: Step)
    requires step.ToolAssembled? && !OfInFlight(s, step.message_id)
    ensures AssembleTool(s, step) == s
  {
  }

  /** Assembly writes the carried text into the call's block and slot, whatever they showed. */
  lemma AssemblyExactly(s: State, step: Step, b: Block)
    requires step.ToolAssembled? && s.attempt.Some? && s.attempt.value.in_flight.Some?
    requires s.attempt.value.in_flight.value.message_id == step.message_id
    ensures var next, before := AssembleTool(s, step).attempt.value, s.attempt.value;
            && AssembleTool(s, step).bindings == s.bindings
            && FindTool(next.foreground, step.message_id, step.block_index) ==
               (match FindTool(before.foreground, step.message_id, step.block_index)
                case None => None
                case Some(t) => Some(t.(arguments := step.arguments_json)))
            && (b in before.in_flight.value.blocks && before.attempt_id == step.attempt_id ==>
                  (if b.kind == Arguments && b.block_index == step.block_index
                   then b.(body := step.arguments_json) else b) in next.in_flight.value.blocks)
  {
    var before := s.attempt.value;
    FindWritten(before.foreground, step.message_id, step.block_index, step.arguments_json);
    if b in before.in_flight.value.blocks && before.attempt_id == step.attempt_id {
      var i :| 0 <= i < |before.in_flight.value.blocks| && before.in_flight.value.blocks[i] == b;
      assert WithCall(before.in_flight.value.blocks, step.block_index, step.arguments_json)[i] in
             WithCall(before.in_flight.value.blocks, step.block_index, step.arguments_json);
    }
  }
}
