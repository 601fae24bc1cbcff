/** Content and read-cut identities: JSON texts that are equal exactly when what they name is the same. */
module ContentIdentity {
  import opened Common
  import opened Decimal
  import opened JsonText

  datatype Locator = ByMessageId(message_id: string) | ByLedgerPosition(position: nat)

  datatype Source =
    | ConfigurationInstructions(journal_sequence: nat)
    | ConfigurationCatalog(journal_sequence: nat)
    | CanonicalMessageBlock(component: string, locator: Locator, block_index: nat)
    | DurableTranscriptAudit(component: string, stream_id: string, message_id: string, attempt_id: string,
      turn_id: string,
                             publication_request_id: string, block_index: nat)
    | LivePublicationPrefix(component: string, stream_id: string, message_id: string, attempt_id: string,
      turn_id: string,
                            publication_request_id: string, block_index: nat)

  datatype ContentRef = ContentRef(conversation_id: string, source: Source, representation: string, version: nat,
                                   content_revision: nat, readable_end: nat)

  function CanonicalLocatorKey(locator: Locator): string {
    match locator
    case ByMessageId(id) => Stringify(Array([Text("by_message_id"), Text(id)]))
    case ByLedgerPosition(position) => Stringify(Array([Text("by_ledger_position"), Number(position)]))
  }

  function SourceIdentity(source: Source): Value {
    match source
    case ConfigurationInstructions(n) => Array([Text("configuration_instructions"), Number(n)])
    case ConfigurationCatalog(n) => Array([Text("configuration_catalog"), Number(n)])
    case CanonicalMessageBlock(component, locator, block) =>
      Array([Text("canonical_message_block"), Text(component), Text(CanonicalLocatorKey(locator)), Number(block)])
    case DurableTranscriptAudit(component, stream, message, attempt, turn, request, block) =>
      Array([Text("durable_transcript_audit"), Text(component), Text(stream), Text(message), Text(attempt), Text(turn),
        Text(request), Number(block)])
    case LivePublicationPrefix(component, stream, message, attempt, turn, request, block) =>
      Array([Text("live_publication_prefix"), Text(component), Text(stream), Text(message), Text(attempt), Text(turn),
        Text(request), Number(block)])
  }

  function ContentSourceKey(ref: ContentRef): string {
    Stringify(Array([Text(ref.conversation_id), SourceIdentity(ref.source), Text(ref.representation),
      Number(ref.version)]))
  }

  function ContentRefKey(ref: ContentRef): string {
    Stringify(Array([Text(ContentSourceKey(ref)), Number(ref.content_revision), Number(ref.readable_end)]))
  }

  predicate SameContentRef(left: ContentRef, right: ContentRef) { ContentRefKey(left) == ContentRefKey(right) }

  /** The content cache's key of one loaded range. */
  function RangeKey(ref: ContentRef, offset: nat): string { ContentRefKey(ref) + ":" + NatText(offset) }

  lemma LocatorKeyExact(a: Locator, b: Locator)
    ensures CanonicalLocatorKey(a) == CanonicalLocatorKey(b) <==> a == b
  {
    if CanonicalLocatorKey(a) == CanonicalLocatorKey(b) {
      var x := if a.ByMessageId? then [Text("by_message_id"), Text(a.message_id)]
        else [Text("by_ledger_position"), Number(a.position)];
      var y := if b.ByMessageId? then [Text("by_message_id"), Text(b.message_id)]
        else [Text("by_ledger_position"), Number(b.position)];
      StringifyInjective(Array(x), Array(y));
      assert x[0].s[3] == y[0].s[3] && x[1] == y[1];
    }
  }

  /** A locator key is the JSON text of its tag and its identity. */
  lemma LocatorText(id: string, position: nat)
    ensures CanonicalLocatorKey(ByMessageId(id)) ==
            "[" + Stringify(Text("by_message_id")) + "," + Stringify(Text(id)) + "]"
    ensures CanonicalLocatorKey(ByLedgerPosition(position)) ==
            "[" + Stringify(Text("by_ledger_position")) + "," + NatText(position) + "]"
  {
    PairText(Text("by_message_id"), Text(id));
    PairText(Text("by_ledger_position"), Number(position));
  }

  /** The tag alone tells the variants apart. */
  lemma TagsDiffer(a: Source, b: Source)
    requires SourceIdentity(a).items[0] == SourceIdentity(b).items[0]
    ensures a.ConfigurationInstructions? == b.ConfigurationInstructions?
            && a.ConfigurationCatalog? == b.ConfigurationCatalog?
    ensures a.CanonicalMessageBlock? == b.CanonicalMessageBlock?
            && a.DurableTranscriptAudit? == b.DurableTranscriptAudit?
  {
    var s, t := SourceIdentity(a).items[0].s, SourceIdentity(b).items[0].s;
    assert |s| == |t| && s[0] == t[0];
  }

  lemma SourceIdentityExact(a: Source, b: Source)
    ensures SourceIdentity(a) == SourceIdentity(b) <==> a == b
  {
    var x, y := SourceIdentity(a).items, SourceIdentity(b).items;
    if x == y {
      TagsDiffer(a, b);
      assert x[1] == y[1];
      if a.CanonicalMessageBlock? {
        assert x[2] == y[2] && x[3] == y[3];
        LocatorKeyExact(a.locator, b.locator);
      } else if a.DurableTranscriptAudit? || a.LivePublicationPrefix? {
        assert x[2] == y[2] && x[3] == y[3] && x[4] == y[4] && x[5] == y[5] && x[6] == y[6] && x[7] == y[7];
      }
    }
  }

  /** Two references share a source key exactly when they differ at most in revision and byte frontier. */
  lemma SourceKeyExact(a: ContentRef, b: ContentRef)
    ensures ContentSourceKey(a) == ContentSourceKey(b) <==>
              a.(content_revision := 0, readable_end := 0) == b.(content_revision := 0, readable_end := 0)
  {
    if ContentSourceKey(a) == ContentSourceKey(b) {
      var x := [Text(a.conversation_id), SourceIdentity(a.source), Text(a.representation), Number(a.version)];
      var y := [Text(b.conversation_id), SourceIdentity(b.source), Text(b.representation), Number(b.version)];
      StringifyInjective(Array(x), Array(y));
      assert x[0] == y[0] && x[1] == y[1] && x[2] == y[2] && x[3] == y[3];
      SourceIdentityExact(a.source, b.source);
    }
  }

  lemma RefValueExact(a: ContentRef, b: ContentRef)
    requires Array([Text(ContentSourceKey(a)), Number(a.content_revision), Number(a.readable_end)])
          == Array([Text(ContentSourceKey(b)), Number(b.content_revision), Number(b.readable_end)])
    ensures a == b
  {
    var x := [Text(ContentSourceKey(a)), Number(a.content_revision), Number(a.readable_end)];
    var y := [Text(ContentSourceKey(b)), Number(b.content_revision), Number(b.readable_end)];
    assert x[0] == y[0] && x[1] == y[1] && x[2] == y[2];
    SourceKeyExact(a, b);
  }

  /** `sameContentRef` is equality of references, through two layers of JSON text. */
  lemma SameContentRefExact(a: ContentRef, b: ContentRef)
    ensures SameContentRef(a, b) <==> a == b
  {
    if SameContentRef(a, b) {
      StringifyInjective(Array([Text(ContentSourceKey(a)), Number(a.content_revision), Number(a.readable_end)]),
                         Array([Text(ContentSourceKey(b)), Number(b.content_revision), Number(b.readable_end)]));
      RefValueExact(a, b);
    }
  }

  /** A cache entry names one reference and one offset. */
  lemma RangeKeyExact(a: ContentRef, i: nat, b: ContentRef, j: nat)
    ensures RangeKey(a, i) == RangeKey(b, j) <==> a == b && i == j
  {
    if RangeKey(a, i) == RangeKey(b, j) {
      var x, y := ":" + NatText(i), ":" + NatText(j);
      assert RangeKey(a, i) == ContentRefKey(a) + x && RangeKey(b, j) == ContentRefKey(b) + y;
      ValueIsUnique(Array([Text(ContentSourceKey(a)), Number(a.content_revision), Number(a.readable_end)]),
                    Array([Text(ContentSourceKey(b)), Number(b.content_revision), Number(b.readable_end)]), x, y);
      RefValueExact(a, b);
      SameCut(":", ":", NatText(i), NatText(j));
    }
  }
}

/** Read-cut keys, which must not depend on the order in which an object's properties arrive. */
module ReadCutIdentity {
  import opened Common
  import opened JsonText
  import opened ContentIdentity

  datatype Property<V> = Property(name: string, value: V)

  predicate Distinct<V>(o: seq<Property<V>>) { forall i, j :: 0 <= i < j < |o| ==> o[i].name != o[j].name }

  function Names<V>(o: seq<Property<V>>): (names: seq<string>)
    ensures |names| == |o| && forall i :: 0 <= i < |o| ==> names[i] == o[i].name
  {
    seq(|o|, i requires 0 <= i < |o| => o[i].name)
  }

  function Lookup<V>(o: seq<Property<V>>, name: string): (v: V)
    requires name in Names(o)
    ensures exists i :: 0 <= i < |o| && o[i] == Property(name, v)
  {
    if o[0].name == name then o[0].value else
      assert Names(o)[1..] == Names(o[1..]);
      var v := Lookup(o[1..], name);
      assert exists i :: 0 <= i < |o[1..]| && o[1..][i] == Property(name, v);
      v
  }

  /** Equal as property maps, whatever order the properties are in. */
  ghost predicate SameObject<V>(a: seq<Property<V>>, b: seq<Property<V>>) {
    && (forall n :: n in Names(a) <==> n in Names(b))
    && (forall n :: n in Names(a) ==> Lookup(a, n) == Lookup(b, n))
  }

  // ---- the order of `Array.prototype.sort`: UTF-16 code units ----

  /** Supplementary characters start with a surrogate, which sorts below U+E000. */
  function CodeUnitRank(c: char): nat {
    var n := c as int;
    if 0xE000 <= n < 0x10000 then n + 0x110000 else n
  }

  predicate Below(a: string, b: string)
    decreases |a|
  {
    b != "" && (a == "" || CodeUnitRank(a[0]) < CodeUnitRank(b[0]) || (a[0] == b[0] && Below(a[1..], b[1..])))
  }

  lemma {:induction false} BelowTotal(a: string, b: string)
    ensures !(Below(a, b) && Below(b, a)) && (Below(a, b) || Below(b, a) || a == b) && !Below(a, a)
    decreases |a|
  {
    if a != "" && b != "" {
      BelowTotal(a[1..], b[1..]);
      if a[0] == b[0] && a[1..] == b[1..] { assert a == [a[0]] + a[1..] == b; }
    } else if a != "" {
      BelowTotal(a[1..], a[1..]);
    }
  }

  lemma {:induction false} BelowTransitive(a: string, b: string, c: string)
    requires Below(a, b) && Below(b, c)
    ensures Below(a, c)
    decreases |a|
  {
    if a != "" && a[0] == b[0] == c[0] { BelowTransitive(a[1..], b[1..], c[1..]); }
  }

  predicate Ascending(s: seq<string>) { forall i, j :: 0 <= i < j < |s| ==> Below(s[i], s[j]) }

  function Insert(n: string, s: seq<string>): seq<string> {
    if s == [] then [n] else if Below(n, s[0]) then [n] + s else [s[0]] + Insert(n, s[1..])
  }

  function Sort(s: seq<string>): seq<string> { if s == [] then [] else Insert(s[0], Sort(s[1..])) }

  lemma {:induction false} InsertSorted(n: string, s: seq<string>)
    requires Ascending(s) && n !in s
    ensures Ascending(Insert(n, s)) && forall m :: m in Insert(n, s) <==> m == n || m in s
  {
    if s == [] {
    } else if Below(n, s[0]) {
      forall j | 0 <= j < |s| ensures Below(n, s[j]) {
        if j > 0 { BelowTransitive(n, s[0], s[j]); }
      }
    } else {
      var tail := Insert(n, s[1..]);
      InsertSorted(n, s[1..]);
      BelowTotal(n, s[0]);
      forall j | 0 <= j < |tail| ensures Below(s[0], tail[j]) {
        assert tail[j] in tail;
      }
      assert forall m :: m in s <==> m == s[0] || m in s[1..];
    }
  }

  lemma {:induction false} SortSorted(s: seq<string>)
    requires forall i, j :: 0 <= i < j < |s| ==> s[i] != s[j]
    ensures Ascending(Sort(s)) && forall m :: m in Sort(s) <==> m in s
  {
    if s != [] {
      SortSorted(s[1..]);
      InsertSorted(s[0], Sort(s[1..]));
      assert forall m :: m in s <==> m == s[0] || m in s[1..];
    }
  }

  lemma HeadIsLeast(s: seq<string>, m: string)
    requires Ascending(s) && m in s
    ensures m == s[0] || Below(s[0], m)
  {
  }

  lemma TailWithoutHead(s: seq<string>, m: string)
    requires Ascending(s) && s != []
    ensures m in s[1..] <==> m in s && m != s[0]
  {
    BelowTotal(s[0], s[0]);
    assert s == [s[0]] + s[1..];
  }

  lemma EmptyTogether(a: seq<string>, b: seq<string>)
    requires forall m :: m in a <==> m in b
    ensures a == [] <==> b == []
  {
    if a != [] { assert a[0] in a; }
    if b != [] { assert b[0] in b; }
  }

  /** An ascending list is determined by its elements. */
  lemma {:induction false} AscendingIsUnique(a: seq<string>, b: seq<string>)
    requires Ascending(a) && Ascending(b) && forall m :: m in a <==> m in b
    ensures a == b
  {
    EmptyTogether(a, b);
    if a != [] {
      assert a[0] in a && b[0] in b;
      HeadIsLeast(a, b[0]);
      HeadIsLeast(b, a[0]);
      BelowTotal(a[0], b[0]);
      assert a[0] == b[0];
      forall m ensures m in a[1..] <==> m in b[1..] {
        TailWithoutHead(a, m);
        TailWithoutHead(b, m);
      }
      AscendingIsUnique(a[1..], b[1..]);
      assert a == [a[0]] + a[1..] && b == [b[0]] + b[1..];
    }
  }

  lemma SortedNames<V>(o: seq<Property<V>>)
    requires Distinct(o)
    ensures Ascending(Sort(Names(o))) && forall n :: n in Sort(Names(o)) <==> n in Names(o)
  {
    SortSorted(Names(o));
  }

  // ---- one object property list inside a key ----

  function Entry<V>(o: seq<Property<V>>, name: string, render: V -> seq<Value>): Value
    requires name in Names(o)
  {
    Array([Text(name)] + render(Lookup(o, name)))
  }

  function Entries<V>(o: seq<Property<V>>, names: seq<string>, render: V -> seq<Value>): (items: seq<Value>)
    requires forall n :: n in names ==> n in Names(o)
    ensures |items| == |names| && forall i :: 0 <= i < |items| ==> items[i] == Entry(o, names[i], render)
  {
    seq(|names|, i requires 0 <= i < |names| => assert names[i] in names; Entry(o, names[i], render))
  }

  function ObjectValue<V>(o: seq<Property<V>>, render: V -> seq<Value>): Value
    requires Distinct(o)
  {
    SortedNames(o);
    Array(Entries(o, Sort(Names(o)), render))
  }

  ghost predicate Faithful<V(!new)>(render: V -> seq<Value>) { forall v, w :: render(v) == render(w) ==> v == w }

  lemma EntryExact<V>(a: seq<Property<V>>, b: seq<Property<V>>, m: string, n: string, render: V -> seq<Value>)
    requires m in Names(a) && n in Names(b) && Entry(a, m, render) == Entry(b, n, render)
    ensures m == n && render(Lookup(a, m)) == render(Lookup(b, n))
  {
    var x, y := [Text(m)] + render(Lookup(a, m)), [Text(n)] + render(Lookup(b, n));
    assert x[0] == y[0];
    assert x[1..] == render(Lookup(a, m)) && y[1..] == render(Lookup(b, n));
  }

  /** Sorting the names makes the rendered list equal exactly when the objects are equal as maps. */
  lemma ObjectValueExact<V(!new)>(a: seq<Property<V>>, b: seq<Property<V>>, render: V -> seq<Value>)
    requires Distinct(a) && Distinct(b) && Faithful(render)
    ensures ObjectValue(a, render) == ObjectValue(b, render) <==> SameObject(a, b)
  {
    SortedNames(a);
    SortedNames(b);
    var s, t := Sort(Names(a)), Sort(Names(b));
    var x, y := Entries(a, s, render), Entries(b, t, render);
    if x == y {
      forall i | 0 <= i < |s| ensures s[i] == t[i] && Lookup(a, s[i]) == Lookup(b, s[i]) {
        assert s[i] in s && t[i] in t && x[i] == y[i];
        EntryExact(a, b, s[i], t[i], render);
      }
      assert s == t;
      forall n | n in Names(a) ensures Lookup(a, n) == Lookup(b, n) {
        var i :| 0 <= i < |s| && s[i] == n;
      }
    }
    if SameObject(a, b) {
      AscendingIsUnique(s, t);
      forall i | 0 <= i < |s| ensures x[i] == y[i] {
        assert s[i] in s;
      }
    }
  }

  // ---- read cuts ----

  datatype ConversationReadCut = ConversationReadCut(
    conversation_id: string, journal: string, transcript: string, mutation_revision: string, ledger_through: string,
    surface_revision: string, transcript_total: string, pending_through: string, pending_total: string)

  datatype ObservationReadCut = ObservationReadCut(
    read: ConversationReadCut, ledger_through: string, transcript_total: string, surface_revision: string,
      inherited_through: string)

  datatype Foreground = Foreground(locator: Locator, total: nat)

  datatype Publication = Publication(source: Source, revision: nat, block_total: nat, tool_total: nat)

  datatype CollectionCut = CollectionCut(generation: string, total: nat)

  datatype CheckpointReadCut = CheckpointReadCut(
    conversation_id: string, activation_id: Option<string>, revision: string, through: string,
    source_cut: Option<ObservationReadCut>, canonical_foreground: Option<Foreground>,
      live_publication: Option<Publication>,
    domain_revisions: seq<Property<string>>, collection_cuts: seq<Property<CollectionCut>>)

  function ObservationValue(cut: ObservationReadCut): Value {
    var read := cut.read;
    Array([Text(read.conversation_id), Text(read.journal), Text(read.transcript), Text(read.mutation_revision),
           Text(read.ledger_through), Text(read.surface_revision), Text(read.transcript_total),
             Text(read.pending_through),
           Text(read.pending_total), Text(cut.ledger_through), Text(cut.transcript_total), Text(cut.surface_revision),
           Text(cut.inherited_through)])
  }

  function ObservationReadCutKey(cut: ObservationReadCut): string { Stringify(ObservationValue(cut)) }

  function ActivationValue(activation: Option<string>): Value {
    if activation.Some? then Text(activation.value) else Null
  }

  function SourceCutValue(cut: Option<ObservationReadCut>): Value {
    if cut.Some? then Text(ObservationReadCutKey(cut.value)) else Null
  }

  function ForegroundValue(f: Option<Foreground>): Value {
    if f.Some? then Array([Text(CanonicalLocatorKey(f.value.locator)), Number(f.value.total)]) else Null
  }

  function PublicationValue(p: Option<Publication>): Value {
    if p.None? then Null
    else Array([SourceIdentity(p.value.source), Number(p.value.revision), Number(p.value.block_total),
      Number(p.value.tool_total)])
  }

  const REVISION: string -> seq<Value> := revision => [Text(revision)]
  const COLLECTION: CollectionCut -> seq<Value> := (cut: CollectionCut) => [Text(cut.generation), Number(cut.total)]

  predicate WellFormed(cut: CheckpointReadCut) { Distinct(cut.domain_revisions) && Distinct(cut.collection_cuts) }

  function CheckpointFields(cut: CheckpointReadCut): seq<Value>
    requires WellFormed(cut)
  {
    [Text(cut.conversation_id), ActivationValue(cut.activation_id), Text(cut.revision), Text(cut.through),
     SourceCutValue(cut.source_cut), ForegroundValue(cut.canonical_foreground), PublicationValue(cut.live_publication),
     ObjectValue(cut.domain_revisions, REVISION), ObjectValue(cut.collection_cuts, COLLECTION)]
  }

  function CheckpointReadCutKey(cut: CheckpointReadCut): string
    requires WellFormed(cut)
  {
    Stringify(Array(CheckpointFields(cut)))
  }

  lemma ObservationCutKeyExact(a: ObservationReadCut, b: ObservationReadCut)
    ensures ObservationReadCutKey(a) == ObservationReadCutKey(b) <==> a == b
  {
    if ObservationReadCutKey(a) == ObservationReadCutKey(b) {
      StringifyInjective(ObservationValue(a), ObservationValue(b));
      var x, y := ObservationValue(a).items, ObservationValue(b).items;
      assert x[0] == y[0] && x[1] == y[1] && x[2] == y[2] && x[3] == y[3] && x[4] == y[4];
      assert x[5] == y[5] && x[6] == y[6] && x[7] == y[7] && x[8] == y[8];
      assert x[9] == y[9] && x[10] == y[10] && x[11] == y[11] && x[12] == y[12];
    }
  }

  lemma ForegroundExact(a: Option<Foreground>, b: Option<Foreground>)
    ensures ForegroundValue(a) == ForegroundValue(b) <==> a == b
  {
    if a.Some? && b.Some? && ForegroundValue(a) == ForegroundValue(b) {
      var x, y := ForegroundValue(a).items, ForegroundValue(b).items;
      assert x[0] == y[0] && x[1] == y[1];
      LocatorKeyExact(a.value.locator, b.value.locator);
    }
  }

  lemma PublicationExact(a: Option<Publication>, b: Option<Publication>)
    ensures PublicationValue(a) == PublicationValue(b) <==> a == b
  {
    if a.Some? && b.Some? && PublicationValue(a) == PublicationValue(b) {
      var x, y := PublicationValue(a).items, PublicationValue(b).items;
      assert x[0] == y[0] && x[1] == y[1] && x[2] == y[2] && x[3] == y[3];
      SourceIdentityExact(a.value.source, b.value.source);
    }
  }

  lemma RenderersAreFaithful()
    ensures Faithful(REVISION) && Faithful(COLLECTION)
  {
    forall v, w | REVISION(v) == REVISION(w) ensures v == w {
      assert REVISION(v)[0] == REVISION(w)[0];
    }
    forall v, w | COLLECTION(v) == COLLECTION(w) ensures v == w {
      assert COLLECTION(v)[0] == COLLECTION(w)[0] && COLLECTION(v)[1] == COLLECTION(w)[1];
    }
  }

  /** The same cut: equal fields, and equal property maps in whatever order they arrived. */
  ghost predicate SameCheckpointCut(a: CheckpointReadCut, b: CheckpointReadCut) {
    && a.(domain_revisions := [], collection_cuts := []) == b.(domain_revisions := [], collection_cuts := [])
    && SameObject(a.domain_revisions, b.domain_revisions) && SameObject(a.collection_cuts, b.collection_cuts)
  }

  lemma FieldsExact(a: CheckpointReadCut, b: CheckpointReadCut)
    requires WellFormed(a) && WellFormed(b)
    ensures CheckpointFields(a) == CheckpointFields(b) <==> SameCheckpointCut(a, b)
  {
    var x, y := CheckpointFields(a), CheckpointFields(b);
    RenderersAreFaithful();
    ObjectValueExact(a.domain_revisions, b.domain_revisions, REVISION);
    ObjectValueExact(a.collection_cuts, b.collection_cuts, COLLECTION);
    ForegroundExact(a.canonical_foreground, b.canonical_foreground);
    PublicationExact(a.live_publication, b.live_publication);
    if a.source_cut.Some? && b.source_cut.Some? { ObservationCutKeyExact(a.source_cut.value, b.source_cut.value); }
    if x == y {
      assert x[0] == y[0] && x[1] == y[1] && x[2] == y[2] && x[3] == y[3] && x[4] == y[4];
      assert x[5] == y[5] && x[6] == y[6] && x[7] == y[7] && x[8] == y[8];
    }
  }

  /** The key forgets property order and the absent/null distinction, and nothing else. */
  lemma CheckpointCutKeyExact(a: CheckpointReadCut, b: CheckpointReadCut)
    requires WellFormed(a) && WellFormed(b)
    ensures CheckpointReadCutKey(a) == CheckpointReadCutKey(b) <==> SameCheckpointCut(a, b)
  {
    FieldsExact(a, b);
    if CheckpointReadCutKey(a) == CheckpointReadCutKey(b) {
      StringifyInjective(Array(CheckpointFields(a)), Array(CheckpointFields(b)));
    }
  }
}
