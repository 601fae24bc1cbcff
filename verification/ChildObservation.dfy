/** Scope and revision evidence carried by checkpoints and projection transitions. */
module ObservationCut {
  import opened Common
  import opened Decimal

  const MAX_U64: nat := 18446744073709551615

  /** `checkpointCursor`; `None` throws. */
  function CheckpointCursor(value: string): Option<nat> {
    if |value| > 20 || !Canonical(value) then None
    else if NatOf(value) > MAX_U64 then None
    else Some(NatOf(value))
  }

  /** A native cursor is the canonical decimal text of a u64, and of nothing else. */
  lemma CursorIsCanonicalU64(value: string, n: nat)
    ensures CheckpointCursor(value) == Some(n) <==> n <= MAX_U64 && value == NatText(n)
  {
    if CheckpointCursor(value) == Some(n) { CanonicalIsNatText(value); }
    if n <= MAX_U64 && value == NatText(n) && |value| > 20 {
      NatOfBounds(value);
      Pow10Monotone(20, |value| - 1);
      TenToTwenty();
    }
  }

  lemma TenToTwenty()
    ensures Pow10(20) > MAX_U64
  {
    assert Pow10(10) == 10000000000;
    Pow10Add(10, 10);
  }

  datatype SourceRead = SourceRead(conversationId: string, journal: string, ledgerThrough: string,
      surfaceRevision: string, transcriptTotal: string)

  datatype SourceCut = SourceCut(read: SourceRead, ledgerThrough: string, surfaceRevision: string,
      transcriptTotal: string)

  datatype ReadCut = ReadCut(conversationId: string, activationId: Option<string>, revision: string, through: string,
      source: Option<SourceCut>)

  /** `validateObservationCut` does not throw. */
  predicate ValidCut(cut: ReadCut, conversationId: string, activationId: Option<string>, cursor: string) {
    && cut.conversationId == conversationId && cut.activationId == activationId
    && CheckpointCursor(cursor).Some?
    && cursor == cut.revision
    && CheckpointCursor(cut.through).Some?
    && match cut.source
       case None => true
       case Some(s) =>
         && s.read.conversationId == conversationId && s.read.journal == cut.through
         && s.read.ledgerThrough == s.ledgerThrough && s.read.surfaceRevision == s.surfaceRevision
         && s.read.transcriptTotal == s.transcriptTotal
  }

  /** The evidence a valid cut carries: canonical cursors, and a source that repeats the cut's own. */
  lemma CutExactly(cut: ReadCut, conversationId: string, activationId: Option<string>, cursor: string)
    ensures ValidCut(cut, conversationId, activationId, cursor) <==>
            exists n: nat, through: nat :: CutIs(cut, conversationId, activationId, cursor, n, through)
  {
    if ValidCut(cut, conversationId, activationId, cursor) {
      var n, through := CheckpointCursor(cursor).value, CheckpointCursor(cut.through).value;
      CursorIsCanonicalU64(cursor, n);
      CursorIsCanonicalU64(cut.through, through);
      assert CutIs(cut, conversationId, activationId, cursor, n, through);
    }
    if n: nat, through: nat :| CutIs(cut, conversationId, activationId, cursor, n, through) {
      CursorIsCanonicalU64(cursor, n);
      CursorIsCanonicalU64(cut.through, through);
    }
  }

  predicate CutIs(cut: ReadCut, conversationId: string, activationId: Option<string>, cursor: string, n: nat,
        through: nat)
  {
    && n < 0x1_0000_0000_0000_0000 && through < 0x1_0000_0000_0000_0000 && cursor == NatText(n)
    && cut == ReadCut(conversationId, activationId, NatText(n), NatText(through), cut.source)
    && (cut.source.Some? ==>
          var s := cut.source.value;
          s.read == SourceRead(conversationId, NatText(through), s.ledgerThrough, s.surfaceRevision, s.transcriptTotal))
  }

  datatype Snapshot<D> = Snapshot(conversationId: string, data: D)

  datatype Checkpoint<D> = Checkpoint(snapshot: Snapshot<D>, cursor: string, cut: ReadCut)

  datatype RuntimeEvent<D> =
    | CheckpointAdvanced(checkpoint: Checkpoint<D>)
    | ProjectionTransition(cut: ReadCut, events: seq<RuntimeEvent<D>>)
    | Fact(fact: D)

  datatype Scope = Scope(conversationId: string, activationId: Option<string>)

  predicate ValidCheckpoint<D>(checkpoint: Checkpoint<D>, scope: Scope, cursor: string) {
    && checkpoint.snapshot.conversationId == scope.conversationId
    && ValidCut(checkpoint.cut, scope.conversationId, scope.activationId, checkpoint.cursor)
    && checkpoint.cursor == cursor
  }

  /** A checkpoint is of the scope's conversation, at the record's own canonical cursor, with such a cut there. */
  lemma CheckpointExactly<D>(checkpoint: Checkpoint<D>, scope: Scope, cursor: string)
    ensures ValidCheckpoint(checkpoint, scope, cursor) <==>
            && checkpoint.snapshot.conversationId == scope.conversationId && checkpoint.cursor == cursor
            && exists n: nat, through: nat ::
                 CutIs(checkpoint.cut, scope.conversationId, scope.activationId, cursor, n, through)
  {
    CutExactly(checkpoint.cut, scope.conversationId, scope.activationId, cursor);
  }

  /** `validateRootEvent` does not throw (its scope has no activation). */
  predicate ValidEvent<D>(event: RuntimeEvent<D>, scope: Scope, cursor: string) {
    match event
    case CheckpointAdvanced(checkpoint) => ValidCheckpoint(checkpoint, scope, cursor)
    case ProjectionTransition(cut, events) =>
      && ValidCut(cut, scope.conversationId, scope.activationId, cursor)
      && forall i :: 0 <= i < |events| ==> ValidEvent(events[i], scope, cursor)
    case Fact(_) => true
  }

  /** `ChildObservation.eventIdentity`. */
  predicate EventIdentity<D>(event: RuntimeEvent<D>, scope: Scope, cursor: string) {
    match event
    case CheckpointAdvanced(checkpoint) => ValidCheckpoint(checkpoint, scope, cursor)
    case ProjectionTransition(cut, events) =>
      && ValidCut(cut, scope.conversationId, scope.activationId, cursor)
      && forall i :: 0 <= i < |events| ==> events[i].Fact? || EventIdentity(events[i], scope, cursor)
    case Fact(_) => false
  }

  datatype Carrier<D> = Installs(checkpoint: Checkpoint<D>) | Advances(cut: ReadCut)

  /** Every scope-bearing carrier of an event, at any depth, in order. */
  function Carriers<D>(event: RuntimeEvent<D>): seq<Carrier<D>>
    decreases event, 1
  {
    match event
    case CheckpointAdvanced(checkpoint) => [Installs(checkpoint)]
    case ProjectionTransition(cut, events) => [Advances(cut)] + CarriersOf(events)
    case Fact(_) => []
  }

  function CarriersOf<D>(events: seq<RuntimeEvent<D>>): seq<Carrier<D>>
    decreases events, 0
  {
    if events == [] then [] else Carriers(events[0]) + CarriersOf(events[1..])
  }

  predicate ValidCarrier<D>(carrier: Carrier<D>, scope: Scope, cursor: string) {
    match carrier
    case Installs(checkpoint) => ValidCheckpoint(checkpoint, scope, cursor)
    case Advances(cut) => ValidCut(cut, scope.conversationId, scope.activationId, cursor)
  }

  predicate AllValid<D>(carriers: seq<Carrier<D>>, scope: Scope, cursor: string) {
    forall i :: 0 <= i < |carriers| ==> ValidCarrier(carriers[i], scope, cursor)
  }

  lemma AllValidConcat<D>(a: seq<Carrier<D>>, b: seq<Carrier<D>>, scope: Scope, cursor: string)
    ensures AllValid(a + b, scope, cursor) <==> AllValid(a, scope, cursor) && AllValid(b, scope, cursor)
  {
    if AllValid(a + b, scope, cursor) {
      assert forall i :: 0 <= i < |a| ==> (a + b)[i] == a[i];
      assert forall i :: 0 <= i < |b| ==> (a + b)[|a| + i] == b[i];
    }
  }

  /** A root event is accepted exactly when every carrier inside it is in scope at the record's cursor. */
  lemma {:induction false} RootEventExactly<D>(event: RuntimeEvent<D>, scope: Scope, cursor: string)
    ensures ValidEvent(event, scope, cursor) <==> AllValid(Carriers(event), scope, cursor)
    decreases event, 1
  {
    match event {
      case CheckpointAdvanced(checkpoint) => assert Carriers(event)[0] == Installs(checkpoint);
      case ProjectionTransition(cut, events) =>
        var head: seq<Carrier<D>> := [Advances(cut)];
        AllValidConcat(head, CarriersOf(events), scope, cursor);
        assert AllValid(head, scope, cursor) <==> ValidCarrier(head[0], scope, cursor);
        RootEventsExactly(events, scope, cursor);
      case Fact(_) =>
    }
  }

  lemma {:induction false} RootEventsExactly<D>(events: seq<RuntimeEvent<D>>, scope: Scope, cursor: string)
    ensures (forall i :: 0 <= i < |events| ==> ValidEvent(events[i], scope, cursor)) <==>
            AllValid(CarriersOf(events), scope, cursor)
    decreases events, 0
  {
    if events != [] {
      RootEventExactly(events[0], scope, cursor);
      RootEventsExactly(events[1..], scope, cursor);
      AllValidConcat(Carriers(events[0]), CarriersOf(events[1..]), scope, cursor);
      assert forall i :: 1 <= i < |events| ==> events[i] == events[1..][i - 1];
    }
  }

  /** The child's rule is the root's rule, except that the outermost event must be a carrier. */
  lemma {:induction false} ChildRuleIsRootRule<D>(event: RuntimeEvent<D>, scope: Scope, cursor: string)
    ensures EventIdentity(event, scope, cursor) <==> !event.Fact? && ValidEvent(event, scope, cursor)
  {
    if event.ProjectionTransition? {
      forall i | 0 <= i < |event.events|
        ensures EventIdentity(event.events[i], scope, cursor) <==>
                !event.events[i].Fact? && ValidEvent(event.events[i], scope, cursor)
      {
        ChildRuleIsRootRule(event.events[i], scope, cursor);
      }
    }
  }
}

/** The batched observation of one Subagent activation. */
module ChildObservation {
  import opened Common
  import opened Decimal
  import opened ServerLog
  import opened ObservationCut

  datatype Phase = CheckpointLoading | LiveFollowing | DurableOnly | ResyncRequired | Unavailable

  datatype AgentCursor = AgentCursor(agentId: string, conversationId: string, activationId: string, cursor: string)

  datatype BatchRecord<D> = BatchRecord(cursor: string, event: RuntimeEvent<D>)

  datatype Observation<D> =
    | Events(after: AgentCursor, through: AgentCursor, events: seq<BatchRecord<D>>)
    | Resync(agentId: string, conversationId: string, activationId: string)
    | Baseline(agentId: string, conversationId: string, activationId: string, live: bool,
               cursor: Option<AgentCursor>, checkpoint: Checkpoint<D>)

  const BATCH_LIMIT: nat := 32

  /** Identity, `BigInt`, the projection fold and `observationCheckpoint`. */
  datatype Env<!D> = Env(
    agentId: string, conversationId: string, activationId: string,
    big: string -> Option<int>,
    fold: Fold<Snapshot<D>, RuntimeEvent<D>>,
    observed: (Snapshot<D>, string) -> Option<Checkpoint<D>>)

  datatype Child<D> = Child(
    phase: Phase, checkpoint: Option<Checkpoint<D>>, snapshot: Option<Snapshot<D>>,
    cursor: Option<AgentCursor>, appliedCursor: Option<AgentCursor>)

  function ScopeOf<D>(env: Env<D>): Scope { Scope(env.conversationId, Some(env.activationId)) }

  predicate Identity<D>(cursor: AgentCursor, env: Env<D>) {
    cursor.agentId == env.agentId && cursor.conversationId == env.conversationId
      && cursor.activationId == env.activationId
  }

  function LoseContinuity<D>(c: Child<D>): Child<D> { c.(phase := Phase.ResyncRequired) }

  /** One record of a batch: the new child and whether it went through. */
  function ApplyRecord<D>(c: Child<D>, record: BatchRecord<D>, env: Env<D>): (Child<D>, bool)
    requires c.cursor.Some? && c.snapshot.Some?
  {
    var next, now := env.big(record.cursor), env.big(c.cursor.value.cursor);
    if next.None? || now.None? then (c, false)
    else if next.value != now.value + 1 then (LoseContinuity(c), false)
    else if !EventIdentity(record.event, ScopeOf(env), record.cursor) then (LoseContinuity(c), false)
    else
      var folded := env.fold(c.snapshot.value, record.event, record.cursor);
      if folded.None? || folded.value.conversationId != env.conversationId then (LoseContinuity(c), false)
      else
        var cursor := Some(c.cursor.value.(cursor := record.cursor));
        var seen := env.observed(folded.value, record.cursor);
        (Child(c.phase, if seen.Some? then seen else c.checkpoint, folded, cursor, cursor), true)
  }

  function ApplyRecords<D>(c: Child<D>, records: seq<BatchRecord<D>>, env: Env<D>): (Child<D>, bool)
    requires c.cursor.Some? && c.snapshot.Some?
    decreases |records|
  {
    if records == [] then (c, true)
    else
      var (next, ok) := ApplyRecord(c, records[0], env);
      if ok then ApplyRecords(next, records[1..], env) else (next, false)
  }

  predicate Joins<D>(c: Child<D>, o: Observation<D>, env: Env<D>)
    requires o.Events?
  {
    && c.cursor.Some? && c.snapshot.Some? && c.phase == LiveFollowing
    && Identity(o.after, env) && Identity(o.through, env) && o.after.cursor == c.cursor.value.cursor
  }

  /** The baseline's own evidence and its order against what was already applied. */
  predicate AcceptsBaseline<D>(c: Child<D>, o: Observation<D>, env: Env<D>)
    requires o.Baseline?
  {
    && o.checkpoint.snapshot.conversationId == env.conversationId
    && ValidCut(o.checkpoint.cut, env.conversationId, Some(env.activationId), o.checkpoint.cursor)
    && (o.live ==> o.cursor.Some? && Identity(o.cursor.value, env))
    && (!o.live ==> o.cursor.None?)
    && (o.cursor.Some? ==> o.cursor.value.cursor == o.checkpoint.cursor)
    && (o.cursor.Some? && c.appliedCursor.Some? ==>
          var next, now := env.big(o.cursor.value.cursor), env.big(c.appliedCursor.value.cursor);
          next.Some? && now.Some? && next.value >= now.value)
  }

  /** `apply`: the new fields, and whether it returned without throwing. */
  function Apply<D>(c: Child<D>, o: Observation<D>, env: Env<D>): (Child<D>, bool) {
    match o
    case Events(_, through, events) =>
      if !Joins(c, o, env) then (LoseContinuity(c), false)
      else if |events| > BATCH_LIMIT then (c, false)
      else
        var (next, ok) := ApplyRecords(c, events, env);
        if !ok then (next, false)
        else if next.cursor.Some? && next.cursor.value.cursor != through.cursor then (LoseContinuity(next), false)
        else (next, true)
    case Resync(agentId, conversationId, activationId) =>
      if agentId != env.agentId || conversationId != env.conversationId
        || activationId != env.activationId then (c, false)
      else (LoseContinuity(c).(cursor := None), true)
    case Baseline(agentId, conversationId, activationId, live, cursor, checkpoint) =>
      if agentId != env.agentId || conversationId != env.conversationId
        || activationId != env.activationId then (c, false)
      else if !AcceptsBaseline(c, o, env) then (c, false)
      else
        (Child(if live then LiveFollowing else DurableOnly, Some(checkpoint), Some(checkpoint.snapshot),
               cursor, if cursor.Some? then cursor else c.appliedCursor), true)
  }

  class ChildObservation<D> {
    var phase: Phase
    var checkpoint: Option<Checkpoint<D>>
    var snapshot: Option<Snapshot<D>>
    var cursor: Option<AgentCursor>
    var appliedCursor: Option<AgentCursor>
    const env: Env<D>

    ghost function Model(): Child<D>
      reads this
    {
      Child(phase, checkpoint, snapshot, cursor, appliedCursor)
    }

    constructor (env: Env<D>)
      ensures Model() == Child(CheckpointLoading, None, None, None, None) && this.env == env
    {
      phase, checkpoint, snapshot, cursor, appliedCursor := CheckpointLoading, None, None, None, None;
      this.env := env;
    }

    method ApplyEvents(o: Observation<D>) returns (ok: bool)
      requires o.Events?
      modifies this
      ensures (Model(), ok) == Apply(old(Model()), o, env)
    {
      var Events(after, through, events) := o;
      if !(cursor.Some? && snapshot.Some? && phase == LiveFollowing && Identity(after, env) && Identity(through, env)
           && after.cursor == cursor.value.cursor) {
        phase := ResyncRequired;
        return false;
      }
      if |events| > BATCH_LIMIT { return false; }
      ghost var start := Model();
      var i := 0;
      while i < |events|
        invariant 0 <= i <= |events| && cursor.Some? && snapshot.Some?
        invariant ApplyRecords(start, events, env) == ApplyRecords(Model(), events[i..], env)
      {
        var record := events[i];
        assert events[i..][1..] == events[i + 1..];
        var next, now := env.big(record.cursor), env.big(cursor.value.cursor);
        if next.None? || now.None? { return false; }
        if next.value != now.value + 1 { phase := ResyncRequired; return false; }
        if !EventIdentity(record.event, ScopeOf(env), record.cursor) { phase := ResyncRequired; return false; }
        var folded := env.fold(snapshot.value, record.event, record.cursor);
        if folded.None? || folded.value.conversationId != env.conversationId { phase := ResyncRequired; return false; }
        snapshot := folded;
        var seen := env.observed(folded.value, record.cursor);
        if seen.Some? { checkpoint := seen; }
        cursor := Some(cursor.value.(cursor := record.cursor));
        appliedCursor := cursor;
        i := i + 1;
      }
      if cursor.value.cursor != through.cursor { phase := ResyncRequired; return false; }
      return true;
    }

    method ApplyObservation(o: Observation<D>) returns (ok: bool)
      modifies this
      ensures (Model(), ok) == Apply(old(Model()), o, env)
    {
      match o {
        case Events(_, _, _) =>
          ok := ApplyEvents(o);
          return;
        case Resync(agentId, conversationId, activationId) =>
          if agentId != env.agentId || conversationId != env.conversationId || activationId != env.activationId {
            return false;
          }
          phase, cursor := ResyncRequired, None;
          return true;
        case Baseline(agentId, conversationId, activationId, live, at, baseline) =>
          if agentId != env.agentId || conversationId != env.conversationId || activationId != env.activationId {
            return false;
          }
          if !AcceptsBaseline(Child(phase, checkpoint, snapshot, cursor, appliedCursor), o, env) { return false; }
          checkpoint, snapshot, cursor := Some(baseline), Some(baseline.snapshot), at;
          if cursor.Some? { appliedCursor := cursor; }
          phase := if live then LiveFollowing else DurableOnly;
          return true;
      }
    }
  }

  // ---- safety over runs ----

  datatype System<!D> = System(log: Log<Snapshot<D>, RuntimeEvent<D>>, child: Child<D>)

  datatype Step<D> = Append(event: RuntimeEvent<D>, successor: Snapshot<D>) | Observe(observation: Observation<D>)

  function Next<D>(sys: System<D>, step: Step<D>, env: Env<D>): System<D> {
    match step
    case Append(event, successor) => sys.(log := Log(sys.log.states + [successor], sys.log.events + [event]))
    case Observe(o) => sys.(child := Apply(sys.child, o, env).0)
  }

  function Run<D>(sys: System<D>, steps: seq<Step<D>>, env: Env<D>): System<D>
    decreases |steps|
  {
    if steps == [] then sys else Run(Next(sys, steps[0], env), steps[1..], env)
  }

  ghost predicate HonestBatchRecord<D>(log: Log<Snapshot<D>, RuntimeEvent<D>>, record: BatchRecord<D>, env: Env<D>) {
    env.big(record.cursor).Some? && env.big(record.cursor).value >= 1 ==>
      env.big(record.cursor).value <= |log.events| && record.event == log.events[env.big(record.cursor).value - 1]
  }

  ghost predicate HonestBatch<D>(log: Log<Snapshot<D>, RuntimeEvent<D>>, records: seq<BatchRecord<D>>, env: Env<D>) {
    forall i :: 0 <= i < |records| ==> HonestBatchRecord(log, records[i], env)
  }

  /** Live baselines and batches come from the log; durable-only baselines may hold anything. */
  ghost predicate Honest<D(!new)>(sys: System<D>, step: Step<D>, env: Env<D>) {
    match step
    case Append(event, successor) =>
      sys.log.states != [] && StepAgrees(env.fold, sys.log.states[|sys.log.states| - 1], event, successor)
    case Observe(o) =>
      && (o.Events? ==> HonestBatch(sys.log, o.events, env))
      && (o.Baseline? && o.live && env.big(o.checkpoint.cursor).Some? ==>
            var n := env.big(o.checkpoint.cursor).value;
            0 <= n < |sys.log.states| && o.checkpoint.snapshot == sys.log.states[n])
  }

  ghost predicate HonestRun<D(!new)>(sys: System<D>, steps: seq<Step<D>>, env: Env<D>)
    decreases |steps|
  {
    steps == [] || (Honest(sys, steps[0], env) && HonestRun(Next(sys, steps[0], env), steps[1..], env))
  }

  /** `BigInt` reads canonical decimal text. */
  ghost predicate ReadsDecimals<D>(env: Env<D>) { forall n: nat :: env.big(NatText(n)) == Some(n) }

  ghost predicate Inv<D(!new)>(sys: System<D>, env: Env<D>) {
    var c := sys.child;
    && ValidLog(sys.log, env.fold)
    && (c.cursor.Some? ==>
          && c.snapshot.Some? && c.appliedCursor == c.cursor && env.big(c.cursor.value.cursor).Some?
          && var n := env.big(c.cursor.value.cursor).value;
             0 <= n < |sys.log.states| && c.snapshot.value == sys.log.states[n])
    && (c.appliedCursor.Some? ==> env.big(c.appliedCursor.value.cursor).Some?)
    && (c.phase == LiveFollowing ==> c.cursor.Some?)
  }

  ghost function AppliedValue<D>(c: Child<D>, env: Env<D>): int {
    if c.appliedCursor.Some? && env.big(c.appliedCursor.value.cursor).Some?
    then env.big(c.appliedCursor.value.cursor).value else -1
  }

  lemma RecordKeepsInv<D(!new)>(sys: System<D>, record: BatchRecord<D>, env: Env<D>)
    requires Inv(sys, env) && sys.child.cursor.Some? && HonestBatchRecord(sys.log, record, env)
    ensures var (c, ok) := ApplyRecord(sys.child, record, env);
            && Inv(sys.(child := c), env) && c.cursor.Some?
            && AppliedValue(c, env) == AppliedValue(sys.child, env) + (if ok then 1 else 0)
  {
    var (c, ok) := ApplyRecord(sys.child, record, env);
    if ok {
      var n := AppliedValue(sys.child, env);
      assert StepAgrees(env.fold, sys.log.states[n], sys.log.events[n], sys.log.states[n + 1]);
    }
  }

  /** However far a batch gets before it fails, the snapshot is the state at the cursor it reached. */
  lemma {:induction false} BatchKeepsInv<D(!new)>(sys: System<D>, records: seq<BatchRecord<D>>, env: Env<D>)
    requires Inv(sys, env) && sys.child.cursor.Some? && HonestBatch(sys.log, records, env)
    ensures var (c, ok) := ApplyRecords(sys.child, records, env);
            && Inv(sys.(child := c), env) && c.cursor.Some?
            && AppliedValue(sys.child, env) <= AppliedValue(c, env) <= AppliedValue(sys.child, env) + |records|
            && (ok ==> AppliedValue(c, env) == AppliedValue(sys.child, env) + |records|)
    decreases |records|
  {
    if records != [] {
      RecordKeepsInv(sys, records[0], env);
      var (next, ok) := ApplyRecord(sys.child, records[0], env);
      if ok { BatchKeepsInv(sys.(child := next), records[1..], env); }
    }
  }

  lemma AppendKeepsInv<D(!new)>(sys: System<D>, event: RuntimeEvent<D>, successor: Snapshot<D>, env: Env<D>)
    requires Inv(sys, env) && Honest(sys, Append(event, successor), env)
    ensures Inv(Next(sys, Append(event, successor), env), env)
  {
    var log, grown := sys.log, Next(sys, Append(event, successor), env).log;
    forall k | 0 <= k < |grown.events|
      ensures StepAgrees(env.fold, grown.states[k], grown.events[k], grown.states[k + 1])
    {
      if k < |log.events| { assert StepAgrees(env.fold, log.states[k], log.events[k], log.states[k + 1]); }
    }
  }

  lemma BaselineKeepsInv<D(!new)>(sys: System<D>, o: Observation<D>, env: Env<D>)
    requires ReadsDecimals(env) && Inv(sys, env) && o.Baseline? && Honest(sys, Observe(o), env)
    ensures var c := Apply(sys.child, o, env).0;
            Inv(sys.(child := c), env) && AppliedValue(sys.child, env) <= AppliedValue(c, env)
  {
    if AcceptsBaseline(sys.child, o, env) {
      var n := CheckpointCursor(o.checkpoint.cursor).value;
      CursorIsCanonicalU64(o.checkpoint.cursor, n);
      assert env.big(NatText(n)) == Some(n);
    }
  }

  lemma EventsKeepInv<D(!new)>(sys: System<D>, o: Observation<D>, env: Env<D>)
    requires Inv(sys, env) && o.Events? && Honest(sys, Observe(o), env)
    ensures var c := Apply(sys.child, o, env).0;
            Inv(sys.(child := c), env) && AppliedValue(sys.child, env) <= AppliedValue(c, env)
  {
    if Joins(sys.child, o, env) && |o.events| <= BATCH_LIMIT {
      BatchKeepsInv(sys, o.events, env);
    }
  }

  lemma StepKeepsInv<D(!new)>(sys: System<D>, step: Step<D>, env: Env<D>)
    requires ReadsDecimals(env) && Inv(sys, env) && Honest(sys, step, env)
    ensures var next := Next(sys, step, env);
            Inv(next, env) && Extends(sys.log, next.log)
              && AppliedValue(sys.child, env) <= AppliedValue(next.child, env)
  {
    match step {
      case Append(event, successor) => AppendKeepsInv(sys, event, successor, env);
      case Observe(o) =>
        match o {
          case Events(_, _, _) => EventsKeepInv(sys, o, env);
          case Baseline(_, _, _, _, _, _) => BaselineKeepsInv(sys, o, env);
          case Resync(_, _, _) =>
        }
    }
  }

  /** Over every run, wherever a cursor is present the snapshot is the authority's state there. */
  lemma {:induction false} ChildFollowsAuthority<D(!new)>(sys: System<D>, steps: seq<Step<D>>, env: Env<D>)
    requires ReadsDecimals(env) && Inv(sys, env) && HonestRun(sys, steps, env)
    ensures var end := Run(sys, steps, env);
            Inv(end, env) && Extends(sys.log, end.log) && AppliedValue(sys.child, env) <= AppliedValue(end.child, env)
    decreases |steps|
  {
    if steps != [] {
      StepKeepsInv(sys, steps[0], env);
      ChildFollowsAuthority(Next(sys, steps[0], env), steps[1..], env);
    }
  }

  // ---- batching ----

  lemma {:induction false} RecordsCompose<D>(c: Child<D>, a: seq<BatchRecord<D>>, b: seq<BatchRecord<D>>, env: Env<D>)
    requires c.cursor.Some? && c.snapshot.Some?
    ensures var (mid, ok) := ApplyRecords(c, a, env);
            && (ok ==> mid.cursor.Some? && mid.snapshot.Some? && mid.phase == c.phase)
            && ApplyRecords(c, a + b, env) == (if ok then ApplyRecords(mid, b, env) else (mid, false))
    decreases |a|
  {
    if a == [] {
      assert a + b == b;
    } else {
      assert (a + b)[0] == a[0] && (a + b)[1..] == a[1..] + b;
      var (next, ok) := ApplyRecord(c, a[0], env);
      if ok { RecordsCompose(next, a[1..], b, env); }
    }
  }

  /** Where a batch is cut does not matter: two accepted halves leave what the whole leaves. */
  lemma BatchesCompose<D>(c: Child<D>, after: AgentCursor, middle: AgentCursor, through: AgentCursor,
        a: seq<BatchRecord<D>>, b: seq<BatchRecord<D>>, env: Env<D>)
    requires Identity(middle, env) && |a| + |b| <= BATCH_LIMIT
    requires Identity(through, env) && Apply(c, Events(after, middle, a), env).1
    ensures Apply(c, Events(after, through, a + b), env) ==
            Apply(Apply(c, Events(after, middle, a), env).0, Events(middle, through, b), env)
  {
    RecordsCompose(c, a, b, env);
  }

  // ---- what each observation does ----

  /** The activation's own cursor at some position. */
  function Own<D>(env: Env<D>, cursor: string): AgentCursor {
    AgentCursor(env.agentId, env.conversationId, env.activationId, cursor)
  }

  predicate Ours<D>(o: Observation<D>, env: Env<D>)
    requires o.Baseline? || o.Resync?
  {
    (o.agentId, o.conversationId, o.activationId) == (env.agentId, env.conversationId, env.activationId)
  }

  /**
   * A baseline is accepted exactly when it is this activation's: its checkpoint is of the
   * conversation with valid evidence, and it has a cursor, the activation's own at the checkpoint
   * and not before the applied one, exactly when it is live.
   */
  lemma BaselineExactly<D>(c: Child<D>, o: Observation<D>, env: Env<D>)
    requires o.Baseline?
    ensures var (d, ok) := Apply(c, o, env);
            && (ok <==>
                  && Ours(o, env) && o.checkpoint.snapshot.conversationId == env.conversationId
                  && ValidCut(o.checkpoint.cut, env.conversationId, Some(env.activationId), o.checkpoint.cursor)
                  && o.cursor == (if o.live then Some(Own(env, o.checkpoint.cursor)) else None)
                  && (o.live && c.appliedCursor.Some? ==>
                        var next, now := env.big(o.checkpoint.cursor), env.big(c.appliedCursor.value.cursor);
                        next.Some? && now.Some? && now.value <= next.value))
            && (ok ==> d.phase == (if o.live then LiveFollowing else DurableOnly) && d.cursor == o.cursor
                       && d.checkpoint == Some(o.checkpoint) && d.snapshot == Some(o.checkpoint.snapshot)
                       && d.appliedCursor == (if o.live then o.cursor else c.appliedCursor))
            && (!ok ==> d == c)
  {
  }

  /** A resynchronization notice of this activation drops the cursor and nothing else that is displayed. */
  lemma ResyncExactly<D>(c: Child<D>, o: Observation<D>, env: Env<D>)
    requires o.Resync?
    ensures Apply(c, o, env) ==
            if Ours(o, env) then (Child(Phase.ResyncRequired, c.checkpoint, c.snapshot, None, c.appliedCursor), true)
            else (c, false)
  {
  }

  /** A batch that does not join what the child follows loses continuity; one over 32 records is refused whole. */
  lemma BatchJoinsExactly<D>(c: Child<D>, o: Observation<D>, env: Env<D>)
    requires o.Events?
    ensures var (d, ok) := Apply(c, o, env);
            var joins := c.phase == LiveFollowing && c.snapshot.Some? && c.cursor.Some?
                         && o.after == Own(env, c.cursor.value.cursor) && o.through == Own(env, o.through.cursor);
            && (!joins ==> !ok && d == c.(phase := Phase.ResyncRequired))
            && (joins && |o.events| > 32 ==> (d, ok) == (c, false))
  {
  }

  /** One record goes through exactly when it is the next, is in scope, and folds within the conversation. */
  lemma RecordExactly<D>(c: Child<D>, record: BatchRecord<D>, env: Env<D>)
    requires c.cursor.Some? && c.snapshot.Some?
    ensures var (d, ok) := ApplyRecord(c, record, env);
            var next, now := env.big(record.cursor), env.big(c.cursor.value.cursor);
            var folded := env.fold(c.snapshot.value, record.event, record.cursor);
            && (ok <==>
                  && next.Some? && now.Some? && next.value == now.value + 1
                  && EventIdentity(record.event, Scope(env.conversationId, Some(env.activationId)), record.cursor)
                  && folded.Some? && folded.value.conversationId == env.conversationId)
            && (ok ==> d.phase == c.phase && d.snapshot == folded
                       && d.cursor == d.appliedCursor == Some(c.cursor.value.(cursor := record.cursor))
                       && d.checkpoint == (if env.observed(folded.value, record.cursor).Some?
                                           then env.observed(folded.value, record.cursor) else c.checkpoint))
            && (!ok && next.Some? && now.Some? ==> d == c.(phase := Phase.ResyncRequired))
            && (next.None? || now.None? ==> d == c)
  {
  }

  // ---- from a baseline to the end of the log ----

  /** Published events n+1 .. m as one batch. */
  function BatchOf<D>(log: Log<Snapshot<D>, RuntimeEvent<D>>, n: nat, m: nat): seq<BatchRecord<D>>
    requires n <= m <= |log.events|
    decreases m - n
  {
    if n == m then [] else [BatchRecord(NatText(n + 1), log.events[n])] + BatchOf(log, n + 1, m)
  }

  lemma {:induction false} BatchLength<D>(log: Log<Snapshot<D>, RuntimeEvent<D>>, n: nat, m: nat)
    requires n <= m <= |log.events|
    ensures |BatchOf(log, n, m)| == m - n
    decreases m - n
  {
    if n < m { BatchLength(log, n + 1, m); }
  }

  /** Event `k` is in scope and folds to the published state of the conversation. */
  ghost predicate FoldsAt<D>(log: Log<Snapshot<D>, RuntimeEvent<D>>, env: Env<D>, k: nat)
    requires k < |log.events| && |log.states| == |log.events| + 1
  {
    && EventIdentity(log.events[k], Scope(env.conversationId, Some(env.activationId)), NatText(k + 1))
    && env.fold(log.states[k], log.events[k], NatText(k + 1)) == Some(log.states[k + 1])
    && log.states[k + 1].conversationId == env.conversationId
  }

  ghost predicate Foldable<D>(log: Log<Snapshot<D>, RuntimeEvent<D>>, env: Env<D>) {
    |log.states| == |log.events| + 1 && forall k :: 0 <= k < |log.events| ==> FoldsAt(log, env, k)
  }

  /** The child stands at revision `n` of the log. */
  ghost predicate StandsAt<D>(c: Child<D>, log: Log<Snapshot<D>, RuntimeEvent<D>>, n: nat, env: Env<D>)
    requires n < |log.states|
  {
    c.cursor == c.appliedCursor == Some(Own(env, NatText(n))) && c.snapshot == Some(log.states[n])
  }

  lemma NextGoesThrough<D>(c: Child<D>, log: Log<Snapshot<D>, RuntimeEvent<D>>, n: nat, env: Env<D>)
    requires ReadsDecimals(env) && Foldable(log, env) && n < |log.events| && StandsAt(c, log, n, env)
    ensures var (d, ok) := ApplyRecord(c, BatchRecord(NatText(n + 1), log.events[n]), env);
            ok && d.phase == c.phase && StandsAt(d, log, n + 1, env)
  {
    assert FoldsAt(log, env, n);
    RecordExactly(c, BatchRecord(NatText(n + 1), log.events[n]), env);
  }

  lemma {:induction false} BatchGoesThrough<D>(c: Child<D>, log: Log<Snapshot<D>, RuntimeEvent<D>>, n: nat, m: nat,
        env: Env<D>)
    requires ReadsDecimals(env) && Foldable(log, env) && n <= m <= |log.events| && StandsAt(c, log, n, env)
    ensures var (d, ok) := ApplyRecords(c, BatchOf(log, n, m), env);
            ok && d.phase == c.phase && StandsAt(d, log, m, env)
    decreases m - n
  {
    if n < m {
      var records := BatchOf(log, n, m);
      assert records[1..] == BatchOf(log, n + 1, m);
      NextGoesThrough(c, log, n, env);
      BatchGoesThrough(ApplyRecord(c, records[0], env).0, log, n + 1, m, env);
    }
  }

  /** So does the observation that carries it. */
  lemma EventsGoThrough<D>(c: Child<D>, log: Log<Snapshot<D>, RuntimeEvent<D>>, n: nat, m: nat, env: Env<D>)
    requires ReadsDecimals(env) && Foldable(log, env) && n <= m <= |log.events| && m - n <= 32
    requires StandsAt(c, log, n, env) && c.phase == LiveFollowing
    ensures var (d, ok) := Apply(c, Events(Own(env, NatText(n)), Own(env, NatText(m)), BatchOf(log, n, m)), env);
            ok && d.phase == LiveFollowing && StandsAt(d, log, m, env)
  {
    BatchLength(log, n, m);
    BatchGoesThrough(c, log, n, m, env);
  }

  /** The observations that bring a child from anything to revision `m`: a live baseline, then one batch. */
  function CatchUp<D>(log: Log<Snapshot<D>, RuntimeEvent<D>>, n: nat, m: nat, cut: ReadCut, env: Env<D>): seq<Step<D>>
    requires n <= m <= |log.events| && n < |log.states|
  {
    [Observe(Baseline(env.agentId, env.conversationId, env.activationId, true, Some(Own(env, NatText(n))),
                      Checkpoint(log.states[n], NatText(n), cut))),
     Observe(Events(Own(env, NatText(n)), Own(env, NatText(m)), BatchOf(log, n, m)))]
  }

  /** Whatever the child held before, up to revision `n`: it follows live at revision `m`, with its state. */
  lemma CatchUpReachesTheEnd<D(!new)>(sys: System<D>, n: nat, m: nat, cut: ReadCut, env: Env<D>)
    requires ReadsDecimals(env) && Foldable(sys.log, env) && n <= m <= |sys.log.events| && m - n <= 32
    requires ValidCut(cut, env.conversationId, Some(env.activationId), NatText(n))
    requires sys.log.states[n].conversationId == env.conversationId
    requires sys.child.appliedCursor.Some? ==>
               env.big(sys.child.appliedCursor.value.cursor).Some? && AppliedValue(sys.child, env) <= n
    ensures var end := Run(sys, CatchUp(sys.log, n, m, cut, env), env);
            && end.log == sys.log && end.child.phase == LiveFollowing
            && end.child.cursor == end.child.appliedCursor == Some(Own(env, NatText(m)))
            && end.child.snapshot == Some(sys.log.states[m])
  {
    var steps := CatchUp(sys.log, n, m, cut, env);
    BaselineExactly(sys.child, steps[0].observation, env);
    var live := Next(sys, steps[0], env);
    EventsGoThrough(live.child, sys.log, n, m, env);
    TwoSteps(sys, steps[0], steps[1], env);
    assert steps == [steps[0], steps[1]];
  }

  lemma TwoSteps<D>(sys: System<D>, a: Step<D>, b: Step<D>, env: Env<D>)
    ensures Run(sys, [a, b], env) == Next(Next(sys, a, env), b, env)
  {
    assert [a, b][1..] == [b] && [b][1..] == [];
    assert Run(Next(sys, a, env), [b], env) == Next(Next(sys, a, env), b, env);
  }

  /** Publishing appends one state and the event that leads to it, and leaves the child alone. */
  lemma AppendPublishes<D>(sys: System<D>, event: RuntimeEvent<D>, successor: Snapshot<D>, env: Env<D>)
    ensures var next := Next(sys, Append(event, successor), env);
            && next.child == sys.child && next.log.states == sys.log.states + [successor]
            && next.log.events == sys.log.events + [event]
  {
  }
}
