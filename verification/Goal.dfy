/** Revisioned Goal authority: one state machine, many owners, one publication lock. */
module Goal {
  import opened Common
  import opened Decimal
  import opened Text

  const MAX_ROUND_BUDGET: nat := 100
  const MAX_OBJECTIVE_BYTES: nat := 8192
  const MAX_REVISION: nat := 0xffff_ffff_ffff_ffff

  datatype GoalRef = GoalRef(id: string, revision: nat)

  datatype Phase = Active | Paused | Blocked | Completed

  datatype Origin = HumanAttempt(messageId: string, attemptId: string) | RuntimeControl

  datatype Snapshot = Snapshot(
    reference: GoalRef, objective: string, phase: Phase, blockedReason: Option<string>,
    budget: nat, consumed: nat, origin: Origin, lastRound: Option<string>)

  datatype Mutation =
    | Pause
    | Resume
    | Block(reason: string)
    | MarkComplete
    | Edit(objective: string)
    | Budget(rounds: nat)

  datatype Write =
    | Create(objective: string, budget: nat, origin: Origin)
    | Mutate(expected: GoalRef, mutation: Mutation)

  datatype Reason = Unfinished | OutOfBounds | Exhausted | NoGoal | Stale | Terminal | Invalid | Cancelled

  datatype Rejection = Rejection(reason: Reason, current: Option<Snapshot>)

  type GoalResult = Result<Snapshot, Rejection>

  predicate ValidText(text: string) {
    (exists i :: 0 <= i < |text| && !IsWhiteSpace(text[i])) && ByteLength(text) <= MAX_OBJECTIVE_BYTES
  }

  predicate ValidBudget(rounds: nat) { 1 <= rounds <= MAX_ROUND_BUDGET }

  function GoalId(revision: nat): string { "goal-" + NatText(revision) }

  /** The pure state machine, run inside the durable write transaction. */
  function Transition(current: Option<Snapshot>, write: Write): GoalResult {
    match write
    case Create(objective, budget, origin) =>
      if current.Some? && current.value.phase != Completed then Err(Rejection(Unfinished, current))
      else if !ValidText(objective) || !ValidBudget(budget) then Err(Rejection(OutOfBounds, current))
      else if current.Some? && current.value.reference.revision == MAX_REVISION then Err(Rejection(Exhausted, current))
      else
        var revision := if current.Some? then current.value.reference.revision + 1 else 1;
        Ok(Snapshot(GoalRef(GoalId(revision), revision), objective, Active, None, budget, 0, origin, None))
    case Mutate(expected, mutation) =>
      if current.None? then Err(Rejection(NoGoal, current))
      else
        var goal := current.value;
        if goal.reference != expected then Err(Rejection(Stale, current))
        else if goal.phase == Completed then Err(Rejection(Terminal, current))
        else match Applied(goal, mutation)
          case None => Err(Rejection(Invalid, current))
          case Some(next) =>
            if goal.reference.revision == MAX_REVISION then Err(Rejection(Exhausted, current))
            else Ok(next.(reference := next.reference.(revision := goal.reference.revision + 1)))
  }

  /** The guarded match on the mutation, before the revision advances. */
  function Applied(goal: Snapshot, mutation: Mutation): Option<Snapshot> {
    match mutation
    case Pause => if goal.phase == Active then Some(goal.(phase := Paused)) else None
    case Resume => if goal.phase == Paused
      || goal.phase == Blocked then Some(goal.(phase := Active, blockedReason := None)) else None
    case Block(reason) => if goal.phase == Active
      && ValidText(reason) then Some(goal.(phase := Blocked, blockedReason := Some(reason))) else None
    case MarkComplete => if goal.phase == Active then Some(goal.(phase := Completed)) else None
    case Edit(objective) => if ValidText(objective) then Some(goal.(objective := objective)) else None
    case Budget(rounds) => if ValidBudget(rounds) && rounds >= goal.consumed then Some(goal.(budget := rounds))
      else None
  }

  // ---- the durable store ----

  datatype Change = Created | Changed(mutation: Mutation)

  datatype GoalFact =
    | Written(previous: Option<GoalRef>, current: GoalRef, phase: Phase, change: Change)
    | RoundAdmitted(before: GoalRef, current: GoalRef, round: nat, messageId: string)

  datatype Draft = Draft(fromRuntime: bool, continuation: Option<GoalRef>)

  /** The Goal row, the pending inbound queue and the Goal facts of the event journal. */
  datatype Store = Store(goal: Option<Snapshot>, pending: seq<string>, facts: seq<GoalFact>)

  function ChangeOf(write: Write): Change { if write.Create? then Created else Changed(write.mutation) }

  /** `write_goal`: one immediate transaction. */
  function WriteGoal(store: Store, write: Write): (Store, GoalResult) {
    var result := Transition(store.goal, write);
    if result.Err? then (store, result)
    else
      var previous := if store.goal.Some? then Some(store.goal.value.reference) else None;
      var fact := Written(previous, result.value.reference, result.value.phase, ChangeOf(write));
      (store.(goal := Some(result.value), facts := store.facts + [fact]), result)
  }

  datatype StoreError = Storage | InvalidReference | InvalidTransition(reason: Reason) | SequenceExhausted

  predicate Authorizes(goal: Option<Snapshot>) {
    goal.Some? && goal.value.phase == Active && goal.value.consumed < goal.value.budget
  }

  /**
   * `accept_goal_round`: CAS, accounting and inbound acceptance in one
   * transaction. `inbound` is what accepting the draft yields: its message
   * identity, or the error that rolls everything back.
   */
  function AcceptGoalRound(store: Store, expected: GoalRef, draft: Draft, inbound: Result<string, StoreError>)
    : (Store, Result<Option<string>, StoreError>)
  {
    if !Authorizes(store.goal) || store.goal.value.reference != expected then (store, Ok(None))
    else if store.pending != [] then (store, Ok(None))
    else if !draft.fromRuntime || draft.continuation != Some(expected) then (store, Err(InvalidReference))
    else if inbound.Err? then (store, Err(inbound.error))
    else if expected.revision == MAX_REVISION then (store, Err(SequenceExhausted))
    else
      var goal := store.goal.value;
      var reference := expected.(revision := expected.revision + 1);
      var next := goal.(consumed := goal.consumed + 1, reference := reference, lastRound := Some(inbound.value));
      (Store(Some(next), store.pending + [inbound.value],
             store.facts + [RoundAdmitted(expected, reference, next.consumed, inbound.value)]), Ok(Some(inbound.value)))
  }

  // ---- operations of one owner ----

  datatype Operation =
    | WriteIf(write: Write, allowed: bool)
    | PauseIfCurrent(expected: GoalRef)
    | Reserve(draft: GoalRef -> Draft, inbound: Result<string, StoreError>)

  datatype Reply =
    | Wrote(result: GoalResult)
    | Interrupted(goal: Option<Snapshot>)
    | Admitted(message: Option<string>)
    | Failed(error: StoreError)

  /** What the lock holder decides after reading the store; `None` means it goes on to commit. */
  function AfterRead(op: Operation, goal: Option<Snapshot>): Option<Reply> {
    match op
    case WriteIf(_, allowed) => if allowed then None else Some(Wrote(Err(Rejection(Cancelled, goal))))
    case PauseIfCurrent(expected) =>
      if goal.Some? && goal.value.phase == Active && goal.value.reference == expected then None
        else Some(Interrupted(None))
    case Reserve(_, _) => if Authorizes(goal) then None else Some(Admitted(None))
  }

  /** The durable call itself, with the reference the holder read. */
  function Commit(op: Operation, read: Option<Snapshot>, store: Store): (Store, Reply)
    requires AfterRead(op, read).None?
  {
    match op
    case WriteIf(write, _) => var (next, result) := WriteGoal(store, write); (next, Wrote(result))
    case PauseIfCurrent(_) =>
      var (next, result) := WriteGoal(store, Mutate(read.value.reference, Pause));
      (next, if result.Ok? then Interrupted(Some(result.value)) else Failed(InvalidTransition(result.error.reason)))
    case Reserve(draft, inbound) =>
      var expected := read.value.reference;
      var (next, result) := AcceptGoalRound(store, expected, draft(expected), inbound);
      (next, if result.Ok? then Admitted(result.value) else Failed(result.error))
  }

  /** The operation as one indivisible action. */
  function Atomic(op: Operation, store: Store): (Store, Reply) {
    var decided := AfterRead(op, store.goal);
    if decided.Some? then (store, decided.value) else Commit(op, store.goal, store)
  }

  predicate Committed(before: Store, after: Store) { |after.facts| == |before.facts| + 1 }

  /** One durable state owner with an installed observer. */
  class GoalDomain {
    var store: Store
    var observed: seq<Snapshot>

    constructor (store: Store)
      ensures this.store == store && observed == []
    {
      this.store, this.observed := store, [];
    }

    /** `commit`: the durable write, then its observation. */
    method CommitWrite(write: Write) returns (result: GoalResult)
      modifies this
      ensures (store, result) == WriteGoal(old(store), write)
      ensures observed == old(observed) + (if result.Ok? then [result.value] else [])
    {
      var (next, r) := WriteGoal(store, write);
      store, result := next, r;
      if result.Ok? { observed := observed + [result.value]; }
    }

    method WriteIfAllowed(write: Write, allowed: bool) returns (result: GoalResult)
      modifies this
      ensures (store, Wrote(result)) == Atomic(WriteIf(write, allowed), old(store))
      ensures observed == old(observed) + (if result.Ok? then [result.value] else [])
    {
      if !allowed { return Err(Rejection(Cancelled, store.goal)); }
      result := CommitWrite(write);
    }

    method PauseIfCurrentRef(expected: GoalRef) returns (reply: Reply)
      modifies this
      ensures (store, reply) == Atomic(PauseIfCurrent(expected), old(store))
      ensures observed == old(observed) + (if Committed(old(store), store) then [store.goal.value] else [])
    {
      if !(store.goal.Some? && store.goal.value.phase == Active && store.goal.value.reference == expected) {
        return Interrupted(None);
      }
      var result := CommitWrite(Mutate(store.goal.value.reference, Pause));
      reply := if result.Ok? then Interrupted(Some(result.value)) else Failed(InvalidTransition(result.error.reason));
    }

    method ReserveAndAccept(draft: GoalRef -> Draft, inbound: Result<string, StoreError>) returns (reply: Reply)
      modifies this
      ensures (store, reply) == Atomic(Reserve(draft, inbound), old(store))
      ensures observed == old(observed) + (if Committed(old(store), store) then [store.goal.value] else [])
    {
      if store.goal.None? { return Admitted(None); }
      var goal := store.goal.value;
      if goal.phase != Active || goal.consumed >= goal.budget { return Admitted(None); }
      var expected := goal.reference;
      var (next, result) := AcceptGoalRound(store, expected, draft(expected), inbound);
      store := next;
      if result.Ok? && result.value.Some? { observed := observed + [store.goal.value]; }
      reply := if result.Ok? then Admitted(result.value) else Failed(result.error);
    }
  }

  // ---- what one write does ----

  predicate WellFormed(goal: Snapshot) {
    && ValidBudget(goal.budget) && goal.consumed <= goal.budget
    && (goal.blockedReason.Some? <==> goal.phase == Blocked)
    && 1 <= goal.reference.revision <= MAX_REVISION
  }

  /** When a mutation of the current Goal is legal: the lifecycle table. */
  predicate Legal(goal: Snapshot, mutation: Mutation) {
    match mutation
    case Pause | MarkComplete => goal.phase == Active
    case Block(reason) => goal.phase == Active && ValidText(reason)
    case Resume => goal.phase in {Paused, Blocked}
    case Edit(objective) => goal.phase != Completed && ValidText(objective)
    case Budget(rounds) => goal.phase != Completed && goal.consumed <= rounds <= 100 && rounds >= 1
  }

  /** A mutation keeps identity, accounting and origin, whatever else it changes. */
  predicate KeepsAccounting(a: Snapshot, b: Snapshot) {
    && b.reference == GoalRef(a.reference.id, a.reference.revision + 1)
    && b.consumed == a.consumed && b.origin == a.origin && b.lastRound == a.lastRound
  }

  /** The one field a mutation is about; everything else stays. */
  predicate ChangesOnly(a: Snapshot, b: Snapshot, mutation: Mutation) {
    && (b.objective == if mutation.Edit? then mutation.objective else a.objective)
    && (b.budget == if mutation.Budget? then mutation.rounds else a.budget)
    && b.phase == (match mutation
                   case Pause => Paused
                   case Resume => Active
                   case Block(_) => Blocked
                   case MarkComplete => Completed
                   case _ => a.phase)
    && b.blockedReason == (match mutation
                           case Block(reason) => Some(reason)
                           case Resume => None
                           case _ => a.blockedReason)
  }

  lemma MutationExactly(goal: Snapshot, expected: GoalRef, mutation: Mutation)
    requires WellFormed(goal)
    ensures var r := Transition(Some(goal), Mutate(expected, mutation));
            && (r.Ok? <==>
                  expected == goal.reference && Legal(goal, mutation) && goal.reference.revision < MAX_REVISION)
            && (r.Ok? ==> WellFormed(r.value) && KeepsAccounting(goal, r.value) && ChangesOnly(goal, r.value, mutation))
            && (r.Err? ==> r.error == Rejection(MutationRefusal(goal, expected, mutation), Some(goal)))
  {
  }

  /** Which refusal a mutation meets, in the order the source tests for them. */
  function MutationRefusal(goal: Snapshot, expected: GoalRef, mutation: Mutation): Reason {
    if expected != goal.reference then Stale
    else if goal.phase.Completed? then Terminal
    else if !Legal(goal, mutation) then Invalid
    else Exhausted
  }

  /** Some character is not white space, and the UTF-8 text is no longer than 8192 bytes. */
  lemma TextBounds(text: string, rounds: nat)
    ensures ValidText(text) <==> (exists c :: c in text && !IsWhiteSpace(c)) && ByteLength(text) <= 8192
    ensures ValidBudget(rounds) <==> 1 <= rounds <= 100
  {
    if ValidText(text) {
      var i :| 0 <= i < |text| && !IsWhiteSpace(text[i]);
      assert text[i] in text;
    }
  }

  lemma NoGoalToMutate(expected: GoalRef, mutation: Mutation)
    ensures Transition(None, Mutate(expected, mutation)) == Err(Rejection(NoGoal, None))
  {
  }

  lemma CreateExactly(current: Option<Snapshot>, objective: string, budget: nat, origin: Origin)
    requires current.Some? ==> WellFormed(current.value)
    ensures var r := Transition(current, Create(objective, budget, origin));
            && (r.Ok? <==>
                  && (current.None? ||
                      (current.value.phase == Completed && current.value.reference.revision < MAX_REVISION))
                  && ValidText(objective) && ValidBudget(budget))
            && (r.Ok? ==>
                  && WellFormed(r.value) && r.value.phase == Active && r.value.consumed == 0
                  && r.value.objective == objective && r.value.budget == budget && r.value.origin == origin
                  && r.value.reference.revision == (if current.Some? then current.value.reference.revision + 1 else 1)
                  && r.value.reference.id == "goal-" + NatText(r.value.reference.revision))
            && (r.Ok? ==> r.value.lastRound.None? && r.value.blockedReason.None?)
            && (r.Err? ==> r.error == Rejection(CreateRefusal(current, objective, budget), current))
  {
  }

  function CreateRefusal(current: Option<Snapshot>, objective: string, budget: nat): Reason {
    if current.Some? && current.value.phase in {Active, Paused, Blocked} then Unfinished
    else if !ValidText(objective) || budget == 0 || budget > 100 then OutOfBounds
    else Exhausted
  }

  // ---- the history of commits ----

  /** How one committed Goal follows another. */
  predicate Follows(a: Snapshot, b: Snapshot, fact: GoalFact) {
    && b.reference.revision == a.reference.revision + 1 && fact.current == b.reference
    && match fact
       case Written(previous, _, phase, Created) =>
         previous == Some(a.reference) && phase == b.phase == Active && a.phase == Completed && b.consumed == 0
         && b.reference.id == GoalId(b.reference.revision)
       case Written(previous, _, phase, Changed(mutation)) =>
         previous == Some(a.reference) && phase == b.phase && Legal(a, mutation) && KeepsAccounting(a, b)
           && ChangesOnly(a, b, mutation)
       case RoundAdmitted(before, _, round, messageId) =>
         before == a.reference && a.phase == b.phase == Active
           && round == b.consumed == a.consumed + 1 <= a.budget == b.budget
         && b.reference.id == a.reference.id && b.lastRound == Some(messageId)
  }

  /** Rounds admitted since the last creation recorded in the journal. */
  function RoundsSinceCreation(facts: seq<GoalFact>): nat {
    if facts == [] then 0
    else match facts[|facts| - 1]
      case Written(_, _, _, Created) => 0
      case Written(_, _, _, Changed(_)) => RoundsSinceCreation(facts[..|facts| - 1])
      case RoundAdmitted(_, _, _, _) => RoundsSinceCreation(facts[..|facts| - 1]) + 1
  }

  predicate ValidHistory(history: seq<Snapshot>, store: Store) {
    && |store.facts| == |history|
    && (store.goal == if history == [] then None else Some(history[|history| - 1]))
    && (forall i :: 0 <= i < |history| ==> WellFormed(history[i]) && history[i].reference.revision == i + 1)
    && (forall i :: 0 < i < |history| ==> Follows(history[i - 1], history[i], store.facts[i]))
    && (forall i :: 0 <= i < |history| ==> history[i].consumed == RoundsSinceCreation(store.facts[..i + 1]))
    && (history != [] ==> store.facts[0].Written? && store.facts[0].change == Created)
  }

  /** The history after `store` changed to `next` by one durable call. */
  function Extended(history: seq<Snapshot>, store: Store, next: Store): seq<Snapshot> {
    if Committed(store, next) && next.goal.Some? then history + [next.goal.value] else history
  }

  /** Consumption keeps counting rounds when one fact is appended. */
  lemma RoundsAfterAppend(facts: seq<GoalFact>, fact: GoalFact, before: Option<Snapshot>, goal: Snapshot)
    requires before.Some? ==> Follows(before.value, goal, fact) && before.value.consumed == RoundsSinceCreation(facts)
    requires before.None? ==> fact.Written? && fact.change == Created && goal.consumed == 0
    ensures goal.consumed == RoundsSinceCreation(facts + [fact])
  {
    assert (facts + [fact])[..|facts|] == facts;
  }

  lemma ConsumedAfterAppend(history: seq<Snapshot>, store: Store, goal: Snapshot, fact: GoalFact, i: nat)
    requires ValidHistory(history, store) && i <= |history|
    requires history != [] ==> Follows(history[|history| - 1], goal, fact)
    requires history == [] ==> fact.Written? && fact.change == Created && goal.consumed == 0
    ensures (history + [goal])[i].consumed == RoundsSinceCreation((store.facts + [fact])[..i + 1])
  {
    var facts, n := store.facts + [fact], |history|;
    if i < n {
      assert facts[..i + 1] == store.facts[..i + 1];
    } else {
      assert facts[..n + 1] == facts && store.facts[..n] == store.facts;
      RoundsAfterAppend(store.facts, fact, if n == 0 then None else Some(history[n - 1]), goal);
    }
  }

  lemma AppendToHistory(history: seq<Snapshot>, store: Store, next: Store, goal: Snapshot, fact: GoalFact)
    requires ValidHistory(history, store)
    requires next.goal == Some(goal) && next.facts == store.facts + [fact]
    requires WellFormed(goal) && goal.reference.revision == |history| + 1
    requires history != [] ==> Follows(history[|history| - 1], goal, fact)
    requires history == [] ==> fact.Written? && fact.change == Created && goal.consumed == 0
    ensures ValidHistory(Extended(history, store, next), next)
  {
    var h := Extended(history, store, next);
    assert h == history + [goal];
    forall i | 0 <= i < |h| ensures h[i].consumed == RoundsSinceCreation(next.facts[..i + 1]) {
      ConsumedAfterAppend(history, store, goal, fact, i);
    }
  }

  lemma WriteKeepsHistory(history: seq<Snapshot>, store: Store, write: Write)
    requires ValidHistory(history, store)
    ensures var (next, result) := WriteGoal(store, write);
            && ValidHistory(Extended(history, store, next), next)
            && (result.Ok? <==> Committed(store, next)) && (result.Ok? ==> next.goal == Some(result.value))
  {
    match write {
      case Create(objective, budget, origin) => CreateExactly(store.goal, objective, budget, origin);
      case Mutate(expected, mutation) => if store.goal.Some? { MutationExactly(store.goal.value, expected, mutation); }
    }
    var (next, result) := WriteGoal(store, write);
    if result.Ok? { AppendToHistory(history, store, next, result.value, next.facts[|store.facts|]); }
  }

  lemma RoundKeepsHistory(history: seq<Snapshot>, store: Store, expected: GoalRef, draft: Draft,
        inbound: Result<string, StoreError>)
    requires ValidHistory(history, store)
    ensures var (next, result) := AcceptGoalRound(store, expected, draft, inbound);
            && ValidHistory(Extended(history, store, next), next)
            && (Committed(store, next) <==> result.Ok? && result.value.Some?)
  {
    var (next, result) := AcceptGoalRound(store, expected, draft, inbound);
    if result.Ok? && result.value.Some? {
      AppendToHistory(history, store, next, next.goal.value, next.facts[|store.facts|]);
    }
  }

  /** A round is admitted exactly when the Goal authorizes it and nothing else stands in the way. */
  lemma AdmissionExactly(store: Store, expected: GoalRef, draft: Draft, inbound: Result<string, StoreError>)
    requires store.goal.Some? ==> WellFormed(store.goal.value)
    ensures var (next, result) := AcceptGoalRound(store, expected, draft, inbound);
            && (result.Ok? && result.value.Some? <==>
                  && store.goal.Some? && store.goal.value.phase == Active
                  && store.goal.value.consumed < store.goal.value.budget
                  && store.goal.value.reference == expected && store.pending == []
                  && draft == Draft(true, Some(expected)) && inbound.Ok? && expected.revision < MAX_REVISION)
            && (!(result.Ok? && result.value.Some?) ==> next == store)
  {
  }

  // ---- interleaving ----

  type Tid = nat

  datatype Pc =
    | Waiting(op: Operation)
    | Entered(op: Operation)
    | Loaded(op: Operation, read: Option<Snapshot>)
    | Published(op: Operation, reply: Reply, receipt: Snapshot)
    | Finished(op: Operation, reply: Reply)

  /** Owners of one store; `history` records every durable commit in order. */
  datatype System = System(
    store: Store, holder: Option<Tid>, threads: map<Tid, Pc>, observed: seq<Snapshot>, history: seq<Snapshot>)

  datatype Step =
    | Begin(tid: Tid, op: Operation)
    | Lock(tid: Tid)
    | Read(tid: Tid)
    | CommitStep(tid: Tid)
    | Notify(tid: Tid)
    | StorageFault(tid: Tid)
    | EnqueueInbound(message: string)
    | DrainInbound

  function At(sys: System, tid: Tid, pc: Pc): System { sys.(threads := sys.threads[tid := pc]) }

  /** Releasing the guard with a reply. */
  function Leave(sys: System, tid: Tid, op: Operation, reply: Reply): System {
    At(sys, tid, Finished(op, reply)).(holder := None)
  }

  /** Any step list is a run: a step that is not enabled changes nothing. */
  function Next(sys: System, step: Step): System {
    match step
    case Begin(tid, op) => if tid in sys.threads then sys else At(sys, tid, Waiting(op))
    case Lock(tid) =>
      if sys.holder.Some? || tid !in sys.threads || !sys.threads[tid].Waiting? then sys
      else At(sys, tid, Entered(sys.threads[tid].op)).(holder := Some(tid))
    case Read(tid) =>
      if tid !in sys.threads || !sys.threads[tid].Entered? then sys
      else
        var op, goal := sys.threads[tid].op, sys.store.goal;
        var decided := AfterRead(op, goal);
        if decided.Some? then Leave(sys, tid, op, decided.value) else At(sys, tid, Loaded(op, goal))
    case CommitStep(tid) =>
      if tid !in sys.threads || !sys.threads[tid].Loaded?
        || AfterRead(sys.threads[tid].op, sys.threads[tid].read).Some? then sys
      else
        var op := sys.threads[tid].op;
        var (next, reply) := Commit(op, sys.threads[tid].read, sys.store);
        var history := Extended(sys.history, sys.store, next);
        if Committed(sys.store, next) && next.goal.Some?
        then At(sys, tid, Published(op, reply, next.goal.value)).(store := next, history := history)
        else Leave(sys, tid, op, reply).(store := next, history := history)
    case Notify(tid) =>
      if tid !in sys.threads || !sys.threads[tid].Published? then sys
      else
        var pc := sys.threads[tid];
        Leave(sys, tid, pc.op, pc.reply).(observed := sys.observed + [pc.receipt])
    case StorageFault(tid) =>
      if tid !in sys.threads || !(sys.threads[tid].Entered? || sys.threads[tid].Loaded?) then sys
      else Leave(sys, tid, sys.threads[tid].op, Failed(Storage))
    case EnqueueInbound(message) => sys.(store := sys.store.(pending := sys.store.pending + [message]))
    case DrainInbound => sys.(store := sys.store.(pending := []))
  }

  function Run(sys: System, steps: seq<Step>): System
    decreases |steps|
  {
    if steps == [] then sys else Run(Next(sys, steps[0]), steps[1..])
  }

  predicate InCriticalSection(pc: Pc) { pc.Entered? || pc.Loaded? || pc.Published? }

  /** Only the holder is inside, and what it read is still current when it commits. */
  predicate LockDiscipline(sys: System) {
    && (sys.holder.Some? ==> sys.holder.value in sys.threads && InCriticalSection(sys.threads[sys.holder.value]))
    && (forall t :: t in sys.threads && InCriticalSection(sys.threads[t]) ==> sys.holder == Some(t))
    && (forall t :: t in sys.threads && sys.threads[t].Loaded? ==>
          sys.threads[t].read == sys.store.goal && AfterRead(sys.threads[t].op, sys.store.goal).None?)
  }

  /** Observations are the commits, in order; at most the holder's own is still to be published. */
  predicate ObservedInOrder(sys: System) {
    if sys.holder.Some? && sys.holder.value in sys.threads && sys.threads[sys.holder.value].Published?
    then sys.history == sys.observed + [sys.threads[sys.holder.value].receipt]
    else sys.history == sys.observed
  }

  predicate Inv(sys: System) {
    ValidHistory(sys.history, sys.store) && LockDiscipline(sys) && ObservedInOrder(sys)
  }

  lemma CommitKeepsHistory(op: Operation, store: Store, history: seq<Snapshot>)
    requires ValidHistory(history, store) && AfterRead(op, store.goal).None?
    ensures var (next, reply) := Commit(op, store.goal, store); ValidHistory(Extended(history, store, next), next)
    ensures var (next, reply) := Commit(op, store.goal, store);
            next.goal != store.goal ==> Committed(store, next) && next.goal.Some?
  {
    match op {
      case WriteIf(write, _) => WriteKeepsHistory(history, store, write);
      case PauseIfCurrent(_) => WriteKeepsHistory(history, store, Mutate(store.goal.value.reference, Pause));
      case Reserve(draft, inbound) =>
        var expected := store.goal.value.reference;
        RoundKeepsHistory(history, store, expected, draft(expected), inbound);
        AdmissionExactly(store, expected, draft(expected), inbound);
    }
  }

  /** The holder alone moves: it publishes one more state and stays, or it leaves with nothing new. */
  lemma CommitUnderLock(sys: System, tid: Tid, pc: Pc, next: Store, history: seq<Snapshot>)
    requires LockDiscipline(sys) && ObservedInOrder(sys) && tid in sys.threads && sys.threads[tid].Loaded?
    requires pc.Published? || pc.Finished?
    requires history == if pc.Published? then sys.history + [pc.receipt] else sys.history
    ensures var holder := if pc.Published? then sys.holder else None;
            var after := System(next, holder, sys.threads[tid := pc], sys.observed, history);
            LockDiscipline(after) && ObservedInOrder(after)
  {
  }

  /** Committing under the lock keeps the invariant and adds at most one state. */
  lemma CommitStepKeepsInv(sys: System, tid: Tid)
    requires Inv(sys) && tid in sys.threads && sys.threads[tid].Loaded?
    ensures Inv(Next(sys, CommitStep(tid))) && sys.history <= Next(sys, CommitStep(tid)).history
    ensures |Next(sys, CommitStep(tid)).history| <= |sys.history| + 1
  {
    CommitKeepsHistory(sys.threads[tid].op, sys.store, sys.history);
    var after := Next(sys, CommitStep(tid));
    CommitUnderLock(sys, tid, after.threads[tid], after.store, after.history);
  }

  lemma StepKeepsInv(sys: System, step: Step)
    requires Inv(sys)
    ensures Inv(Next(sys, step)) && sys.history <= Next(sys, step).history
    ensures |Next(sys, step).history| <= |sys.history| + 1
  {
    if step.CommitStep? {
      if step.tid in sys.threads && sys.threads[step.tid].Loaded? { CommitStepKeepsInv(sys, step.tid); }
    } else if step.EnqueueInbound? || step.DrainInbound? {
      InboxKeepsInv(sys, step);
    } else if step.Notify? || step.StorageFault? {
      ExitKeepsInv(sys, step);
    } else {
      EntryKeepsInv(sys, step);
    }
  }

  /** Entering and reading leave the store alone; the lock admits one owner. */
  lemma EntryKeepsInv(sys: System, step: Step)
    requires Inv(sys) && (step.Begin? || step.Lock? || step.Read?)
    ensures Inv(Next(sys, step)) && Next(sys, step).history == sys.history
  {
    if step.Read? { ReadKeepsInv(sys, step.tid); }
  }

  lemma ReadKeepsInv(sys: System, tid: Tid)
    requires Inv(sys)
    ensures Inv(Next(sys, Read(tid))) && Next(sys, Read(tid)).history == sys.history
  {
  }

  /** Publishing observes the holder's own commit; a fault changes nothing but its owner. */
  lemma ExitKeepsInv(sys: System, step: Step)
    requires Inv(sys) && (step.Notify? || step.StorageFault?)
    ensures Inv(Next(sys, step)) && Next(sys, step).history == sys.history
  {
  }

  lemma InboxKeepsInv(sys: System, step: Step)
    requires Inv(sys) && (step.EnqueueInbound? || step.DrainInbound?)
    ensures Inv(Next(sys, step)) && Next(sys, step).history == sys.history
  {
    HistoryIgnoresInbox(sys.history, sys.store, Next(sys, step).store);
  }

  lemma HistoryIgnoresInbox(history: seq<Snapshot>, store: Store, next: Store)
    requires ValidHistory(history, store) && next.goal == store.goal && next.facts == store.facts
    ensures ValidHistory(history, next)
  {
  }

  /** Over every interleaving: the invariant, and a history that only grows, one commit at a time. */
  lemma {:induction false} RunKeepsInv(sys: System, steps: seq<Step>)
    requires Inv(sys)
    ensures Inv(Run(sys, steps)) && sys.history <= Run(sys, steps).history
    decreases |steps|
  {
    if steps != [] {
      StepKeepsInv(sys, steps[0]);
      RunKeepsInv(Next(sys, steps[0]), steps[1..]);
    }
  }

  /** No owner, no Goal, nothing observed. */
  const EMPTY := System(Store(None, [], []), None, map[], [], [])

  /** Every state any interleaving reaches from nothing is valid. */
  lemma EveryRunIsValid(steps: seq<Step>)
    ensures Inv(Run(EMPTY, steps))
  {
    RunKeepsInv(EMPTY, steps);
  }

  /** No GoalRef ever names two states, even across a completed Goal and its successor. */
  lemma ReferencesAreUnique(steps: seq<Step>, i: nat, j: nat)
    requires i < |Run(EMPTY, steps).history| && j < |Run(EMPTY, steps).history|
    ensures var history := Run(EMPTY, steps).history; history[i].reference == history[j].reference ==> i == j
  {
    EveryRunIsValid(steps);
    var history := Run(EMPTY, steps).history;
    assert history[i].reference.revision == i + 1 && history[j].reference.revision == j + 1;
  }

  /** Once superseded, a reference can never again write or admit a round. */
  lemma StaleReferenceNeverCommits(steps: seq<Step>, i: nat, mutation: Mutation, draft: Draft,
        inbound: Result<string, StoreError>)
    requires i + 1 < |Run(EMPTY, steps).history|
    ensures var sys := Run(EMPTY, steps); var stale := sys.history[i].reference;
            && WriteGoal(sys.store, Mutate(stale, mutation)) == (sys.store, Err(Rejection(Stale, sys.store.goal)))
            && AcceptGoalRound(sys.store, stale, draft, inbound) == (sys.store, Ok(None))
  {
    EveryRunIsValid(steps);
    ReferencesAreUnique(steps, i, |Run(EMPTY, steps).history| - 1);
  }

  function ReplyOf(pc: Pc): Option<Reply> { if pc.Published? || pc.Finished? then Some(pc.reply) else None }

  /** Under the lock, read-then-commit is one indivisible action on the store. */
  lemma CommitIsAtomic(steps: seq<Step>, tid: Tid)
    requires tid in Run(EMPTY, steps).threads && Run(EMPTY, steps).threads[tid].Loaded?
    ensures var sys := Run(EMPTY, steps); var op, next := sys.threads[tid].op, Next(sys, CommitStep(tid));
            && next.store == Atomic(op, sys.store).0
            && ReplyOf(next.threads[tid]) == Some(Atomic(op, sys.store).1)
  {
    EveryRunIsValid(steps);
  }

  /** What a committed or refused interrupt pause replies. */
  predicate PauseOutcome(reply: Reply, expected: GoalRef) {
    && (reply.Failed? <==> expected.revision == MAX_REVISION)
    && (reply.Failed? ==> reply.error == InvalidTransition(Exhausted))
    && (!reply.Failed? ==> reply.Interrupted? && reply.goal.Some? && reply.goal.value.phase == Paused
                           && reply.goal.value.reference == GoalRef(expected.id, expected.revision + 1))
  }

  /** The interrupt pause commits unless the revision counter is exhausted; no race can refuse it. */
  lemma PauseRefusedOnlyByExhaustion(steps: seq<Step>, tid: Tid)
    requires tid in Run(EMPTY, steps).threads
    requires var pc := Run(EMPTY, steps).threads[tid]; pc.Loaded? && pc.op.PauseIfCurrent?
    ensures var sys := Run(EMPTY, steps);
            var reply := ReplyOf(Next(sys, CommitStep(tid)).threads[tid]);
            reply.Some? && PauseOutcome(reply.value, sys.threads[tid].op.expected)
  {
    EveryRunIsValid(steps);
    var sys := Run(EMPTY, steps);
    var goal := sys.store.goal.value;
    assert goal == sys.history[|sys.history| - 1];
    MutationExactly(goal, goal.reference, Pause);
  }

  /** A completed Goal is only ever followed by a newly created one with another identity. */
  lemma CompleteIsLeftOnlyByCreate(steps: seq<Step>, i: nat)
    requires i + 1 < |Run(EMPTY, steps).history| && Run(EMPTY, steps).history[i].phase == Completed
    ensures var sys := Run(EMPTY, steps); var next := sys.history[i + 1];
            && next.phase == Active && next.consumed == 0 && next.reference.id == GoalId(i + 2)
            && i + 1 < |sys.store.facts| && sys.store.facts[i + 1].Written? && sys.store.facts[i + 1].change == Created
  {
    EveryRunIsValid(steps);
    var sys := Run(EMPTY, steps);
    assert Follows(sys.history[i], sys.history[i + 1], sys.store.facts[i + 1]);
  }

  /** Consumption is exactly the rounds admitted since creation; nothing refunds it. */
  lemma ConsumedIsRoundsAdmitted(steps: seq<Step>)
    requires Run(EMPTY, steps).store.goal.Some?
    ensures var store := Run(EMPTY, steps).store;
            WellFormed(store.goal.value) && store.goal.value.consumed == RoundsSinceCreation(store.facts)
  {
    EveryRunIsValid(steps);
    var sys := Run(EMPTY, steps);
    assert sys.store.facts[..|sys.history|] == sys.store.facts;
  }

  // ---- every reply is one atomic action ----

  /** `value` is durable, with the journal fact that says so, and nothing else changed. */
  predicate Records(store: Store, next: Store, value: Snapshot, change: Change) {
    && next.goal == Some(value) && next.pending == store.pending
    && var previous := if store.goal.Some? then Some(store.goal.value.reference) else None;
       next.facts == store.facts + [Written(previous, value.reference, value.phase, change)]
  }

  /** A guarded write: refused as cancelled, or exactly the state machine's answer on the current Goal. */
  predicate WriteMeets(write: Write, allowed: bool, store: Store, next: Store, reply: Reply) {
    if !allowed then next == store && reply == Wrote(Err(Rejection(Cancelled, store.goal)))
    else
      && reply == Wrote(Transition(store.goal, write))
      && if reply.result.Err? then next == store
         else Records(store, next, reply.result.value, if write.Create? then Created else Changed(write.mutation))
  }

  /** An interrupt pauses exactly the active Goal it names. */
  predicate PauseMeets(expected: GoalRef, store: Store, next: Store, reply: Reply) {
    if store.goal.Some? && store.goal.value.phase == Active && store.goal.value.reference == expected then
      if expected.revision == MAX_REVISION then next == store && reply == Failed(InvalidTransition(Exhausted))
      else
        var paused := store.goal.value.(phase := Paused, reference := GoalRef(expected.id, expected.revision + 1));
        reply == Interrupted(Some(paused)) && Records(store, next, paused, Changed(Pause))
    else next == store && reply == Interrupted(None)
  }

  /** A round is admitted, with its message queued behind nothing, or refused without a trace. */
  predicate ReserveMeets(draft: GoalRef -> Draft, inbound: Result<string, StoreError>, store: Store, next: Store,
        reply: Reply)
  {
    if !(store.goal.Some? && store.goal.value.phase == Active && store.goal.value.consumed < store.goal.value.budget)
       || store.pending != []
    then next == store && reply == Admitted(None)
    else
      var goal := store.goal.value;
      var expected := goal.reference;
      if draft(expected) != Draft(true, Some(expected)) then next == store && reply == Failed(InvalidReference)
      else if inbound.Err? then next == store && reply == Failed(inbound.error)
      else if expected.revision == MAX_REVISION then next == store && reply == Failed(SequenceExhausted)
      else
        var reference := GoalRef(expected.id, expected.revision + 1);
        && reply == Admitted(Some(inbound.value))
        && next.goal ==
           Some(goal.(consumed := goal.consumed + 1, reference := reference, lastRound := Some(inbound.value)))
        && next.pending == [inbound.value]
        && next.facts == store.facts + [RoundAdmitted(expected, reference, goal.consumed + 1, inbound.value)]
  }

  ghost predicate Meets(op: Operation, store: Store, next: Store, reply: Reply) {
    match op
    case WriteIf(write, allowed) => WriteMeets(write, allowed, store, next, reply)
    case PauseIfCurrent(expected) => PauseMeets(expected, store, next, reply)
    case Reserve(draft, inbound) => ReserveMeets(draft, inbound, store, next, reply)
  }

  lemma OperationExactly(op: Operation, store: Store)
    requires store.goal.Some? ==> WellFormed(store.goal.value)
    ensures var (next, reply) := Atomic(op, store); Meets(op, store, next, reply)
  {
    match op {
      case WriteIf(_, _) =>
      case PauseIfCurrent(expected) => if store.goal.Some? { MutationExactly(store.goal.value, expected, Pause); }
      case Reserve(_, _) =>
    }
  }

  /** The step that decides an owner's reply: a storage fault, or its one atomic action on the store. */
  ghost predicate Decides(sys: System, step: Step, tid: Tid, reply: Reply) {
    && tid in sys.threads
    && var next := Next(sys, step);
    || (step == StorageFault(tid) && reply == Failed(Storage) && next.store == sys.store)
    || ((step == Read(tid) || step == CommitStep(tid)) && Meets(sys.threads[tid].op, sys.store, next.store, reply))
  }

  lemma GoalIsWellFormed(sys: System)
    requires Inv(sys) && sys.store.goal.Some?
    ensures WellFormed(sys.store.goal.value)
  {
    assert sys.store.goal.value == sys.history[|sys.history| - 1];
  }

  lemma ReadDecides(sys: System, tid: Tid)
    requires Inv(sys) && tid in sys.threads && sys.threads[tid].Entered?
    requires AfterRead(sys.threads[tid].op, sys.store.goal).Some?
    ensures Decides(sys, Read(tid), tid, AfterRead(sys.threads[tid].op, sys.store.goal).value)
  {
    if sys.store.goal.Some? { GoalIsWellFormed(sys); }
    OperationExactly(sys.threads[tid].op, sys.store);
  }

  lemma CommitDecides(sys: System, tid: Tid)
    requires Inv(sys) && tid in sys.threads && sys.threads[tid].Loaded?
    ensures var next := Next(sys, CommitStep(tid)).threads[tid];
            ReplyOf(next).Some? && Decides(sys, CommitStep(tid), tid, ReplyOf(next).value)
  {
    if sys.store.goal.Some? { GoalIsWellFormed(sys); }
    OperationExactly(sys.threads[tid].op, sys.store);
  }

  /** One step keeps an owner's reply, leaves it undecided, or decides it. */
  lemma StepDecides(sys: System, step: Step, tid: Tid)
    requires Inv(sys) && tid in Next(sys, step).threads && ReplyOf(Next(sys, step).threads[tid]).Some?
    ensures var reply := ReplyOf(Next(sys, step).threads[tid]);
            || (tid in sys.threads && ReplyOf(sys.threads[tid]) == reply
                && sys.threads[tid].op == Next(sys, step).threads[tid].op)
            || (Decides(sys, step, tid, reply.value) && sys.threads[tid].op == Next(sys, step).threads[tid].op)
  {
    if step == Read(tid) && tid in sys.threads && sys.threads[tid].Entered? {
      if AfterRead(sys.threads[tid].op, sys.store.goal).Some? { ReadDecides(sys, tid); }
    } else if step == CommitStep(tid) && tid in sys.threads && sys.threads[tid].Loaded? {
      CommitDecides(sys, tid);
    }
  }

  lemma {:induction false} RunLast(sys: System, steps: seq<Step>)
    requires steps != []
    ensures Run(sys, steps) == Next(Run(sys, steps[..|steps| - 1]), steps[|steps| - 1])
    decreases |steps|
  {
    var n := |steps| - 1;
    if n > 0 {
      RunLast(Next(sys, steps[0]), steps[1..]);
      assert steps[1..][..n - 1] == steps[..n][1..];
    } else {
      assert steps[..0] == [] && steps[1..] == [];
    }
  }

  /** Before step `k` of a run from nothing. */
  function Before(steps: seq<Step>, k: nat): System
    requires k <= |steps|
  {
    Run(EMPTY, steps[..k])
  }

  ghost predicate DecidedAt(steps: seq<Step>, tid: Tid, reply: Reply, k: nat) {
    k < |steps| && Decides(Before(steps, k), steps[k], tid, reply)
  }

  /**
   * In every run, an owner that has its reply got it at one step: a storage fault that changed
   * nothing, or one atomic action that read the current Goal and met the operation's contract.
   */
  lemma {:induction false} EveryReplyIsDecided(steps: seq<Step>, tid: Tid) returns (k: nat)
    requires tid in Run(EMPTY, steps).threads && ReplyOf(Run(EMPTY, steps).threads[tid]).Some?
    ensures DecidedAt(steps, tid, ReplyOf(Run(EMPTY, steps).threads[tid]).value, k)
    ensures Before(steps, k).threads[tid].op == Run(EMPTY, steps).threads[tid].op
    decreases |steps|
  {
    var n := |steps| - 1;
    RunLast(EMPTY, steps);
    EveryRunIsValid(steps[..n]);
    var sys := Before(steps, n);
    StepDecides(sys, steps[n], tid);
    if tid in sys.threads && ReplyOf(sys.threads[tid]) == ReplyOf(Run(EMPTY, steps).threads[tid]) {
      k := EveryReplyIsDecided(steps[..n], tid);
      assert steps[..n][..k] == steps[..k];
    } else {
      k := n;
    }
  }

  /** Draining the inbox touches nothing but what is pending, so the next round may be reserved. */
  lemma DrainExactly(sys: System)
    ensures var next := Next(sys, DrainInbound);
            && next.store.pending == [] && next.store.goal == sys.store.goal && next.store.facts == sys.store.facts
            && next.threads == sys.threads && next.history == sys.history
  {
  }

  // ---- cancellation reaches the store ----

  function Rank(pc: Pc): nat {
    match pc
    case Waiting(_) => 0
    case Entered(_) => 1
    case Loaded(_, _) => 2
    case Published(_, _, _) => 3
    case Finished(_, _) => 4
  }

  lemma OwnerMovesOn(sys: System, step: Step, tid: Tid)
    requires tid in sys.threads
    ensures var next := Next(sys, step);
            && tid in next.threads && sys.threads[tid].op == next.threads[tid].op
            && Rank(sys.threads[tid]) <= Rank(next.threads[tid])
  {
  }

  /** Owners only move on, and keep their operation. */
  lemma {:induction false} OwnersMoveOn(sys: System, steps: seq<Step>, tid: Tid)
    requires tid in sys.threads
    ensures var end := Run(sys, steps);
            && tid in end.threads && sys.threads[tid].op == end.threads[tid].op
            && Rank(sys.threads[tid]) <= Rank(end.threads[tid])
    decreases |steps|
  {
    if steps != [] {
      OwnerMovesOn(sys, steps[0], tid);
      OwnersMoveOn(Next(sys, steps[0]), steps[1..], tid);
    }
  }

  /** A step that extends the history is a commit of an owner that was allowed, and has not committed before. */
  lemma CommitsAreAllowed(steps: seq<Step>, step: Step)
    requires Next(Run(EMPTY, steps), step).history != Run(EMPTY, steps).history
    ensures var sys := Run(EMPTY, steps);
            && step.CommitStep? && step.tid in sys.threads && sys.threads[step.tid].Loaded?
            && (sys.threads[step.tid].op.WriteIf? ==> sys.threads[step.tid].op.allowed)
            && Rank(Next(sys, step).threads[step.tid]) > Rank(sys.threads[step.tid])
  {
    EveryRunIsValid(steps);
  }

  /** A cancelled command replies that it was cancelled, with the Goal it read, and never writes, whatever else runs. */
  lemma CancelledNeverWrites(steps: seq<Step>, tid: Tid) returns (k: nat)
    requires tid in Run(EMPTY, steps).threads
    requires var pc := Run(EMPTY, steps).threads[tid]; pc.op.WriteIf? && !pc.op.allowed && ReplyOf(pc).Some?
    ensures k < |steps| && (steps[k] == StorageFault(tid) || steps[k] == Read(tid) || steps[k] == CommitStep(tid))
    ensures var reply := ReplyOf(Run(EMPTY, steps).threads[tid]).value;
            if steps[k] == StorageFault(tid) then reply == Failed(Storage)
            else reply == Wrote(Err(Rejection(Cancelled, Before(steps, k).store.goal)))
    ensures forall j :: 0 <= j < |steps| && steps[j] == CommitStep(tid) ==>
              Next(Before(steps, j), steps[j]).history == Before(steps, j).history
  {
    k := EveryReplyIsDecided(steps, tid);
    var op := Run(EMPTY, steps).threads[tid].op;
    forall j | 0 <= j < |steps| && steps[j] == CommitStep(tid)
      ensures Next(Before(steps, j), steps[j]).history == Before(steps, j).history
    {
      if Next(Before(steps, j), steps[j]).history != Before(steps, j).history {
        CommitsAreAllowed(steps[..j], steps[j]);
        SplitRun(steps, j);
        OwnersMoveOn(Before(steps, j), steps[j..], tid);
      }
    }
  }

  lemma {:induction false} RunSplit(sys: System, a: seq<Step>, b: seq<Step>)
    ensures Run(sys, a + b) == Run(Run(sys, a), b)
    decreases |a|
  {
    if a == [] {
      assert a + b == b;
    } else {
      assert (a + b)[1..] == a[1..] + b;
      RunSplit(Next(sys, a[0]), a[1..], b);
    }
  }

  lemma SplitRun(steps: seq<Step>, k: nat)
    requires k <= |steps|
    ensures Run(EMPTY, steps) == Run(Before(steps, k), steps[k..])
  {
    assert steps == steps[..k] + steps[k..];
    RunSplit(EMPTY, steps[..k], steps[k..]);
  }

  /** A permitted command without a fault replies the state machine's answer and commits exactly when that is Ok. */
  lemma AllowedIsAnswered(steps: seq<Step>, tid: Tid) returns (k: nat)
    requires tid in Run(EMPTY, steps).threads
    requires var pc := Run(EMPTY, steps).threads[tid]; pc.op.WriteIf? && pc.op.allowed && ReplyOf(pc).Some?
    requires forall j :: 0 <= j < |steps| ==> steps[j] != StorageFault(tid)
    ensures k < |steps|
    ensures var pc, sys := Run(EMPTY, steps).threads[tid], Before(steps, k);
            var next, answer := Next(sys, steps[k]), Transition(sys.store.goal, pc.op.write);
            && ReplyOf(pc) == Some(Wrote(answer))
            && next.history == sys.history + (if answer.Ok? then [answer.value] else [])
            && next.store.goal == (if answer.Ok? then Some(answer.value) else sys.store.goal)
  {
    k := EveryReplyIsDecided(steps, tid);
    var sys, next := Before(steps, k), Next(Before(steps, k), steps[k]);
    EveryRunIsValid(steps[..k]);
    StepKeepsInv(sys, steps[k]);
  }
}
