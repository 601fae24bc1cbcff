/** The authority's totally ordered history of one conversation projection. */
module ServerLog {
  import opened Common

  /** `states[n]` is the projection at revision n; `events[n]` leads to revision n + 1. */
  datatype Log<S, E> = Log(states: seq<S>, events: seq<E>)

  /** A client fold: `None` is a thrown error. */
  type Fold<!S, !E> = (S, E, string) -> Option<S>

  /** Folding a published event either fails or yields the published successor. */
  ghost predicate StepAgrees<S(!new), E(!new)>(fold: Fold<S, E>, before: S, event: E, after: S) {
    forall cursor :: fold(before, event, cursor).Some? ==> fold(before, event, cursor) == Some(after)
  }

  ghost predicate ValidLog<S(!new), E(!new)>(log: Log<S, E>, fold: Fold<S, E>) {
    && |log.states| == |log.events| + 1
    && forall k :: 0 <= k < |log.events| ==> StepAgrees(fold, log.states[k], log.events[k], log.states[k + 1])
  }

  ghost predicate Extends<S, E>(earlier: Log<S, E>, later: Log<S, E>) {
    earlier.states <= later.states && earlier.events <= later.events
  }

  /** Folding a whole prefix from the first state; `cursorOf` spells each revision. */
  ghost function FoldPrefix<S, E>(base: S, events: seq<E>, cursorOf: nat -> string, fold: Fold<S, E>): Option<S> {
    if events == [] then Some(base)
    else
      var last := |events| - 1;
      match FoldPrefix(base, events[..last], cursorOf, fold)
      case None => None
      case Some(s) => fold(s, events[last], cursorOf(|events|))
  }

  /** Wherever the fold goes through, it reproduces the published state. */
  lemma {:induction false} PublishedStateIsFold<S(!new), E(!new)>(log: Log<S, E>, fold: Fold<S, E>, n: nat,
        cursorOf: nat -> string)
    requires ValidLog(log, fold) && n <= |log.events|
    ensures var r := FoldPrefix(log.states[0], log.events[..n], cursorOf, fold); r.Some? ==> r == Some(log.states[n])
  {
    if n > 0 {
      assert log.events[..n][..n - 1] == log.events[..n - 1];
      PublishedStateIsFold(log, fold, n - 1, cursorOf);
      assert StepAgrees(fold, log.states[n - 1], log.events[n - 1], log.states[n]);
    }
  }

  /** And it goes through whenever each published event folds from the published state before it. */
  lemma {:induction false} FoldGoesThrough<S(!new), E(!new)>(log: Log<S, E>, fold: Fold<S, E>, n: nat,
        cursorOf: nat -> string)
    requires ValidLog(log, fold) && n <= |log.events|
    requires forall k :: 0 <= k < n ==> fold(log.states[k], log.events[k], cursorOf(k + 1)).Some?
    ensures FoldPrefix(log.states[0], log.events[..n], cursorOf, fold) == Some(log.states[n])
  {
    if n > 0 {
      assert log.events[..n][..n - 1] == log.events[..n - 1];
      FoldGoesThrough(log, fold, n - 1, cursorOf);
      assert StepAgrees(fold, log.states[n - 1], log.events[n - 1], log.states[n]);
    }
  }
}

/** Client application authority over one observation registration. */
module ObservationChain {
  import opened Common
  import opened ServerLog

  datatype Phase = Attached | CheckpointLoading | SubscribePending | Following | ResyncRequired | Unavailable | Retired

  datatype Record<E> =
    | Event(registrationId: string, cursor: string, event: E)
    | Resync(registrationId: string)
    | UnavailableNotice(registrationId: string)

  datatype Pending<!E, !S> = Pending(record: Record<E>, fold: Fold<S, E>)

  /** `Threw` is the SyntaxError of `BigInt(record.cursor)`, outside the fold's try block. */
  datatype Outcome = Buffered | Ignored | Applied | Recovery | MarkedUnavailable | Threw

  /** `BigInt(text)`; `None` is its SyntaxError. */
  type BigInt = string -> Option<int>

  const PENDING_LIMIT: nat := 32

  /** The chain's fields, with the view its folds maintain. */
  datatype Chain<!E, !S> = Chain(
    phase: Phase, applied: Option<string>, registrationId: Option<string>,
    requested: Option<string>, pending: seq<Pending<E, S>>, view: S)

  // ---- the methods as functions of the fields ----

  function Stop<E, S>(c: Chain<E, S>, phase: Phase): Chain<E, S> { c.(phase := phase, pending := []) }

  /** `installCheckpoint` and the owner's installation of its state; `None` throws. */
  function Install<E, S>(c: Chain<E, S>, cursor: string, state: S, big: BigInt): Option<Chain<E, S>> {
    var next := big(cursor);
    if next.None? then None
    else if c.applied.Some? && (var now := big(c.applied.value); now.None? || next.value < now.value) then None
    else Some(Chain(Attached, Some(cursor), None, None, [], state))
  }

  function BeginLoading<E, S>(c: Chain<E, S>): Chain<E, S> {
    c.(phase := CheckpointLoading, registrationId := None, requested := None, pending := [])
  }

  function Subscribe<E, S>(c: Chain<E, S>, after: string): Option<Chain<E, S>> {
    if Some(after) != c.applied then None
    else Some(c.(phase := SubscribePending, registrationId := None, requested := Some(after), pending := []))
  }

  function Deliver<E, S>(c: Chain<E, S>, record: Record<E>, fold: Fold<S, E>, big: BigInt): (Chain<E, S>, Outcome) {
    if c.phase == SubscribePending then
      if |c.pending| == PENDING_LIMIT then (Stop(c, ResyncRequired), Recovery)
      else (c.(pending := c.pending + [Pending(record, fold)]), Buffered)
    else if c.phase != Following || Some(record.registrationId) != c.registrationId then (c, Ignored)
    else match record
      case UnavailableNotice(_) => (Stop(c, Unavailable), MarkedUnavailable)
      case Resync(_) => (Stop(c, ResyncRequired), Recovery)
      case Event(_, cursor, event) =>
        var previous := if c.applied.Some? then big(c.applied.value) else None;
        var next := big(cursor);
        if previous.None? || next.None? then (c, Threw)
        else if next.value <= previous.value then (c, Ignored)
        else if next.value != previous.value + 1 then (Stop(c, ResyncRequired), Recovery)
        else match fold(c.view, event, cursor)
          case None => (Stop(c, ResyncRequired), Recovery)
          case Some(view) => (c.(view := view, applied := Some(cursor)), Applied)
  }

  /** The replay loop of `acceptReceipt`: an exception leaves the rest undelivered. */
  function Replay<E, S>(c: Chain<E, S>, pending: seq<Pending<E, S>>, big: BigInt): (Chain<E, S>, bool)
    decreases |pending|
  {
    if pending == [] then (c, false)
    else
      var (next, outcome) := Deliver(c, pending[0].record, pending[0].fold, big);
      if outcome == Threw then (next, true) else Replay(next, pending[1..], big)
  }

  function StartFollowing<E, S>(c: Chain<E, S>, registrationId: string): Chain<E, S> {
    c.(registrationId := Some(registrationId), phase := Following, pending := [])
  }

  /** The new chain, and the returned boolean unless an exception escaped. */
  function AcceptReceipt<E, S>(c: Chain<E, S>, registrationId: string, after: string,
        big: BigInt): (Chain<E, S>, Option<bool>)
  {
    if c.phase != SubscribePending || Some(after) != c.requested || Some(after) != c.applied then (c, Some(false))
    else
      var (next, threw) := Replay(StartFollowing(c, registrationId), c.pending, big);
      (next, if threw then None else Some(next.phase == Following))
  }

  // ---- the class ----

  class ObservationChain<E, S> {
    var phase: Phase
    var applied: Option<string>
    var registrationId: Option<string>
    var requested: Option<string>
    var pending: seq<Pending<E, S>>
    /** What the owner's fold closures maintain. */
    var view: S
    const big: BigInt

    ghost function Model(): Chain<E, S>
      reads this
    {
      Chain(phase, applied, registrationId, requested, pending, view)
    }

    constructor (view: S, big: BigInt)
      ensures Model() == Chain(CheckpointLoading, None, None, None, [], view) && this.big == big
    {
      this.phase, this.applied, this.registrationId, this.requested := CheckpointLoading, None, None, None;
      this.pending, this.view, this.big := [], view, big;
    }

    method InstallCheckpoint(cursor: string, state: S) returns (threw: bool)
      modifies this
      ensures var r := Install(old(Model()), cursor, state, big);
              threw == r.None? && Model() == if r.Some? then r.value else old(Model())
    {
      var next := big(cursor);
      if next.None? { return true; }
      if applied.Some? {
        var now := big(applied.value);
        if now.None? || next.value < now.value { return true; }
      }
      applied := Some(cursor);
      registrationId, requested, pending, phase := None, None, [], Attached;
      view := state;
      threw := false;
    }

    method BeginCheckpointLoading()
      modifies this
      ensures Model() == BeginLoading(old(Model()))
    {
      phase, registrationId, requested, pending := CheckpointLoading, None, None, [];
    }

    method BeginSubscription(after: string) returns (threw: bool)
      modifies this
      ensures var r := Subscribe(old(Model()), after);
              threw == r.None? && Model() == if r.Some? then r.value else old(Model())
    {
      if Some(after) != applied { return true; }
      requested, registrationId, pending, phase := Some(after), None, [], SubscribePending;
      threw := false;
    }

    method AcceptReceiptOf(id: string, after: string) returns (accepted: Option<bool>)
      modifies this
      ensures (Model(), accepted) == AcceptReceipt(old(Model()), id, after, big)
    {
      if phase != SubscribePending || Some(after) != requested || Some(after) != applied { return Some(false); }
      registrationId, phase := Some(id), Following;
      var buffered := pending;
      pending := [];
      ghost var start := Model();
      assert start == StartFollowing(old(Model()), id);
      var i := 0;
      while i < |buffered|
        invariant 0 <= i <= |buffered|
        invariant Replay(start, buffered, big) == Replay(Model(), buffered[i..], big)
      {
        assert buffered[i..][1..] == buffered[i + 1..];
        var outcome := DeliverRecord(buffered[i].record, buffered[i].fold);
        if outcome == Threw { return None; }
        i := i + 1;
      }
      accepted := Some(phase == Following);
    }

    method DeliverRecord(record: Record<E>, fold: Fold<S, E>) returns (outcome: Outcome)
      modifies this
      ensures (Model(), outcome) == Deliver(old(Model()), record, fold, big)
    {
      if phase == SubscribePending {
        if |pending| == PENDING_LIMIT { RequireRecovery(); return Recovery; }
        pending := pending + [Pending(record, fold)];
        return Buffered;
      }
      if phase != Following || Some(record.registrationId) != registrationId { return Ignored; }
      match record {
        case UnavailableNotice(_) => MarkUnavailable(); return MarkedUnavailable;
        case Resync(_) => RequireRecovery(); return Recovery;
        case Event(_, cursor, event) =>
          var previous := if applied.Some? then big(applied.value) else None;
          var next := big(cursor);
          if previous.None? || next.None? { return Threw; }
          if next.value <= previous.value { return Ignored; }
          if next.value != previous.value + 1 { RequireRecovery(); return Recovery; }
          var folded := fold(view, event, cursor);
          if folded.None? { RequireRecovery(); return Recovery; }
          view := folded.value;
          applied := Some(cursor);
          return Applied;
      }
    }

    method MarkUnavailable()
      modifies this
      ensures Model() == Stop(old(Model()), Unavailable)
    {
      phase, pending := Unavailable, [];
    }

    method RequireRecovery()
      modifies this
      ensures Model() == Stop(old(Model()), ResyncRequired)
    {
      phase, pending := ResyncRequired, [];
    }

    method Retire()
      modifies this
      ensures Model() == Stop(old(Model()), Retired).(registrationId := None)
    {
      phase, pending, registrationId := Retired, [], None;
    }
  }

  // ---- the replicated system ----

  /** `ours` are the registration ids this source issues; every other id may carry anything. */
  datatype Env<!E, !S> = Env(big: BigInt, fold: Fold<S, E>, ours: string -> bool)

  datatype System<!E, !S> = System(log: Log<S, E>, chain: Chain<E, S>)

  datatype Step<E, S> =
    | Append(event: E, successor: S)
    | Checkpoint(cursor: string, state: S)
    | LoadCheckpoint
    | SubscribeAfter(after: string)
    | Receipt(registrationId: string, after: string)
    | Transport(record: Record<E>)
    | RequireRecovery
    | LoseSource
    | RetireChain

  function Next<E, S>(sys: System<E, S>, step: Step<E, S>, env: Env<E, S>): System<E, S> {
    var c := sys.chain;
    match step
    case Append(event, after) => sys.(log := Log(sys.log.states + [after], sys.log.events + [event]))
    case Checkpoint(cursor, state) =>
      var r := Install(c, cursor, state, env.big);
      if r.Some? then sys.(chain := r.value) else sys
    case LoadCheckpoint => sys.(chain := BeginLoading(c))
    case SubscribeAfter(after) => var r := Subscribe(c, after); if r.Some? then sys.(chain := r.value) else sys
    case Receipt(id, after) => sys.(chain := AcceptReceipt(c, id, after, env.big).0)
    case Transport(record) => sys.(chain := Deliver(c, record, env.fold, env.big).0)
    case RequireRecovery => sys.(chain := Stop(c, ResyncRequired))
    case LoseSource => sys.(chain := Stop(c, Unavailable))
    case RetireChain => sys.(chain := Stop(c, Retired).(registrationId := None))
  }

  function Run<E, S>(sys: System<E, S>, steps: seq<Step<E, S>>, env: Env<E, S>): System<E, S>
    decreases |steps|
  {
    if steps == [] then sys else Run(Next(sys, steps[0], env), steps[1..], env)
  }

  /** A record under one of our registrations is some published event under its own revision. */
  ghost predicate HonestRecord<E, S>(log: Log<S, E>, record: Record<E>, env: Env<E, S>) {
    record.Event? && env.ours(record.registrationId) && env.big(record.cursor).Some? ==>
      var n := env.big(record.cursor).value;
      n >= 1 ==> n <= |log.events| && record.event == log.events[n - 1]
  }

  /** What the authority guarantees. Loss, duplication and reordering need no assumption. */
  ghost predicate Honest<E(!new), S(!new)>(sys: System<E, S>, step: Step<E, S>, env: Env<E, S>) {
    match step
    case Append(event, after) => sys.log.states != []
      && StepAgrees(env.fold, sys.log.states[|sys.log.states| - 1], event, after)
    case Checkpoint(cursor, state) =>
      env.big(cursor).Some? ==>
        && 0 <= env.big(cursor).value < |sys.log.states|
        && state == sys.log.states[env.big(cursor).value]
    case Receipt(id, _) => env.ours(id)
    case Transport(record) => HonestRecord(sys.log, record, env)
    case _ => true
  }

  ghost predicate HonestRun<E(!new), S(!new)>(sys: System<E, S>, steps: seq<Step<E, S>>, env: Env<E, S>)
    decreases |steps|
  {
    steps == [] || (Honest(sys, steps[0], env) && HonestRun(Next(sys, steps[0], env), steps[1..], env))
  }

  // ---- safety ----

  /** The view is the authority's state at exactly the applied cursor. */
  ghost predicate ViewIsCurrent<E, S>(log: Log<S, E>, c: Chain<E, S>, big: BigInt) {
    c.applied.Some? ==>
      big(c.applied.value).Some? &&
      var n := big(c.applied.value).value; 0 <= n < |log.states| && c.view == log.states[n]
  }

  ghost predicate ChainShape<E, S>(c: Chain<E, S>, env: Env<E, S>) {
    && (c.phase in {Attached, SubscribePending, Following} ==> c.applied.Some?)
    && (c.registrationId.Some? ==> env.ours(c.registrationId.value))
    && (c.phase == Following ==> c.registrationId.Some?)
    && |c.pending| <= PENDING_LIMIT && (c.pending != [] ==> c.phase == SubscribePending)
  }

  ghost predicate PendingHonest<E, S>(log: Log<S, E>, pending: seq<Pending<E, S>>, env: Env<E, S>) {
    forall i :: 0 <= i < |pending| ==> pending[i].fold == env.fold && HonestRecord(log, pending[i].record, env)
  }

  ghost predicate Inv<E(!new), S(!new)>(sys: System<E, S>, env: Env<E, S>) {
    && ValidLog(sys.log, env.fold)
    && ViewIsCurrent(sys.log, sys.chain, env.big)
    && ChainShape(sys.chain, env)
    && PendingHonest(sys.log, sys.chain.pending, env)
  }

  ghost function AppliedValue<E, S>(c: Chain<E, S>, big: BigInt): int {
    if c.applied.Some? && big(c.applied.value).Some? then big(c.applied.value).value else -1
  }

  lemma DeliverKeepsInv<E(!new), S(!new)>(sys: System<E, S>, record: Record<E>, env: Env<E, S>)
    requires Inv(sys, env) && HonestRecord(sys.log, record, env)
    ensures var c := Deliver(sys.chain, record, env.fold, env.big).0;
            Inv(sys.(chain := c), env) && AppliedValue(sys.chain, env.big) <= AppliedValue(c, env.big)
  {
    var c := sys.chain;
    var (d, outcome) := Deliver(c, record, env.fold, env.big);
    if outcome == Applied {
      var n := AppliedValue(c, env.big);
      assert StepAgrees(env.fold, sys.log.states[n], sys.log.events[n], sys.log.states[n + 1]);
    }
  }

  lemma {:induction false} ReplayKeepsInv<E(!new), S(!new)>(sys: System<E, S>, pending: seq<Pending<E, S>>,
        env: Env<E, S>)
    requires Inv(sys, env) && PendingHonest(sys.log, pending, env) && sys.chain.phase != SubscribePending
    ensures var c := Replay(sys.chain, pending, env.big).0;
            Inv(sys.(chain := c), env) && AppliedValue(sys.chain, env.big) <= AppliedValue(c, env.big)
    decreases |pending|
  {
    if pending != [] {
      DeliverKeepsInv(sys, pending[0].record, env);
      var (next, outcome) := Deliver(sys.chain, pending[0].record, pending[0].fold, env.big);
      if outcome != Threw { ReplayKeepsInv(sys.(chain := next), pending[1..], env); }
    }
  }

  lemma AppendKeepsInv<E(!new), S(!new)>(sys: System<E, S>, event: E, after: S, env: Env<E, S>)
    requires Inv(sys, env) && Honest(sys, Append(event, after), env)
    ensures Inv(Next(sys, Append(event, after), env), env)
  {
    var log, grown := sys.log, Next(sys, Append(event, after), env).log;
    forall k | 0 <= k < |grown.events|
      ensures StepAgrees(env.fold, grown.states[k], grown.events[k], grown.states[k + 1])
    {
      if k < |log.events| { assert StepAgrees(env.fold, log.states[k], log.events[k], log.states[k + 1]); }
    }
  }

  lemma StepKeepsInv<E(!new), S(!new)>(sys: System<E, S>, step: Step<E, S>, env: Env<E, S>)
    requires Inv(sys, env) && Honest(sys, step, env)
    ensures var next := Next(sys, step, env);
            && Inv(next, env) && Extends(sys.log, next.log)
            && AppliedValue(sys.chain, env.big) <= AppliedValue(next.chain, env.big)
  {
    match step {
      case Append(event, after) => AppendKeepsInv(sys, event, after, env);
      case Transport(record) => DeliverKeepsInv(sys, record, env);
      case Receipt(id, after) =>
        var c := sys.chain;
        if c.phase == SubscribePending && Some(after) == c.requested && Some(after) == c.applied {
          ReplayKeepsInv(sys.(chain := StartFollowing(c, id)), c.pending, env);
        }
      case _ =>
    }
  }

  /**
   * Over every run, whatever the transport loses, repeats, reorders or
   * invents under foreign registrations: the client's view is the authority's
   * state at the applied cursor, and that cursor never moves back.
   */
  lemma {:induction false} ClientFollowsAuthority<E(!new), S(!new)>(sys: System<E, S>, steps: seq<Step<E, S>>,
        env: Env<E, S>)
    requires Inv(sys, env) && HonestRun(sys, steps, env)
    ensures var end := Run(sys, steps, env);
            && Inv(end, env) && Extends(sys.log, end.log)
            && AppliedValue(sys.chain, env.big) <= AppliedValue(end.chain, env.big)
    decreases |steps|
  {
    if steps != [] {
      StepKeepsInv(sys, steps[0], env);
      ClientFollowsAuthority(Next(sys, steps[0], env), steps[1..], env);
    }
  }

  /** A new chain beside a log that has published nothing. */
  function Fresh<E, S>(base: S, view: S): System<E, S> {
    System(Log([base], []), Chain(CheckpointLoading, None, None, None, [], view))
  }

  lemma FreshChainIsSafe<E(!new), S(!new)>(base: S, view: S, env: Env<E, S>)
    ensures Inv(Fresh(base, view), env)
  {
  }

  /**
   * From a fresh chain beside a fresh log, after every honest run: the view is the fold of the
   * published events through the applied cursor, wherever that fold goes through.
   */
  lemma ViewIsFold<E(!new), S(!new)>(base: S, view: S, steps: seq<Step<E, S>>, env: Env<E, S>, cursorOf: nat -> string)
    requires HonestRun(Fresh(base, view), steps, env)
    ensures var end := Run(Fresh(base, view), steps, env);
            end.chain.applied.Some? ==>
              && env.big(end.chain.applied.value).Some?
              && var n := env.big(end.chain.applied.value).value;
              && 0 <= n <= |end.log.events|
              && var folded := FoldPrefix(base, end.log.events[..n], cursorOf, env.fold);
              folded.Some? ==> end.chain.view == folded.value
  {
    var end := Run(Fresh(base, view), steps, env);
    FreshChainIsSafe(base, view, env);
    ClientFollowsAuthority(Fresh(base, view), steps, env);
    if end.chain.applied.Some? {
      PublishedStateIsFold(end.log, env.fold, env.big(end.chain.applied.value).value, cursorOf);
    }
  }

  // ---- progress ----

  /** Published events n+1 .. m, in order, under one registration. */
  function InOrder<E, S>(log: Log<S, E>, n: nat, m: nat, id: string, cursorOf: nat -> string,
        fold: Fold<S, E>): (r: seq<Pending<E, S>>)
    requires n <= m <= |log.events|
    ensures |r| == m - n
    decreases m - n
  {
    if n == m then []
    else [Pending(Event(id, cursorOf(n + 1), log.events[n]), fold)] + InOrder(log, n + 1, m, id, cursorOf, fold)
  }

  function DeliverAll<E, S>(c: Chain<E, S>, records: seq<Pending<E, S>>, big: BigInt): Chain<E, S>
    decreases |records|
  {
    if records == [] then c
    else DeliverAll(Deliver(c, records[0].record, records[0].fold, big).0, records[1..], big)
  }

  /** A transport that happens to be reliable brings the client to the end of the log. */
  lemma {:induction false} InOrderDeliveryCatchesUp<E(!new), S(!new)>( sys: System<E, S>, n: nat, m: nat, id: string,
        cursorOf: nat -> string, env: Env<E, S>)
    requires Inv(sys, env) && sys.chain.phase == Following && sys.chain.registrationId == Some(id)
    requires AppliedValue(sys.chain, env.big) == n <= m <= |sys.log.events|
    requires forall k: nat :: env.big(cursorOf(k)) == Some(k)
    requires forall k, cursor :: 0 <= k < |sys.log.events| ==>
             env.fold(sys.log.states[k], sys.log.events[k], cursor).Some?
    ensures var c := DeliverAll(sys.chain, InOrder(sys.log, n, m, id, cursorOf, env.fold), env.big);
            && Inv(sys.(chain := c), env)
            && c.phase == Following && c.registrationId == Some(id) && c.view == sys.log.states[m]
            && AppliedValue(c, env.big) == m && c.applied == if n < m then Some(cursorOf(m)) else sys.chain.applied
    decreases m - n
  {
    var records := InOrder(sys.log, n, m, id, cursorOf, env.fold);
    if n < m {
      var record := records[0].record;
      assert env.fold(sys.log.states[n], sys.log.events[n], cursorOf(n + 1)).Some?;
      assert records[1..] == InOrder(sys.log, n + 1, m, id, cursorOf, env.fold);
      DeliverKeepsInv(sys, record, env);
      var next := Deliver(sys.chain, record, env.fold, env.big).0;
      InOrderDeliveryCatchesUp(sys.(chain := next), n + 1, m, id, cursorOf, env);
    }
  }

  // ---- receipt buffering ----

  /** Records that change nothing for a chain following `id` at cursor `n`. */
  ghost predicate Inert<E, S>(records: seq<Pending<E, S>>, id: string, n: int, big: BigInt) {
    forall i :: 0 <= i < |records| ==> InertRecord(records[i].record, id, n, big)
  }

  ghost predicate InertRecord<E>(record: Record<E>, id: string, n: int, big: BigInt) {
    record.registrationId != id || (record.Event? && (big(record.cursor).None? || big(record.cursor).value <= n))
  }

  /**
   * No record that could still matter stands behind one whose cursor is not a
   * number: `acceptReceipt` abandons the rest of its buffer at that exception.
   */
  ghost predicate BufferSafe<E, S>(c: Chain<E, S>, records: seq<Pending<E, S>>, id: string, big: BigInt)
    decreases |records|
  {
    records == [] || (
      var record := records[0].record;
      if c.phase == Following && record.Event? && record.registrationId == id && big(record.cursor).None?
      then Inert(records[1..], id, AppliedValue(c, big), big)
      else BufferSafe(Deliver(c, record, records[0].fold, big).0, records[1..], id, big))
  }

  ghost predicate FollowingAt<E, S>(c: Chain<E, S>, id: string, big: BigInt) {
    c.phase != SubscribePending && c.registrationId == Some(id) && c.applied.Some? && big(c.applied.value).Some?
  }

  lemma DeliverIsInert<E, S>(c: Chain<E, S>, record: Record<E>, fold: Fold<S, E>, id: string, big: BigInt)
    requires FollowingAt(c, id, big)
    ensures var d := Deliver(c, record, fold, big).0;
            && FollowingAt(d, id, big)
            && (c.phase != Following ==> d == c)
            && AppliedValue(c, big) <= AppliedValue(d, big)
            && (c.phase == Following ==> (d == c <==> InertRecord(record, id, AppliedValue(c, big), big)))
            && (d.phase == Following && AppliedValue(d, big) == AppliedValue(c, big) ==> d == c)
  {
  }

  lemma {:induction false} DeliverAllMonotone<E, S>(c: Chain<E, S>, records: seq<Pending<E, S>>, id: string,
        big: BigInt)
    requires FollowingAt(c, id, big)
    ensures var d := DeliverAll(c, records, big);
            && (c.phase != Following ==> d == c) && AppliedValue(c, big) <= AppliedValue(d, big)
    decreases |records|
  {
    if records != [] {
      DeliverIsInert(c, records[0].record, records[0].fold, id, big);
      DeliverAllMonotone(Deliver(c, records[0].record, records[0].fold, big).0, records[1..], id, big);
    }
  }

  /** Delivering a sequence is a no-op exactly when every record in it is inert. */
  lemma {:induction false} DeliverAllInert<E, S>(c: Chain<E, S>, records: seq<Pending<E, S>>, id: string, big: BigInt)
    requires FollowingAt(c, id, big) && c.phase == Following
    ensures DeliverAll(c, records, big) == c <==> Inert(records, id, AppliedValue(c, big), big)
    decreases |records|
  {
    if records != [] {
      var next := Deliver(c, records[0].record, records[0].fold, big).0;
      DeliverIsInert(c, records[0].record, records[0].fold, id, big);
      if next == c {
        DeliverAllInert(c, records[1..], id, big);
        assert forall i :: 0 <= i < |records| ==> records[i] == records[0] || records[i] == records[1..][i - 1];
      } else {
        DeliverAllMonotone(next, records[1..], id, big);
        assert !InertRecord(records[0].record, id, AppliedValue(c, big), big);
      }
    }
  }

  /** An event of this registration whose cursor is not a number. */
  ghost predicate Malformed<E>(record: Record<E>, id: string, big: BigInt) {
    record.Event? && record.registrationId == id && big(record.cursor).None?
  }

  /** If record `i` is malformed and is reached while following, only inert records come after it. */
  ghost predicate SafeAt<E, S>(c: Chain<E, S>, records: seq<Pending<E, S>>, id: string, big: BigInt, i: nat)
    requires i < |records|
  {
    var reached := DeliverAll(c, records[..i], big);
    Malformed(records[i].record, id, big) && reached.phase == Following ==>
      Inert(records[i + 1..], id, AppliedValue(reached, big), big)
  }

  lemma SafeAfterFirst<E, S>(c: Chain<E, S>, records: seq<Pending<E, S>>, id: string, big: BigInt, i: nat)
    requires 0 < i < |records|
    ensures SafeAt(c, records, id, big, i) <==>
            SafeAt(Deliver(c, records[0].record, records[0].fold, big).0, records[1..], id, big, i - 1)
  {
    assert records[..i][1..] == records[1..][..i - 1];
    assert records[i + 1..] == records[1..][i..];
  }

  lemma InertTailIsSafe<E, S>(c: Chain<E, S>, records: seq<Pending<E, S>>, id: string, big: BigInt, i: nat)
    requires FollowingAt(c, id, big) && c.phase == Following && i < |records|
             && Inert(records, id, AppliedValue(c, big), big)
    ensures SafeAt(c, records, id, big, i)
  {
    DeliverAllInert(c, records[..i], id, big);
  }

  /** The safe buffers, by position: every malformed cursor reached while following has only inert records behind it. */
  lemma {:induction false} BufferSafeByIndex<E, S>(c: Chain<E, S>, records: seq<Pending<E, S>>, id: string, big: BigInt)
    requires FollowingAt(c, id, big)
    ensures BufferSafe(c, records, id, big) <==> forall i :: 0 <= i < |records| ==> SafeAt(c, records, id, big, i)
    decreases |records|
  {
    if records != [] {
      var next := Deliver(c, records[0].record, records[0].fold, big).0;
      DeliverIsInert(c, records[0].record, records[0].fold, id, big);
      BufferSafeByIndex(next, records[1..], id, big);
      forall i | 0 < i < |records|
        ensures SafeAt(c, records, id, big, i) <==> SafeAt(next, records[1..], id, big, i - 1)
      {
        SafeAfterFirst(c, records, id, big, i);
      }
      assert forall j :: 0 <= j < |records[1..]| ==>
        (SafeAt(next, records[1..], id, big, j) <==> SafeAt(c, records, id, big, j + 1));
      if BufferSafe(c, records, id, big) && Malformed(records[0].record, id, big) && c.phase == Following {
        forall j | 0 <= j < |records[1..]| ensures SafeAt(next, records[1..], id, big, j) {
          InertTailIsSafe(next, records[1..], id, big, j);
        }
      }
      assert SafeAt(c, records, id, big, 0) <==>
             (Malformed(records[0].record, id, big) && c.phase == Following ==>
               Inert(records[1..], id, AppliedValue(c, big), big));
    }
  }

  lemma {:induction false} ReplayIsDeliverAll<E, S>(c: Chain<E, S>, records: seq<Pending<E, S>>, id: string,
        big: BigInt)
    requires FollowingAt(c, id, big)
    ensures Replay(c, records, big).0 == DeliverAll(c, records, big) <==> BufferSafe(c, records, id, big)
    decreases |records|
  {
    if records != [] {
      var (next, outcome) := Deliver(c, records[0].record, records[0].fold, big);
      DeliverIsInert(c, records[0].record, records[0].fold, id, big);
      if outcome == Threw {
        DeliverAllInert(c, records[1..], id, big);
      } else {
        ReplayIsDeliverAll(next, records[1..], id, big);
      }
    }
  }

  lemma {:induction false} BufferingOnlyAppends<E, S>(c: Chain<E, S>, records: seq<Pending<E, S>>, big: BigInt)
    requires c.phase == SubscribePending && |c.pending| + |records| <= PENDING_LIMIT
    ensures DeliverAll(c, records, big) == c.(pending := c.pending + records)
    decreases |records|
  {
    if records == [] {
      assert c.pending + records == c.pending;
    } else {
      var next := Deliver(c, records[0].record, records[0].fold, big).0;
      assert records[0] == Pending(records[0].record, records[0].fold);
      BufferingOnlyAppends(next, records[1..], big);
      assert (c.pending + [records[0]]) + records[1..] == c.pending + records;
    }
  }

  /**
   * Buffering up to 32 records until the receipt ends in the same chain and
   * view as delivering them after it, exactly when the buffer is safe.
   */
  lemma BufferingIsTransparent<E, S>(c: Chain<E, S>, records: seq<Pending<E, S>>, id: string, after: string,
        big: BigInt)
    requires c.phase == SubscribePending && c.pending == [] && |records| <= PENDING_LIMIT
    requires c.requested == c.applied == Some(after) && big(after).Some?
    ensures AcceptReceipt(DeliverAll(c, records, big), id, after, big).0
            == DeliverAll(AcceptReceipt(c, id, after, big).0, records, big)
            <==> BufferSafe(StartFollowing(c, id), records, id, big)
    ensures BufferSafe(StartFollowing(c, id), records, id, big)
            <==> forall i :: 0 <= i < |records| ==> SafeAt(StartFollowing(c, id), records, id, big, i)
  {
    BufferSafeByIndex(StartFollowing(c, id), records, id, big);
    BufferingOnlyAppends(c, records, big);
    assert [] + records == records;
    ReplayIsDeliverAll(StartFollowing(c, id), records, id, big);
    assert StartFollowing(c.(pending := records), id) == StartFollowing(c, id);
  }

  /** Cursors that are all numbers are always safe. */
  lemma {:induction false} NumericCursorsAreSafe<E, S>(c: Chain<E, S>, records: seq<Pending<E, S>>, id: string,
        big: BigInt)
    requires forall i :: 0 <= i < |records| && records[i].record.Event? ==> big(records[i].record.cursor).Some?
    ensures BufferSafe(c, records, id, big)
    decreases |records|
  {
    if records != [] {
      assert forall i :: 0 <= i < |records| - 1 ==> records[1..][i] == records[i + 1];
      NumericCursorsAreSafe(Deliver(c, records[0].record, records[0].fold, big).0, records[1..], id, big);
    }
  }

  /** The failing family is inhabited: a malformed cursor before the next event loses that event. */
  lemma MalformedCursorLosesTheBuffer<E, S>(event: E, view: S, fold: Fold<S, E>, big: BigInt)
    requires big("0") == Some(0) && big("1") == Some(1) && big("x") == None && fold(view, event, "1").Some?
    ensures var c: Chain<E, S> := Chain(SubscribePending, Some("0"), None, Some("0"), [], view);
            var records := [Pending(Event("r", "x", event), fold), Pending(Event("r", "1", event), fold)];
            && AcceptReceipt(DeliverAll(c, records, big), "r", "0", big).0.applied == Some("0")
            && DeliverAll(AcceptReceipt(c, "r", "0", big).0, records, big).applied == Some("1")
  {
    var c: Chain<E, S> := Chain(SubscribePending, Some("0"), None, Some("0"), [], view);
    var first, second := Pending(Event("r", "x", event), fold), Pending(Event("r", "1", event), fold);
    var records := [first, second];
    assert records[1..] == [second] && [second][1..] == [];
    BufferingOnlyAppends(c, records, big);
    assert [] + records == records;
    var f := StartFollowing(c, "r");
    assert Deliver(f, first.record, fold, big) == (f, Threw);
    assert DeliverAll(f, records, big) == DeliverAll(f, [second], big);
    assert DeliverAll(f, [second], big) == DeliverAll(Deliver(f, second.record, fold, big).0, [], big);
  }

  /** One record more than the buffer holds, and the subscription must be recovered. */
  lemma {:induction false} OverflowRecovers<E, S>(c: Chain<E, S>, records: seq<Pending<E, S>>, big: BigInt)
    requires c.phase == SubscribePending && |c.pending| <= PENDING_LIMIT < |c.pending| + |records|
    ensures var d := DeliverAll(c, records, big);
            d.phase == ResyncRequired && d.applied == c.applied && d.view == c.view
    decreases |records|
  {
    var next := Deliver(c, records[0].record, records[0].fold, big).0;
    if |c.pending| == PENDING_LIMIT {
      RecoveryIgnores(next, records[1..], big);
    } else {
      OverflowRecovers(next, records[1..], big);
    }
  }

  lemma {:induction false} RecoveryIgnores<E, S>(c: Chain<E, S>, records: seq<Pending<E, S>>, big: BigInt)
    requires c.phase == ResyncRequired
    ensures DeliverAll(c, records, big) == c
    decreases |records|
  {
    if records != [] { RecoveryIgnores(c, records[1..], big); }
  }

  // ---- from subscription to the end of the log ----

  /** Loading a checkpoint works at every cursor that is a number and not before the applied one. */
  lemma InstallExactly<E, S>(c: Chain<E, S>, cursor: string, state: S, big: BigInt)
    ensures Install(c, cursor, state, big).Some? <==>
              && big(cursor).Some?
              && (c.applied.Some? ==> big(c.applied.value).Some? && big(c.applied.value).value <= big(cursor).value)
    ensures Install(c, cursor, state, big).Some? ==>
              var d := Install(c, cursor, state, big).value;
              d.applied == Some(cursor) && d.view == state && d.phase == Attached && d.pending == []
  {
  }

  /**
   * Whatever happened to the chain before, recovery works: a checkpoint not before the applied
   * cursor, a subscription after it and its receipt leave the chain following the registration.
   */
  lemma HandshakeFollows<E, S>(c: Chain<E, S>, cursor: string, state: S, id: string, big: BigInt)
    requires Install(BeginLoading(c), cursor, state, big).Some?
    ensures var attached := Install(BeginLoading(c), cursor, state, big).value;
            && Subscribe(attached, cursor).Some?
            && (forall other :: Subscribe(attached, other).Some? ==> other == cursor)
            && var pending := Subscribe(attached, cursor).value;
            && pending == Chain(SubscribePending, Some(cursor), None, Some(cursor), [], state)
            && AcceptReceipt(pending, id, cursor, big) ==
               (Chain(Following, Some(cursor), Some(id), Some(cursor), [], state), Some(true))
            && forall other :: other != cursor ==> AcceptReceipt(pending, id, other, big) == (pending, Some(false))
  {
  }

  /** Subscribing works at the applied cursor alone, and forgets any earlier registration and buffer. */
  lemma SubscribeExactly<E, S>(c: Chain<E, S>, after: string)
    ensures Subscribe(c, after) ==
            if c.applied == Some(after) then Some(Chain(SubscribePending, c.applied, None, Some(after), [], c.view))
            else None
  {
  }

  /** Loading a checkpoint forgets the registration, the request and the buffer, and keeps what is displayed. */
  lemma LoadingExactly<E, S>(c: Chain<E, S>)
    ensures BeginLoading(c) == Chain(CheckpointLoading, c.applied, None, None, [], c.view)
  {
  }

  /** Replaying throws exactly when it reaches a malformed cursor while following. */
  lemma {:induction false} ReplayThrowsExactly<E, S>(c: Chain<E, S>, records: seq<Pending<E, S>>, id: string,
        big: BigInt)
    requires FollowingAt(c, id, big)
    ensures Replay(c, records, big).1 <==> exists i :: 0 <= i < |records| && ThrowsAt(c, records, id, big, i)
    decreases |records|
  {
    if records != [] {
      var next := Deliver(c, records[0].record, records[0].fold, big).0;
      DeliverIsInert(c, records[0].record, records[0].fold, id, big);
      ReplayThrowsExactly(next, records[1..], id, big);
      assert ThrowsAt(c, records, id, big, 0) <==> Deliver(c, records[0].record, records[0].fold, big).1 == Threw;
      forall i | 0 < i < |records|
        ensures ThrowsAt(c, records, id, big, i) <==> ThrowsAt(next, records[1..], id, big, i - 1)
      {
        assert records[..i][1..] == records[1..][..i - 1];
      }
      if j :| 0 <= j < |records[1..]| && ThrowsAt(next, records[1..], id, big, j) {
        assert ThrowsAt(c, records, id, big, j + 1);
      }
    }
  }

  ghost predicate ThrowsAt<E, S>(c: Chain<E, S>, records: seq<Pending<E, S>>, id: string, big: BigInt, i: nat)
    requires i < |records|
  {
    Malformed(records[i].record, id, big) && DeliverAll(c, records[..i], big).phase == Following
  }

  /** So a receipt throws, or answers whether the chain still follows. */
  lemma ReceiptExactly<E, S>(c: Chain<E, S>, id: string, after: string, big: BigInt)
    requires c.phase == SubscribePending && c.requested == c.applied == Some(after) && big(after).Some?
    ensures var (d, answer) := AcceptReceipt(c, id, after, big);
            && (answer.None? <==>
                  exists i :: 0 <= i < |c.pending| && ThrowsAt(StartFollowing(c, id), c.pending, id, big, i))
            && (answer.Some? ==> answer.value == (d.phase == Following))
  {
    ReplayThrowsExactly(StartFollowing(c, id), c.pending, id, big);
  }

  /** A receipt without a pending subscription changes nothing. */
  lemma UnaskedReceipt<E, S>(c: Chain<E, S>, id: string, after: string, big: BigInt)
    requires c.phase != SubscribePending
    ensures AcceptReceipt(c, id, after, big) == (c, Some(false))
  {
  }

  /** Where each kind of record leads a following chain. */
  lemma RecordLeadsTo<E, S>(c: Chain<E, S>, record: Record<E>, fold: Fold<S, E>, id: string, big: BigInt)
    requires c.phase == Following && FollowingAt(c, id, big) && record.registrationId == id
    ensures var (d, outcome) := Deliver(c, record, fold, big);
            && (record.UnavailableNotice? ==> (d.phase, outcome) == (Unavailable, MarkedUnavailable))
            && (record.Resync? ==> (d.phase, outcome) == (ResyncRequired, Recovery))
            && (record.Event? && big(record.cursor).Some? ==>
                  var ahead := big(record.cursor).value - AppliedValue(c, big);
                  && (ahead <= 0 ==> (d, outcome) == (c, Ignored))
                  && (ahead > 1 ==> (d.phase, outcome) == (ResyncRequired, Recovery))
                  && (ahead == 1 && fold(c.view, record.event, record.cursor).None? ==>
                        (d.phase, outcome) == (ResyncRequired, Recovery))
                  && (ahead == 1 && fold(c.view, record.event, record.cursor).Some? ==>
                        && (d.phase, outcome) == (Following, Applied) && d.applied == Some(record.cursor)
                        && Some(d.view) == fold(c.view, record.event, record.cursor)))
            && (outcome != Applied ==> d.view == c.view && d.applied == c.applied)
  {
  }

  /** A chain that neither follows nor waits for its receipt ignores every record. */
  lemma OtherwiseIgnored<E, S>(c: Chain<E, S>, record: Record<E>, fold: Fold<S, E>, big: BigInt)
    requires c.phase !in {Following, SubscribePending}
    ensures Deliver(c, record, fold, big) == (c, Ignored)
  {
  }

  /** After recovery, loss or retirement nothing buffered is left and no registration is followed. */
  lemma StoppedKeepsView<E(!new), S(!new)>(sys: System<E, S>, step: Step<E, S>, env: Env<E, S>)
    requires step in {RequireRecovery, LoseSource, RetireChain, LoadCheckpoint}
    ensures var c := Next(sys, step, env).chain;
            && c.phase == (match step
                           case RequireRecovery => ResyncRequired
                           case LoseSource => Unavailable
                           case RetireChain => Retired
                           case _ => CheckpointLoading)
            && c.pending == [] && c.applied == sys.chain.applied && c.view == sys.chain.view
            && (step in {RetireChain, LoadCheckpoint} ==> c.registrationId.None?)
  {
  }

  /** Publishing appends one state and the event that leads to it, and leaves the client alone. */
  lemma AppendPublishes<E, S>(sys: System<E, S>, event: E, after: S, env: Env<E, S>)
    ensures var next := Next(sys, Append(event, after), env);
            && next.chain == sys.chain && next.log.states == sys.log.states + [after]
            && next.log.events == sys.log.events + [event]
  {
  }

  function Transports<E, S>(records: seq<Pending<E, S>>): seq<Step<E, S>> {
    seq(|records|, i requires 0 <= i < |records| => Transport(records[i].record))
  }

  lemma {:induction false} RunConcat<E, S>(sys: System<E, S>, a: seq<Step<E, S>>, b: seq<Step<E, S>>, env: Env<E, S>)
    ensures Run(sys, a + b, env) == Run(Run(sys, a, env), b, env)
    decreases |a|
  {
    if a == [] {
      assert a + b == b;
    } else {
      assert (a + b)[1..] == a[1..] + b;
      RunConcat(Next(sys, a[0], env), a[1..], b, env);
    }
  }

  lemma {:induction false} RunDelivers<E, S>(sys: System<E, S>, records: seq<Pending<E, S>>, env: Env<E, S>)
    requires forall i :: 0 <= i < |records| ==> records[i].fold == env.fold
    ensures Run(sys, Transports(records), env) == sys.(chain := DeliverAll(sys.chain, records, env.big))
    decreases |records|
  {
    if records != [] {
      var steps := Transports(records);
      assert steps[1..] == Transports(records[1..]);
      RunDelivers(Next(sys, steps[0], env), records[1..], env);
    }
  }

  lemma {:induction false} InOrderAt<E, S>(log: Log<S, E>, n: nat, m: nat, id: string, cursorOf: nat -> string,
        fold: Fold<S, E>, i: nat)
    requires n <= m <= |log.events| && i < m - n
    ensures var p := InOrder(log, n, m, id, cursorOf, fold)[i];
            p.record == Event(id, cursorOf(n + 1 + i), log.events[n + i]) && p.fold == fold
    decreases m - n
  {
    if i > 0 { InOrderAt(log, n + 1, m, id, cursorOf, fold, i - 1); }
  }

  /** Checkpoint at revision `n` and subscription after it. */
  function Handshake<E, S>(log: Log<S, E>, n: nat, cursorOf: nat -> string): seq<Step<E, S>>
    requires n < |log.states|
  {
    [LoadCheckpoint, Checkpoint(cursorOf(n), log.states[n]), SubscribeAfter(cursorOf(n))]
  }

  lemma HandshakeRuns<E, S>(sys: System<E, S>, n: nat, cursorOf: nat -> string, env: Env<E, S>)
    requires n < |sys.log.states| && env.big(cursorOf(n)) == Some(n) && AppliedValue(sys.chain, env.big) <= n
    requires sys.chain.applied.Some? ==> env.big(sys.chain.applied.value).Some?
    ensures Run(sys, Handshake(sys.log, n, cursorOf), env) ==
            sys.(chain := Chain(SubscribePending, Some(cursorOf(n)), None, Some(cursorOf(n)), [], sys.log.states[n]))
  {
    var steps := Handshake(sys.log, n, cursorOf);
    var loading := Next(sys, steps[0], env);
    var attached := Next(loading, steps[1], env);
    assert attached.chain == Chain(Attached, Some(cursorOf(n)), None, None, [], sys.log.states[n]);
    assert steps[1..] == [steps[1], steps[2]] && steps[1..][1..] == [steps[2]] && steps[1..][1..][1..] == [];
    assert Run(attached, [steps[2]], env) == Next(attached, steps[2], env);
  }

  /** The run that brings a client from any safe state to revision `m`: `j` revisions arrive before the receipt. */
  function CatchUp<E, S>(log: Log<S, E>, n: nat, j: nat, m: nat, id: string, cursorOf: nat -> string,
        fold: Fold<S, E>): seq<Step<E, S>>
    requires n <= j <= m <= |log.events| && |log.states| == |log.events| + 1
  {
    Handshake(log, n, cursorOf) + (Transports(InOrder(log, n, j, id, cursorOf, fold))
      + ([Receipt(id, cursorOf(n))] + Transports(InOrder(log, j, m, id, cursorOf, fold))))
  }

  /** What the buffered and then accepted records leave, by the transparency of buffering. */
  lemma ReceiptCatchesUp<E(!new), S(!new)>(sys: System<E, S>, n: nat, j: nat, id: string, cursorOf: nat -> string,
        env: Env<E, S>)
    requires Inv(sys, env) && n <= j <= |sys.log.events| && j - n <= PENDING_LIMIT && env.ours(id)
    requires sys.chain == Chain(SubscribePending, Some(cursorOf(n)), None, Some(cursorOf(n)), [], sys.log.states[n])
    requires forall k: nat :: env.big(cursorOf(k)) == Some(k)
    requires forall k, cursor :: 0 <= k < |sys.log.events| ==>
             env.fold(sys.log.states[k], sys.log.events[k], cursor).Some?
    ensures var records := InOrder(sys.log, n, j, id, cursorOf, env.fold);
            var c := AcceptReceipt(DeliverAll(sys.chain, records, env.big), id, cursorOf(n), env.big).0;
            && Inv(sys.(chain := c), env) && c.phase == Following && c.registrationId == Some(id)
            && c.applied == Some(cursorOf(j)) && c.view == sys.log.states[j]
  {
    var records := InOrder(sys.log, n, j, id, cursorOf, env.fold);
    var following := StartFollowing(sys.chain, id);
    forall i | 0 <= i < |records| && records[i].record.Event? ensures env.big(records[i].record.cursor).Some? {
      InOrderAt(sys.log, n, j, id, cursorOf, env.fold, i);
    }
    NumericCursorsAreSafe(following, records, id, env.big);
    BufferingIsTransparent(sys.chain, records, id, cursorOf(n), env.big);
    assert AcceptReceipt(sys.chain, id, cursorOf(n), env.big).0 == following;
    InOrderDeliveryCatchesUp(sys.(chain := following), n, j, id, cursorOf, env);
  }

  /**
   * From any safe state at most as new as revision `n` the client reaches revision `m`: checkpoint,
   * subscription, up to 32 records before the receipt, the receipt, and the rest in order.
   */
  lemma CatchUpReachesTheEnd<E(!new), S(!new)>(sys: System<E, S>, n: nat, j: nat, m: nat, id: string,
        cursorOf: nat -> string, env: Env<E, S>)
    requires Inv(sys, env) && n <= j <= m <= |sys.log.events| && j - n <= PENDING_LIMIT && env.ours(id)
    requires AppliedValue(sys.chain, env.big) <= n
    requires forall k: nat :: env.big(cursorOf(k)) == Some(k)
    requires forall k, cursor :: 0 <= k < |sys.log.events| ==>
             env.fold(sys.log.states[k], sys.log.events[k], cursor).Some?
    ensures var end := Run(sys, CatchUp(sys.log, n, j, m, id, cursorOf, env.fold), env);
            && end.log == sys.log && end.chain.phase == Following && end.chain.registrationId == Some(id)
            && end.chain.applied == Some(cursorOf(m)) && end.chain.view == sys.log.states[m]
  {
    var early := InOrder(sys.log, n, j, id, cursorOf, env.fold);
    var late := InOrder(sys.log, j, m, id, cursorOf, env.fold);
    var receipt: Step<E, S> := Receipt(id, cursorOf(n));
    forall i | 0 <= i < |early| ensures early[i].fold == env.fold {
      InOrderAt(sys.log, n, j, id, cursorOf, env.fold, i);
    }
    forall i | 0 <= i < |late| ensures late[i].fold == env.fold {
      InOrderAt(sys.log, j, m, id, cursorOf, env.fold, i);
    }
    HandshakeRuns(sys, n, cursorOf, env);
    var subscribed := Run(sys, Handshake(sys.log, n, cursorOf), env);
    RunConcat(sys, Handshake(sys.log, n, cursorOf), Transports(early) + ([receipt] + Transports(late)), env);
    RunConcat(subscribed, Transports(early), [receipt] + Transports(late), env);
    RunDelivers(subscribed, early, env);
    var buffered := Run(subscribed, Transports(early), env);
    ReceiptCatchesUp(subscribed, n, j, id, cursorOf, env);
    assert ([receipt] + Transports(late))[1..] == Transports(late);
    var following := Next(buffered, receipt, env);
    RunDelivers(following, late, env);
    InOrderDeliveryCatchesUp(following, j, m, id, cursorOf, env);
  }
}
