/** One connection's repair observations: notices and reads, interleaved, under bounded retention. */
module RepairObserver {
  import opened Common
  import opened Recency
  import opened SourceRepair

  /** A Workspace read in flight. `floor` is the newest sequence its source had shown when the read was sent. */
  datatype Read = Read(target: Target, forgotten: nat, floor: nat)

  datatype Observer = Observer(held: seq<Entry<Level>>, forgottenThrough: nat, inFlight: seq<Read>)

  function Later(a: nat, b: nat): nat { if a < b then b else a }

  function Held(held: seq<Entry<Level>>, target: Target): (found: Option<Level>)
    ensures found.Some? ==> Entry(Key(target), found.value) in held
    ensures found.None? ==> forall e :: e in held ==> e.key != Key(target)
  {
    if held == [] then None else if held[0].key == Key(target) then Some(held[0].value) else Held(held[1..], target)
  }

  function Forgetting(inFlight: seq<Read>, gone: Level): (next: seq<Read>)
    ensures |next| == |inFlight|
    ensures forall i :: 0 <= i < |inFlight| ==>
      next[i] == if Key(inFlight[i].target) == Key(gone.target)
        then inFlight[i].(forgotten := Later(inFlight[i].forgotten, gone.sequence)) else inFlight[i]
  {
    seq(|inFlight|, i requires 0 <= i < |inFlight| =>
      if Key(inFlight[i].target) == Key(gone.target)
        then inFlight[i].(forgotten := Later(inFlight[i].forgotten, gone.sequence)) else inFlight[i])
  }

  /** `observe`: order the observation, retain it, and record what retention forgot. */
  function Observe(o: Observer, observation: Level, forgotten: Option<nat>): (Observer, Decision) {
    var decision := Decide(Held(o.held, observation.target), observation, forgotten, o.forgottenThrough);
    if !decision.ApplyIt? then (o, decision)
    else
      var (held, gone) := Retain(o.held, Key(observation.target), observation);
      if gone.None? then (o.(held := held), decision)
      else (Observer(held, Later(o.forgottenThrough, gone.value.value.sequence),
        Forgetting(o.inFlight, gone.value.value)), decision)
  }

  // ---- the observer with its history ----

  /**
   * `highest` is the newest sequence ever held of each source, `touched` the Workspaces in
   * order of last application.
   */
  datatype System = System(observer: Observer, highest: map<Target, nat>, touched: seq<string>)

  function Record(s: System, observation: Level, forgotten: Option<nat>): System {
    var (observer, decision) := Observe(s.observer, observation, forgotten);
    if !decision.ApplyIt? then s
    else System(observer, s.highest[observation.target := observation.sequence],
                if observation.target.User? then s.touched else Touch(s.touched, Key(observation.target)))
  }

  ghost predicate EntriesInv(held: seq<Entry<Level>>, highest: map<Target, nat>) {
    && DistinctEntries(held)
    && forall e :: e in held ==>
         && e.key == Key(e.value.target)
         && e.value.target in highest && highest[e.value.target] == e.value.sequence
  }

  /** What is absent is a Workspace, and every bound that could re-admit it is at least what it held. */
  ghost predicate Covered(o: Observer, highest: map<Target, nat>, target: Target)
    requires target in highest
  {
    Held(o.held, target).None? ==>
      && target.Workspace? && highest[target] <= o.forgottenThrough
      && forall r :: r in o.inFlight && r.target == target ==> highest[target] <= Later(r.forgotten, r.floor)
  }

  ghost predicate Inv(s: System) {
    && EntriesInv(s.observer.held, s.highest)
    && (forall t :: t in s.highest ==> Covered(s.observer, s.highest, t))
    && Recency.Distinct(s.touched) && WorkspaceKeys(s.observer.held) == Newest(s.touched, WORKSPACES)
  }

  lemma {:induction false} WithoutKeyDistinct(s: seq<Entry<Level>>, key: string)
    requires DistinctEntries(s)
    ensures DistinctEntries(WithoutKey(s, key))
  {
    if s != [] {
      var init, last := s[..|s| - 1], s[|s| - 1];
      WithoutKeyDistinct(init, key);
      WithoutKeyMembers(init, key);
      var kept := WithoutKey(init, key);
      forall i | 0 <= i < |kept| ensures kept[i].key != last.key {
        assert kept[i] in kept;
      }
    }
  }

  /**
   * Retention keeps keys distinct; the survivors are the new entry and the old ones but for the
   * key and the evicted.
   */
  lemma RetainMembers(s: seq<Entry<Level>>, key: string, value: Level)
    requires DistinctEntries(s)
    ensures var (kept, gone) := Retain(s, key, value);
            && DistinctEntries(kept)
            && (forall e :: e in kept <==> (e == Entry(key, value) || (e in s && e.key != key)) && gone != Some(e))
            && (gone.Some? ==> forall e :: e in kept ==> e.key != gone.value.key)
            && (gone.Some? ==> gone.value == Entry(key, value) || (gone.value in s && gone.value.key != key))
  {
    var rest := WithoutKey(s, key);
    var all := rest + [Entry(key, value)];
    WithoutKeyDistinct(s, key);
    WithoutKeyMembers(s, key);
    forall i | 0 <= i < |rest| ensures rest[i].key != key {
      assert rest[i] in rest;
    }
    assert forall e :: e in all <==> e in rest || e == Entry(key, value);
    TrimMembers(all);
  }

  /** Taking out one position takes out one entry, and no other has its key. */
  lemma CutAt(all: seq<Entry<Level>>, at: nat)
    requires DistinctEntries(all) && at < |all|
    ensures var kept := all[..at] + all[at + 1..];
            && DistinctEntries(kept) && (forall e :: e in kept ==> e in all && e.key != all[at].key)
            && (forall e :: e in all ==> e == all[at] || e in kept)
  {
    var kept := all[..at] + all[at + 1..];
    assert forall i :: 0 <= i < |kept| ==> kept[i] == if i < at then all[i] else all[i + 1];
    forall e | e in all ensures e == all[at] || e in kept {
      var i :| 0 <= i < |all| && all[i] == e;
      assert i < at ==> kept[i] == e;
      assert i > at ==> kept[i - 1] == e;
    }
  }

  lemma TrimMembers(all: seq<Entry<Level>>)
    requires DistinctEntries(all)
    ensures var (kept, gone) := Trim(all);
            && DistinctEntries(kept) && (forall e :: e in kept <==> e in all && gone != Some(e))
            && (gone.Some? ==> gone.value in all && forall e :: e in kept ==> e.key != gone.value.key)
  {
    if |WorkspaceKeys(all)| > WORKSPACES { CutAt(all, OldestWorkspace(all)); }
  }

  lemma EntriesStay(held: seq<Entry<Level>>, highest: map<Target, nat>, observation: Level)
    requires EntriesInv(held, highest)
    ensures EntriesInv(Retain(held, Key(observation.target), observation).0,
            highest[observation.target := observation.sequence])
  {
    RetainMembers(held, Key(observation.target), observation);
    var kept := Retain(held, Key(observation.target), observation).0;
    forall e | e in kept && e != Entry(Key(observation.target), observation)
      ensures e.value.target != observation.target
    {
      assert e in held;
    }
  }

  /** Forgetting only raises bounds, and raises those of the forgotten source to what it held. */
  lemma ForgettingRaises(o: Observer, gone: Level, held: seq<Entry<Level>>, highest: map<Target, nat>, t: Target)
    requires t in highest && t.Workspace?
    requires (Key(t) == Key(gone.target) && highest[t] <= gone.sequence)
             || (Held(o.held, t).None? && Covered(o, highest, t))
    ensures Covered(Observer(held, Later(o.forgottenThrough, gone.sequence), Forgetting(o.inFlight, gone)), highest, t)
  {
    var next := Forgetting(o.inFlight, gone);
    forall r | r in next && r.target == t ensures highest[t] <= Later(r.forgotten, r.floor) {
      var i :| 0 <= i < |next| && next[i] == r;
      assert o.inFlight[i] in o.inFlight;
    }
  }

  /** Where a source other than the observed one ends up. */
  lemma OtherSource(s: System, observation: Level, t: Target)
    requires Inv(s) && t in s.highest && t != observation.target
    ensures var (kept, gone) := Retain(s.observer.held, Key(observation.target), observation);
            || (Held(s.observer.held, t).None? && t.Workspace?)
            || Held(kept, t).Some?
            || (gone.Some? && t.Workspace? && Key(t) == Key(gone.value.value.target)
              && s.highest[t] == gone.value.value.sequence)
  {
    var held := s.observer.held;
    RetainMembers(held, Key(observation.target), observation);
    RetainIsMostRecent(held, s.touched, Key(observation.target), observation);
    KeyExact(t, observation.target);
    assert Covered(s.observer, s.highest, t);
    var before := Held(held, t);
    if before.Some? {
      var e := Entry(Key(t), before.value);
      KeyExact(t, e.value.target);
      assert e in held && e.value.sequence == s.highest[t];
    }
  }

  /** An absent source after an application was either absent before, or is the one just evicted. */
  lemma CoverageStays(s: System, observation: Level, forgotten: Option<nat>, t: Target)
    requires Inv(s) && Observe(s.observer, observation, forgotten).1.ApplyIt? && t in s.highest
             && t != observation.target
    ensures Covered(Observe(s.observer, observation, forgotten).0,
            s.highest[observation.target := observation.sequence], t)
  {
    var (kept, gone) := Retain(s.observer.held, Key(observation.target), observation);
    OtherSource(s, observation, t);
    assert Covered(s.observer, s.highest, t);
    if Held(kept, t).None? && gone.Some? {
      ForgettingRaises(s.observer, gone.value.value, kept, s.highest, t);
    }
  }

  /** The applied source is held, unless it was itself the 65th Workspace, which cannot be. */
  lemma AppliedIsHeld(s: System, observation: Level, forgotten: Option<nat>)
    requires Inv(s) && Observe(s.observer, observation, forgotten).1.ApplyIt?
    ensures Held(Observe(s.observer, observation, forgotten).0.held, observation.target) == Some(observation)
  {
    var key := Key(observation.target);
    var held := s.observer.held;
    var (kept, gone) := Retain(held, key, observation);
    RetainMembers(held, key, observation);
    NewestSurvives(held, key, observation);
    assert Entry(key, observation) in kept;
    var found := Held(kept, observation.target);
    var i :| 0 <= i < |kept| && kept[i] == Entry(key, observation);
    var j :| 0 <= j < |kept| && kept[j] == Entry(key, found.value);
  }

  /** The entry just made is the newest, so it is never the one evicted. */
  lemma NewestSurvives(s: seq<Entry<Level>>, key: string, value: Level)
    ensures Entry(key, value) in Retain(s, key, value).0
  {
    var all := WithoutKey(s, key) + [Entry(key, value)];
    var last := |all| - 1;
    if |WorkspaceKeys(all)| > WORKSPACES {
      var at := OldestWorkspace(all);
      WorkspacesAppend(all[..last], all[last]);
      assert all == all[..last] + [all[last]];
      assert |WorkspaceKeys(all[..last])| > 0 && at != last;
      assert (all[..at] + all[at + 1..])[last - 1] == all[last];
    } else {
      assert all[last] == Entry(key, value);
    }
  }

  /** A read's answer may be applied when its own bound, or the moment it was sent, covers what was forgotten. */
  ghost predicate Admissible(s: System, observation: Level, forgotten: Option<nat>) {
    forgotten.Some? && observation.target.Workspace? && observation.target in s.highest
      && Held(s.observer.held, observation.target).None? ==>
      s.highest[observation.target] <= forgotten.value || s.highest[observation.target] <= observation.sequence
  }

  /** One observation: no source is ever taken back below what it already held. */
  lemma RecordKeepsInv(s: System, observation: Level, forgotten: Option<nat>)
    requires Inv(s) && Admissible(s, observation, forgotten)
    ensures Inv(Record(s, observation, forgotten))
    ensures Observe(s.observer, observation, forgotten).1.ApplyIt? && observation.target in s.highest ==>
              s.highest[observation.target] <= observation.sequence
  {
    var target := observation.target;
    var (observer, decision) := Observe(s.observer, observation, forgotten);
    if target in s.highest {
      assert Covered(s.observer, s.highest, target);
      var known := Held(s.observer.held, target);
      if known.Some? { KeyExact(target, known.value.target); }
    }
    if decision.ApplyIt? {
      var next := Record(s, observation, forgotten);
      EntriesStay(s.observer.held, s.highest, observation);
      AppliedIsHeld(s, observation, forgotten);
      forall t | t in next.highest ensures Covered(observer, next.highest, t) {
        if t != target { CoverageStays(s, observation, forgotten, t); }
      }
      assert target.User? <==> Key(target) == USER_KEY by { KeyExact(target, User); }
      RetainIsMostRecent(s.observer.held, s.touched, Key(target), observation);
      TouchEffect(s.touched, Key(target));
    }
  }

  // ---- runs ----

  datatype Step =
    | Notice(observation: Level)
    | BeginRead(directory: string)
    | FinishRead(which: nat, sequence: nat, user: Option<string>, workspace: Option<string>)
    | ReadUser(sequence: nat, user: Option<string>)
    | FailRead(which: nat)

  function Highest(s: System, t: Target): nat { if t in s.highest then s.highest[t] else 0 }

  function WithReads(s: System, inFlight: seq<Read>): System { s.(observer := s.observer.(inFlight := inFlight)) }

  function Settle(s: System, which: nat): System
    requires which < |s.observer.inFlight|
  {
    WithReads(s, s.observer.inFlight[..which] + s.observer.inFlight[which + 1..])
  }

  lemma RecordKeepsReads(s: System, observation: Level, forgotten: Option<nat>)
    ensures |Record(s, observation, forgotten).observer.inFlight| == |s.observer.inFlight|
    ensures forall i :: 0 <= i < |s.observer.inFlight| ==>
      Record(s, observation, forgotten).observer.inFlight[i].target == s.observer.inFlight[i].target
    ensures forall i :: 0 <= i < |s.observer.inFlight| ==>
      Record(s, observation, forgotten).observer.inFlight[i].floor == s.observer.inFlight[i].floor
  {
  }

  /** A read's Workspace answer, compared with its own bound; then the read leaves. */
  function Answer(s: System, which: nat, sequence: nat, workspace: Option<string>): System
    requires which < |s.observer.inFlight|
  {
    var read := s.observer.inFlight[which];
    RecordKeepsReads(s, Level(read.target, workspace, sequence), Some(read.forgotten));
    Settle(Record(s, Level(read.target, workspace, sequence), Some(read.forgotten)), which)
  }

  function Apply(s: System, step: Step): System {
    match step
    case Notice(observation) => Record(s, observation, None)
    case BeginRead(directory) =>
      var target := Workspace(directory);
      WithReads(s, s.observer.inFlight + [Read(target, 0, Highest(s, target))])
    case ReadUser(sequence, user) => Record(s, Level(User, user, sequence), Some(0))
    case FailRead(which) => if which < |s.observer.inFlight| then Settle(s, which) else s
    case FinishRead(which, sequence, user, workspace) =>
      if which >= |s.observer.inFlight| then s
      else
        RecordKeepsReads(s, Level(User, user, sequence), Some(0));
        Answer(Record(s, Level(User, user, sequence), Some(0)), which, sequence, workspace)
  }

  /** The server answers a read with a snapshot taken after receiving it. */
  predicate Honest(s: System, step: Step) {
    step.FinishRead? && step.which < |s.observer.inFlight| ==> s.observer.inFlight[step.which].floor <= step.sequence
  }

  lemma SettleKeepsInv(s: System, which: nat)
    requires Inv(s) && which < |s.observer.inFlight|
    ensures Inv(Settle(s, which))
  {
    var next := Settle(s, which);
    forall t | t in next.highest ensures Covered(next.observer, next.highest, t) {
      assert Covered(s.observer, s.highest, t);
    }
  }

  lemma BeginKeepsInv(s: System, directory: string)
    requires Inv(s)
    ensures Inv(Apply(s, BeginRead(directory)))
  {
    var next := Apply(s, BeginRead(directory));
    forall t | t in next.highest ensures Covered(next.observer, next.highest, t) {
      assert Covered(s.observer, s.highest, t);
    }
  }

  /** Newest sequences never go back. */
  predicate Forward(before: System, after: System) {
    forall t :: t in before.highest ==> t in after.highest && before.highest[t] <= after.highest[t]
  }

  lemma AnswerKeepsInv(s: System, which: nat, sequence: nat, workspace: Option<string>)
    requires Inv(s) && which < |s.observer.inFlight| && s.observer.inFlight[which].floor <= sequence
    ensures Inv(Answer(s, which, sequence, workspace)) && Forward(s, Answer(s, which, sequence, workspace))
  {
    var read := s.observer.inFlight[which];
    var answer := Level(read.target, workspace, sequence);
    if read.target in s.highest { assert Covered(s.observer, s.highest, read.target); }
    RecordKeepsInv(s, answer, Some(read.forgotten));
    RecordKeepsReads(s, answer, Some(read.forgotten));
    SettleKeepsInv(Record(s, answer, Some(read.forgotten)), which);
  }

  lemma FinishKeepsInv(s: System, step: Step)
    requires Inv(s) && Honest(s, step) && step.FinishRead? && step.which < |s.observer.inFlight|
    ensures Inv(Apply(s, step)) && Forward(s, Apply(s, step))
  {
    var user := Level(User, step.user, step.sequence);
    RecordKeepsInv(s, user, Some(0));
    RecordKeepsReads(s, user, Some(0));
    AnswerKeepsInv(Record(s, user, Some(0)), step.which, step.sequence, step.workspace);
  }

  lemma StepKeepsInv(s: System, step: Step)
    requires Inv(s) && Honest(s, step)
    ensures Inv(Apply(s, step)) && Forward(s, Apply(s, step))
  {
    match step
    case Notice(observation) => RecordKeepsInv(s, observation, None);
    case BeginRead(directory) => BeginKeepsInv(s, directory);
    case ReadUser(sequence, user) => RecordKeepsInv(s, Level(User, user, sequence), Some(0));
    case FailRead(which) => if which < |s.observer.inFlight| { SettleKeepsInv(s, which); }
    case FinishRead(which, _, _, _) => if which < |s.observer.inFlight| { FinishKeepsInv(s, step); }
  }

  predicate Run(s: System, steps: seq<Step>, t: System)
    decreases |steps|
  {
    if steps == [] then s == t else Honest(s, steps[0]) && Run(Apply(s, steps[0]), steps[1..], t)
  }

  const CONNECTED := System(Observer([], 0, []), map[], [])

  /** However notices, reads and evictions interleave, held observations only move forward and retention is exact. */
  lemma {:induction false} RunKeepsInv(s: System, steps: seq<Step>, t: System)
    requires Inv(s) && Run(s, steps, t)
    ensures Inv(t) && Forward(s, t)
    decreases |steps|
  {
    if steps != [] {
      StepKeepsInv(s, steps[0]);
      RunKeepsInv(Apply(s, steps[0]), steps[1..], t);
    }
  }

  /** A source held at two moments of a run holds, at the later one, nothing older. */
  lemma HeldNeverGoesBack(steps: seq<Step>, s: System, more: seq<Step>, t: System, target: Target)
    requires Run(CONNECTED, steps, s) && Run(s, more, t)
    requires Held(s.observer.held, target).Some? && Held(t.observer.held, target).Some?
    ensures Held(s.observer.held, target).value.sequence <= Held(t.observer.held, target).value.sequence
  {
    RunKeepsInv(CONNECTED, steps, s);
    RunKeepsInv(s, more, t);
    KeyExact(target, Held(s.observer.held, target).value.target);
    KeyExact(target, Held(t.observer.held, target).value.target);
  }

  /**
   * In every run the retained Workspaces are exactly the 64 most recently applied ones, and the
   * User once seen is kept.
   */
  lemma RetentionIsExact(steps: seq<Step>, t: System)
    requires Run(CONNECTED, steps, t)
    ensures WorkspaceKeys(t.observer.held) == Newest(t.touched, WORKSPACES)
    ensures User in t.highest ==> Held(t.observer.held, User).Some?
  {
    RunKeepsInv(CONNECTED, steps, t);
    if User in t.highest { assert Covered(t.observer, t.highest, User); }
  }

  // ---- convergence without eviction ----

  function Deliver(delivered: seq<Level>): System {
    if delivered == [] then CONNECTED
      else Record(Deliver(delivered[..|delivered| - 1]), delivered[|delivered| - 1], None)
  }

  /** Within one authority a sequence fixes what is observed of a source. */
  predicate Consistent(delivered: seq<Level>) {
    forall a, b :: a in delivered && b in delivered && a.target == b.target && a.sequence == b.sequence ==> a == b
  }

  function WorkspacesOf(delivered: seq<Level>): set<string> {
    set l | l in delivered && l.target.Workspace? :: Key(l.target)
  }

  /** The highest-sequence observation of a source, whatever order and however often each arrived. */
  function Latest(delivered: seq<Level>, t: Target): (found: Option<Level>)
    ensures found.Some? ==> found.value in delivered && found.value.target == t
    ensures forall l :: l in delivered && l.target == t ==> found.Some? && l.sequence <= found.value.sequence
  {
    if delivered == [] then None
    else
      var before, last := Latest(delivered[..|delivered| - 1], t), delivered[|delivered| - 1];
      assert forall l :: l in delivered <==> l in delivered[..|delivered| - 1] || l == last;
      if last.target != t then before
      else if before.None? || before.value.sequence < last.sequence then Some(last) else before
  }

  lemma {:induction false} DistinctLength(keys: seq<string>, all: set<string>)
    requires Recency.Distinct(keys) && forall k :: k in keys ==> k in all
    ensures |keys| <= |all|
  {
    if keys != [] {
      var init, last := keys[..|keys| - 1], keys[|keys| - 1];
      DistinctLength(init, all - {last});
    }
  }

  lemma HeldIsUnique(held: seq<Entry<Level>>, t: Target, l: Level)
    requires DistinctEntries(held) && Entry(Key(t), l) in held
    ensures Held(held, t) == Some(l)
  {
    var found := Held(held, t);
    var i :| 0 <= i < |held| && held[i] == Entry(Key(t), l);
    var j :| 0 <= j < |held| && held[j] == Entry(Key(t), found.value);
  }

  /** Retaining one source without eviction leaves what is held of every other. */
  lemma OthersUntouched(held: seq<Entry<Level>>, observation: Level, t: Target)
    requires DistinctEntries(held) && t != observation.target
             && Retain(held, Key(observation.target), observation).1.None?
    ensures Held(Retain(held, Key(observation.target), observation).0, t) == Held(held, t)
  {
    var kept := Retain(held, Key(observation.target), observation).0;
    RetainMembers(held, Key(observation.target), observation);
    KeyExact(t, observation.target);
    var found := Held(held, t);
    if found.Some? { HeldIsUnique(kept, t, found.value); }
  }

  /** With no more Workspaces than are retained, nothing is ever evicted. */
  lemma NothingEvicted(s: System, observation: Level, all: set<string>)
    requires Inv(s) && |all| <= WORKSPACES && (forall k :: k in s.touched ==> k in all)
    requires observation.target.Workspace? ==> Key(observation.target) in all
    ensures Retain(s.observer.held, Key(observation.target), observation).1.None?
  {
    var key := Key(observation.target);
    assert observation.target.User? <==> key == USER_KEY by { KeyExact(observation.target, User); }
    RetainedKeys(s.observer.held, key, observation);
    DistinctLength(s.touched, all);
    if key != USER_KEY {
      TouchEffect(s.touched, key);
      DistinctLength(Touch(s.touched, key), all);
    }
  }

  /** Nothing evicted, nothing forgotten: an application changes what is held of its own source only. */
  lemma ApplyOne(s: System, observation: Level, all: set<string>, t: Target)
    requires Inv(s) && s.observer.forgottenThrough == 0 && |all| <= WORKSPACES
             && (forall k :: k in s.touched ==> k in all)
    requires observation.target.Workspace? ==> Key(observation.target) in all
    requires Observe(s.observer, observation, None).1.ApplyIt?
    ensures var next := Record(s, observation, None);
            && next.observer.forgottenThrough == 0 && (forall k :: k in next.touched ==> k in all)
            && Held(next.observer.held, t) == if t == observation.target then Some(observation)
              else Held(s.observer.held, t)
  {
    NothingEvicted(s, observation, all);
    RemoveMembers(s.touched, Key(observation.target));
    AppliedIsHeld(s, observation, None);
    if t != observation.target { OthersUntouched(s.observer.held, observation, t); }
  }

  lemma DeliverOne(s: System, observation: Level, all: set<string>, t: Target, before: Option<Level>)
    requires Inv(s) && s.observer.forgottenThrough == 0 && |all| <= WORKSPACES
             && (forall k :: k in s.touched ==> k in all)
    requires observation.target.Workspace? ==> Key(observation.target) in all
    requires Held(s.observer.held, t) == before
    requires before.Some? && before.value.sequence == observation.sequence && t == observation.target ==>
             before.value.receipt == observation.receipt
    ensures var next := Record(s, observation, None);
            && Inv(next) && next.observer.forgottenThrough == 0 && (forall k :: k in next.touched ==> k in all)
            && Held(next.observer.held, t) == if t == observation.target
              && (before.None? || before.value.sequence < observation.sequence)
                                              then Some(observation) else before
  {
    RecordKeepsInv(s, observation, None);
    if Observe(s.observer, observation, None).1.ApplyIt? { ApplyOne(s, observation, all, t); }
  }

  lemma {:induction false} DeliverConverges(delivered: seq<Level>, all: set<string>, t: Target)
    requires Consistent(delivered) && WorkspacesOf(delivered) <= all && |all| <= WORKSPACES
    ensures var s := Deliver(delivered);
            && Inv(s) && s.observer.forgottenThrough == 0 && (forall k :: k in s.touched ==> k in all)
            && Held(s.observer.held, t) == Latest(delivered, t)
    decreases |delivered|
  {
    if delivered != [] {
      var init, last := delivered[..|delivered| - 1], delivered[|delivered| - 1];
      assert last in delivered && forall l :: l in init ==> l in delivered;
      DeliverConverges(init, all, t);
      assert last.target.Workspace? ==> Key(last.target) in WorkspacesOf(delivered);
      DeliverOne(Deliver(init), last, all, t, Latest(init, t));
    }
  }

  /** Any two deliveries of the same observations, in any order and with any duplication, end holding the same. */
  lemma DeliveryOrderIsIrrelevant(a: seq<Level>, b: seq<Level>, t: Target)
    requires Consistent(a) && |WorkspacesOf(a)| <= WORKSPACES && forall l :: l in a <==> l in b
    ensures Held(Deliver(a).observer.held, t) == Held(Deliver(b).observer.held, t)
  {
    assert WorkspacesOf(a) == WorkspacesOf(b);
    DeliverConverges(a, WorkspacesOf(a), t);
    DeliverConverges(b, WorkspacesOf(b), t);
    var x, y := Latest(a, t), Latest(b, t);
    if x.Some? { assert x.value in b; }
    if y.Some? { assert y.value in a; }
  }

  /** The observer as the client updates it in place. */
  class SourceRepairObserver {
    var held: seq<Entry<Level>>
    var forgottenThrough: nat
    var inFlight: seq<Read>

    function View(): Observer
      reads this
    {
      Observer(held, forgottenThrough, inFlight)
    }

    constructor ()
      ensures View() == CONNECTED.observer
    {
      held, forgottenThrough, inFlight := [], 0, [];
    }

    method ObserveLevel(observation: Level, forgotten: Option<nat>) returns (decision: Decision)
      modifies this
      ensures (View(), decision) == Observe(old(View()), observation, forgotten)
    {
      var key := Key(observation.target);
      decision := Decide(Held(held, observation.target), observation, forgotten, forgottenThrough);
      if !decision.ApplyIt? { return; }
      var kept, gone := RetainSourceRepair(held, key, observation);
      if gone.Some? { Forget(gone.value.value); }
      held := kept;
    }

    method Forget(gone: Level)
      modifies this
      ensures View() ==
              Observer(old(held), Later(old(forgottenThrough), gone.sequence), Forgetting(old(inFlight), gone))
    {
      forgottenThrough := Later(forgottenThrough, gone.sequence);
      ghost var before, after := inFlight, Forgetting(inFlight, gone);
      var i := 0;
      while i < |inFlight|
        invariant 0 <= i <= |inFlight| == |before|
        invariant held == old(held) && forgottenThrough == Later(old(forgottenThrough), gone.sequence)
        invariant forall j :: 0 <= j < |before| ==> inFlight[j] == if j < i then after[j] else before[j]
      {
        var read := inFlight[i];
        if Key(read.target) == Key(gone.target) {
          inFlight := inFlight[i := read.(forgotten := Later(read.forgotten, gone.sequence))];
        }
        i := i + 1;
      }
      assert inFlight == after;
    }
  }

  // ---- each step exactly ----

  lemma {:induction false} HeldOnly(held: seq<Entry<Level>>, e: Entry<Level>, target: Target)
    requires DistinctEntries(held) && e in held && e.key == Key(target)
    ensures Held(held, target) == Some(e.value)
    decreases |held|
  {
    if held[0] != e {
      var i :| 0 < i < |held| && held[i] == e;
      assert held[0].key != held[i].key;
      assert held[1..][i - 1] == e;
      assert forall j :: 0 <= j < |held| - 1 ==> held[1..][j] == held[j + 1];
      HeldOnly(held[1..], e, target);
    }
  }

  /** What one observation does: applied, it is what is held; otherwise nothing changes. */
  lemma ObserveExactly(o: Observer, observation: Level, forgotten: Option<nat>)
    requires DistinctEntries(o.held)
    ensures var (next, decision) := Observe(o, observation, forgotten);
            && decision == Decide(Held(o.held, observation.target), observation, forgotten, o.forgottenThrough)
            && (decision != ApplyIt ==> next == o)
            && (decision == ApplyIt ==>
                  var (kept, gone) := Retain(o.held, Key(observation.target), observation);
                  && next.held == kept
                  && (gone.None? || gone.value.key != Key(observation.target) ==>
                        Held(next.held, observation.target) == Some(observation))
                  && next.forgottenThrough ==
                     (if gone.Some? && gone.value.value.sequence > o.forgottenThrough then gone.value.value.sequence
                      else o.forgottenThrough)
                  && |next.inFlight| == |o.inFlight|
                  && forall i :: 0 <= i < |o.inFlight| ==>
                       var read := o.inFlight[i];
                       next.inFlight[i] == Read(read.target,
                         if gone.Some? && Key(read.target) == Key(gone.value.value.target)
                            && gone.value.value.sequence > read.forgotten
                         then gone.value.value.sequence else read.forgotten, read.floor))
  {
    var (next, decision) := Observe(o, observation, forgotten);
    if decision == ApplyIt {
      RetainMembers(o.held, Key(observation.target), observation);
      var (kept, gone) := Retain(o.held, Key(observation.target), observation);
      if gone.None? || gone.value.key != Key(observation.target) {
        HeldOnly(kept, Entry(Key(observation.target), observation), observation.target);
      }
    }
  }

  /** A notice has no bound of its own, the User's answer one of zero: it is never forgotten. */
  lemma NoticeExactly(s: System, observation: Level, sequence: nat, user: Option<string>)
    ensures Apply(s, Notice(observation)) == Record(s, observation, None)
    ensures Apply(s, ReadUser(sequence, user)) == Record(s, Level(User, user, sequence), Some(0))
  {
  }

  /** Only the reads in flight differ. */
  predicate SameButReads(s: System, t: System) {
    && (t.highest, t.touched, t.observer.held) == (s.highest, s.touched, s.observer.held)
    && t.observer.forgottenThrough == s.observer.forgottenThrough
  }

  /** Starting a read remembers it, with nothing forgotten yet. */
  lemma BeginReadExactly(s: System, directory: string)
    ensures var t := Apply(s, BeginRead(directory));
            && SameButReads(s, t) && |t.observer.inFlight| == |s.observer.inFlight| + 1
            && s.observer.inFlight <= t.observer.inFlight
            && var read := t.observer.inFlight[|s.observer.inFlight|];
               (read.target, read.forgotten) == (Workspace(directory), 0)
  {
  }

  /** A failed read leaves, and nothing else changes. */
  lemma FailReadExactly(s: System, which: nat)
    ensures var t := Apply(s, FailRead(which));
            if which < |s.observer.inFlight|
            then SameButReads(s, t) && Removed(s.observer.inFlight, t.observer.inFlight, which)
            else t == s
  {
  }

  lemma AnswerExactly(s: System, which: nat, sequence: nat, workspace: Option<string>)
    requires which < |s.observer.inFlight|
    ensures var t, read := Answer(s, which, sequence, workspace), s.observer.inFlight[which];
            var told := Record(s, Level(read.target, workspace, sequence), Some(read.forgotten));
            SameButReads(told, t) && Removed(told.observer.inFlight, t.observer.inFlight, which)
  {
    var read := s.observer.inFlight[which];
    RecordKeepsReads(s, Level(read.target, workspace, sequence), Some(read.forgotten));
  }

  /** An answer tells of the User, then of its own source within its own bound, and the read leaves. */
  lemma FinishReadExactly(s: System, which: nat, sequence: nat, user: Option<string>, workspace: Option<string>)
    requires which < |s.observer.inFlight|
    ensures var first := Record(s, Level(User, user, sequence), Some(0));
            && which < |first.observer.inFlight|
            && Apply(s, FinishRead(which, sequence, user, workspace)) == Answer(first, which, sequence, workspace)
  {
    RecordKeepsReads(s, Level(User, user, sequence), Some(0));
  }

  /** `after` is `before` without its element `which`. */
  predicate Removed(before: seq<Read>, after: seq<Read>, which: nat) {
    && which < |before| == |after| + 1
    && (forall i :: 0 <= i < which ==> after[i] == before[i])
    && forall i :: which <= i < |after| ==> after[i] == before[i + 1]
  }
}
