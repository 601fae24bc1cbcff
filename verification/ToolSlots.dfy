/** Refining loaded tool slots from native facts: execution lifecycle and canonical commitment stay apart. */
module ToolSlots {
  import opened Common
  import opened ContentIdentity

  datatype Occurrence = Occurrence(locator: Locator, block_index: nat)

  datatype ToolState =
    | Assembled(arguments: string)
    | Running(arguments: string, progress: Option<string>)
    | Settled(arguments: string, result: string)

  datatype Tool = Tool(occurrence: Occurrence, metadata_ref: Option<string>, state: ToolState,
      result_source: Option<string>,
                       result_metadata_ref: Option<string>, committed_result: Option<string>,
                         committed_result_deferred: bool)

  datatype Fact =
    | ExecutionStarted(occurrence: Option<Occurrence>, metadata_ref: Option<string>)
    | ExecutionProgress(occurrence: Option<Occurrence>, execution_id: Option<string>, progress: Option<string>,
      metadata_ref: Option<string>)
    | ExecutionSettled(occurrence: Option<Occurrence>, metadata_ref: Option<string>, result: string,
      result_source: Option<string>,
                       result_metadata_ref: Option<string>)
    | ResultCommitted(occurrence: Option<Occurrence>, committed: Option<string>, deferred: bool,
      result_metadata_ref: Option<string>)
    | OccurrenceRebound(previous_locator: Locator, occurrence: Option<Occurrence>, metadata_ref: Option<string>)

  function Or(a: Option<string>, b: Option<string>): Option<string> { if a.Some? then a else b }

  /** The occurrence a fact is about, or nothing when it names none. */
  function Target(fact: Fact): Option<Occurrence> {
    if fact.occurrence.None? || (fact.ExecutionProgress? && fact.execution_id.Some?) then None
    else if fact.OccurrenceRebound? then Some(Occurrence(fact.previous_locator, fact.occurrence.value.block_index))
    else fact.occurrence
  }

  function RefineSlot(tool: Tool, fact: Fact): Tool {
    if Target(fact) != Some(tool.occurrence) then tool
    else
      match fact
      case OccurrenceRebound(_, occurrence, metadata) => tool.(occurrence := occurrence.value, metadata_ref := metadata)
      case ResultCommitted(_, committed, deferred, metadata) =>
        tool.(committed_result := committed, committed_result_deferred := deferred, result_metadata_ref := metadata)
      case ExecutionStarted(_, metadata) =>
        if tool.state.Settled? then tool
        else tool.(metadata_ref := Or(metadata, tool.metadata_ref), state := Running(tool.state.arguments, None))
      case ExecutionProgress(_, _, progress, metadata) =>
        if !tool.state.Running? then tool
        else tool.(metadata_ref := Or(metadata, tool.metadata_ref), state := tool.state.(progress := progress))
      case ExecutionSettled(_, metadata, result, source, resultMetadata) =>
        if tool.state.Settled? then tool
        else tool.(metadata_ref := Or(metadata, tool.metadata_ref), result_source := source,
                   result_metadata_ref := Or(resultMetadata, tool.result_metadata_ref),
                     state := Settled(tool.state.arguments, result))
  }

  /** `refineToolSlots`: every loaded row of the occurrence, wherever it is loaded. */
  function RefineToolSlots(rows: seq<Tool>, fact: Fact): (next: seq<Tool>)
    ensures |next| == |rows| && forall i :: 0 <= i < |rows| ==> next[i] == RefineSlot(rows[i], fact)
  {
    seq(|rows|, i requires 0 <= i < |rows| => RefineSlot(rows[i], fact))
  }

  function Fold(rows: seq<Tool>, facts: seq<Fact>): seq<Tool>
    decreases |facts|
  {
    if facts == [] then rows else RefineToolSlots(Fold(rows, facts[..|facts| - 1]), facts[|facts| - 1])
  }

  predicate IsCommit(fact: Fact) { fact.ResultCommitted? }

  predicate IsLifecycle(fact: Fact) { fact.ExecutionStarted? || fact.ExecutionProgress? || fact.ExecutionSettled? }

  function Erase(facts: seq<Fact>, erased: Fact -> bool): seq<Fact>
    decreases |facts|
  {
    if facts == [] then []
    else Erase(facts[..|facts| - 1], erased) + (if erased(facts[|facts| - 1]) then [] else [facts[|facts| - 1]])
  }

  /** The run as one slot sees it. */
  function FoldSlot(tool: Tool, facts: seq<Fact>): Tool
    decreases |facts|
  {
    if facts == [] then tool else RefineSlot(FoldSlot(tool, facts[..|facts| - 1]), facts[|facts| - 1])
  }

  lemma {:induction false} FoldIsSlotwise(rows: seq<Tool>, facts: seq<Fact>, i: nat)
    requires i < |rows|
    ensures |Fold(rows, facts)| == |rows| && Fold(rows, facts)[i] == FoldSlot(rows[i], facts)
    decreases |facts|
  {
    if facts != [] { FoldIsSlotwise(rows, facts[..|facts| - 1], i); }
  }

  lemma EraseLast(tool: Tool, facts: seq<Fact>, erased: Fact -> bool)
    requires facts != []
    ensures var init, last := facts[..|facts| - 1], facts[|facts| - 1];
            FoldSlot(tool, Erase(facts, erased)) ==
              if erased(last) then FoldSlot(tool, Erase(init, erased))
                else RefineSlot(FoldSlot(tool, Erase(init, erased)), last)
  {
    var init, last := facts[..|facts| - 1], facts[|facts| - 1];
    if erased(last) {
      assert Erase(facts, erased) == Erase(init, erased);
    } else {
      var kept := Erase(facts, erased);
      assert kept[..|kept| - 1] == Erase(init, erased) && kept[|kept| - 1] == last;
    }
  }

  // ---- lifecycle ----

  function Rank(state: ToolState): nat { if state.Assembled? then 0 else if state.Running? then 1 else 2 }

  /** From any point of a run to any later one, a slot's lifecycle never moves back and a settlement never changes. */
  lemma {:induction false} LifecycleIsMonotone(tool: Tool, facts: seq<Fact>, k: nat)
    requires k <= |facts|
    ensures var before, after := FoldSlot(tool, facts[..k]), FoldSlot(tool, facts);
            && Rank(before.state) <= Rank(after.state) && before.state.arguments == after.state.arguments
            && (Rank(before.state) == Rank(after.state) <==>
                  && (before.state.Assembled? <==> after.state.Assembled?)
                  && (before.state.Settled? <==> after.state.Settled?))
            && (before.state.Settled? ==> after.state == before.state && after.result_source == before.result_source)
    decreases |facts|
  {
    if k < |facts| {
      var init := facts[..|facts| - 1];
      assert init[..k] == facts[..k];
      LifecycleIsMonotone(tool, init, k);
    } else {
      assert facts[..k] == facts;
    }
  }

  // ---- commitment and lifecycle do not interfere ----

  /** What the lifecycle facts own. */
  function LifecycleView(tool: Tool): (Occurrence, Option<string>, ToolState, Option<string>) {
    (tool.occurrence, tool.metadata_ref, tool.state, tool.result_source)
  }

  /** What the commit facts own alone. */
  function CommitView(tool: Tool): (Occurrence, Option<string>, bool) {
    (tool.occurrence, tool.committed_result, tool.committed_result_deferred)
  }

  /** Lifecycle fields are what they would be had no result been committed. */
  lemma {:induction false} CommitsDoNotTouchLifecycle(tool: Tool, facts: seq<Fact>)
    ensures LifecycleView(FoldSlot(tool, facts)) == LifecycleView(FoldSlot(tool, Erase(facts, IsCommit)))
    decreases |facts|
  {
    if facts != [] {
      CommitsDoNotTouchLifecycle(tool, facts[..|facts| - 1]);
      EraseLast(tool, facts, IsCommit);
    }
  }

  /** Committed fields are what they would be had nothing been executed. */
  lemma {:induction false} LifecycleDoesNotTouchCommits(tool: Tool, facts: seq<Fact>)
    ensures CommitView(FoldSlot(tool, facts)) == CommitView(FoldSlot(tool, Erase(facts, IsLifecycle)))
    decreases |facts|
  {
    if facts != [] {
      LifecycleDoesNotTouchCommits(tool, facts[..|facts| - 1]);
      EraseLast(tool, facts, IsLifecycle);
    }
  }

  // ---- the one field both write ----

  /**
   * A lifecycle fact changes the shared metadata reference exactly when it first settles this
   * slot with another one.
   */
  lemma LifecycleWritesMetadata(tool: Tool, fact: Fact)
    requires IsLifecycle(fact)
    ensures RefineSlot(tool, fact).result_metadata_ref != tool.result_metadata_ref <==>
            && fact.ExecutionSettled? && Target(fact) == Some(tool.occurrence) && !tool.state.Settled?
            && fact.result_metadata_ref.Some? && fact.result_metadata_ref != tool.result_metadata_ref
  {
  }

  /** Where the rebounds among `facts` have taken the slot first known as `at`. */
  function OccurrenceAt(at: Occurrence, facts: seq<Fact>): Occurrence {
    if facts == [] then at
    else
      var before, last := OccurrenceAt(at, facts[..|facts| - 1]), facts[|facts| - 1];
      if last.OccurrenceRebound? && Target(last) == Some(before) then last.occurrence.value else before
  }

  /** Fact `i` is about the slot. */
  predicate Hits(at: Occurrence, facts: seq<Fact>, i: nat)
    requires i < |facts|
  {
    Target(facts[i]) == Some(OccurrenceAt(at, facts[..i]))
  }

  predicate Commits(at: Occurrence, facts: seq<Fact>, i: nat)
    requires i < |facts|
  {
    facts[i].ResultCommitted? && Hits(at, facts, i)
  }

  predicate Settles(at: Occurrence, facts: seq<Fact>, i: nat)
    requires i < |facts|
  {
    facts[i].ExecutionSettled? && Hits(at, facts, i)
  }

  /** Fact `i` is the slot's first settlement, it carries metadata, and no commit of the slot follows it. */
  predicate Standing(tool: Tool, facts: seq<Fact>, i: nat)
    requires i < |facts|
  {
    && !tool.state.Settled? && Settles(tool.occurrence, facts, i) && facts[i].result_metadata_ref.Some?
    && (forall k :: 0 <= k < i ==> !Settles(tool.occurrence, facts, k))
    && (forall k :: i < k < |facts| ==> !Commits(tool.occurrence, facts, k))
  }

  /** The metadata reference of the slot's last commit, or the one it started with. */
  function LastCommitted(tool: Tool, facts: seq<Fact>): Option<string> {
    if facts == [] then tool.result_metadata_ref
    else if Commits(tool.occurrence, facts, |facts| - 1) then facts[|facts| - 1].result_metadata_ref
    else LastCommitted(tool, facts[..|facts| - 1])
  }

  lemma {:induction false} OccurrenceIsRebound(tool: Tool, facts: seq<Fact>)
    ensures FoldSlot(tool, facts).occurrence == OccurrenceAt(tool.occurrence, facts)
    decreases |facts|
  {
    if facts != [] { OccurrenceIsRebound(tool, facts[..|facts| - 1]); }
  }

  lemma SameBefore(at: Occurrence, facts: seq<Fact>, n: nat, i: nat)
    requires i < n <= |facts|
    ensures Commits(at, facts[..n], i) == Commits(at, facts, i) && Settles(at, facts[..n], i) == Settles(at, facts, i)
  {
    assert facts[..n][..i] == facts[..i];
  }

  /** A slot is settled once any fact has settled it. */
  lemma {:induction false} SettledExactly(tool: Tool, facts: seq<Fact>)
    ensures FoldSlot(tool, facts).state.Settled? <==>
            tool.state.Settled? || exists i :: 0 <= i < |facts| && Settles(tool.occurrence, facts, i)
    decreases |facts|
  {
    if facts != [] {
      var n := |facts| - 1;
      var init := facts[..n];
      SettledExactly(tool, init);
      OccurrenceIsRebound(tool, init);
      forall i | 0 <= i < n ensures Settles(tool.occurrence, init, i) == Settles(tool.occurrence, facts, i) {
        SameBefore(tool.occurrence, facts, n, i);
      }
      assert FoldSlot(tool, facts).state.Settled? <==>
             FoldSlot(tool, init).state.Settled? || Settles(tool.occurrence, facts, n);
    }
  }

  /** Erasing the lifecycle leaves the last committed reference. */
  lemma {:induction false} ErasedIsLastCommitted(tool: Tool, facts: seq<Fact>)
    ensures var erased := FoldSlot(tool, Erase(facts, IsLifecycle));
            erased.occurrence == OccurrenceAt(tool.occurrence, facts)
              && erased.result_metadata_ref == LastCommitted(tool, facts)
    decreases |facts|
  {
    if facts != [] {
      ErasedIsLastCommitted(tool, facts[..|facts| - 1]);
      EraseLast(tool, facts, IsLifecycle);
    }
  }

  /** A settlement that stood before the last fact stands after it, unless that fact commits the slot. */
  lemma StandingBefore(tool: Tool, facts: seq<Fact>, i: nat)
    requires facts != [] && i < |facts| - 1
    ensures Standing(tool, facts, i) <==>
            Standing(tool, facts[..|facts| - 1], i) && !Commits(tool.occurrence, facts, |facts| - 1)
  {
    var n := |facts| - 1;
    forall k | 0 <= k < n
      ensures Commits(tool.occurrence, facts[..n], k) == Commits(tool.occurrence, facts, k)
      ensures Settles(tool.occurrence, facts[..n], k) == Settles(tool.occurrence, facts, k)
    {
      SameBefore(tool.occurrence, facts, n, k);
    }
  }

  /** The last fact stands exactly when it settles a slot not settled yet, with metadata. */
  lemma StandingLast(tool: Tool, facts: seq<Fact>)
    requires facts != []
    ensures var init, last := facts[..|facts| - 1], facts[|facts| - 1];
            Standing(tool, facts, |facts| - 1) <==>
            && last.ExecutionSettled? && Target(last) == Some(FoldSlot(tool, init).occurrence)
            && !FoldSlot(tool, init).state.Settled? && last.result_metadata_ref.Some?
  {
    var n := |facts| - 1;
    SettledExactly(tool, facts[..n]);
    OccurrenceIsRebound(tool, facts[..n]);
    forall k | 0 <= k < n ensures Settles(tool.occurrence, facts[..n], k) == Settles(tool.occurrence, facts, k) {
      SameBefore(tool.occurrence, facts, n, k);
    }
  }

  /** What the last fact does to the shared field. */
  lemma MetadataStep(tool: Tool, facts: seq<Fact>)
    requires facts != []
    ensures var init, last := facts[..|facts| - 1], facts[|facts| - 1];
            FoldSlot(tool, facts).result_metadata_ref ==
              if Commits(tool.occurrence, facts, |facts| - 1)
                || Standing(tool, facts, |facts| - 1) then last.result_metadata_ref
              else FoldSlot(tool, init).result_metadata_ref
  {
    OccurrenceIsRebound(tool, facts[..|facts| - 1]);
    StandingLast(tool, facts);
  }

  /** The shared reference is a standing settlement's, and otherwise the last committed one. */
  lemma {:induction false} MetadataIsLastWritten(tool: Tool, facts: seq<Fact>)
    ensures forall i :: 0 <= i < |facts| && Standing(tool, facts, i) ==>
              FoldSlot(tool, facts).result_metadata_ref == facts[i].result_metadata_ref
    ensures (forall i :: 0 <= i < |facts| ==> !Standing(tool, facts, i)) ==>
              FoldSlot(tool, facts).result_metadata_ref == LastCommitted(tool, facts)
    decreases |facts|
  {
    if facts != [] {
      var n := |facts| - 1;
      MetadataIsLastWritten(tool, facts[..n]);
      MetadataStep(tool, facts);
      forall i | 0 <= i < n
        ensures Standing(tool, facts, i) <==> Standing(tool, facts[..n], i) && !Commits(tool.occurrence, facts, n)
      {
        StandingBefore(tool, facts, i);
      }
    }
  }

  /**
   * So executing changes what the commits alone would leave there exactly when a standing
   * settlement carries another reference.
   */
  lemma ResultMetadataInterference(tool: Tool, facts: seq<Fact>)
    ensures FoldSlot(tool, facts).result_metadata_ref !=
            FoldSlot(tool, Erase(facts, IsLifecycle)).result_metadata_ref <==>
            exists i :: 0 <= i < |facts| && Standing(tool, facts, i)
              && facts[i].result_metadata_ref != LastCommitted(tool, facts)
  {
    MetadataIsLastWritten(tool, facts);
    ErasedIsLastCommitted(tool, facts);
  }

  /** The two kinds of fact do meet: a settlement after a commit replaces the commit's metadata reference. */
  lemma SettlementReplacesCommittedMetadata()
    ensures var at := Occurrence(ByLedgerPosition(1), 0);
            var tool := Tool(at, None, Assembled("{}"), None, None, None, false);
            var facts := [ResultCommitted(Some(at), None, true, Some("canonical")),
              ExecutionSettled(Some(at), None, "", None, Some("journal"))];
            && FoldSlot(tool, facts).result_metadata_ref == Some("journal")
            && FoldSlot(tool, Erase(facts, IsLifecycle)).result_metadata_ref == Some("canonical")
  {
    var at := Occurrence(ByLedgerPosition(1), 0);
    var tool := Tool(at, None, Assembled("{}"), None, None, None, false);
    var commit, settle := ResultCommitted(Some(at), None, true, Some("canonical")),
      ExecutionSettled(Some(at), None, "", None, Some("journal"));
    var facts := [commit, settle];
    assert facts[..1] == [commit] && [commit][..0] == [];
    assert FoldSlot(tool, [commit]) == RefineSlot(FoldSlot(tool, [commit][..0]), commit);
    assert FoldSlot(tool, facts) == RefineSlot(FoldSlot(tool, facts[..1]), settle);
    EraseLast(tool, facts, IsLifecycle);
    EraseLast(tool, [commit], IsLifecycle);
  }

  // ---- which fact each field is from ----

  /** The occurrence a fact names: a rebound the one it leaves, a background execution's progress none. */
  lemma TargetExactly(fact: Fact, at: Occurrence)
    ensures Target(fact) == Some(at) <==>
            && fact.occurrence.Some? && fact.occurrence.value.block_index == at.block_index
            && (if fact.OccurrenceRebound? then fact.previous_locator else fact.occurrence.value.locator) == at.locator
            && !(fact.ExecutionProgress? && fact.execution_id.Some?)
  {
  }

  predicate Starts(at: Occurrence, facts: seq<Fact>, i: nat)
    requires i < |facts|
  {
    facts[i].ExecutionStarted? && Hits(at, facts, i)
  }

  predicate Progresses(at: Occurrence, facts: seq<Fact>, i: nat)
    requires i < |facts|
  {
    facts[i].ExecutionProgress? && Hits(at, facts, i)
  }

  predicate Rebounds(at: Occurrence, facts: seq<Fact>, i: nat)
    requires i < |facts|
  {
    facts[i].OccurrenceRebound? && Hits(at, facts, i)
  }

  /** Nothing had settled the slot before fact `i`. */
  predicate OpenAt(tool: Tool, facts: seq<Fact>, i: nat)
    requires i <= |facts|
  {
    !tool.state.Settled? && forall k :: 0 <= k < i ==> !Settles(tool.occurrence, facts, k)
  }

  /** Something had started it, and nothing settled it, before fact `i`. */
  predicate RunningAt(tool: Tool, facts: seq<Fact>, i: nat)
    requires i <= |facts|
  {
    OpenAt(tool, facts, i) && (tool.state.Running? || exists k :: 0 <= k < i && Starts(tool.occurrence, facts, k))
  }

  lemma HitsBefore(at: Occurrence, facts: seq<Fact>, n: nat, i: nat)
    requires i < n <= |facts|
    ensures Hits(at, facts[..n], i) == Hits(at, facts, i)
  {
    assert facts[..n][..i] == facts[..i];
  }

  lemma AtBefore(tool: Tool, facts: seq<Fact>, n: nat, i: nat)
    requires i <= n <= |facts|
    ensures OpenAt(tool, facts[..n], i) == OpenAt(tool, facts, i)
    ensures RunningAt(tool, facts[..n], i) == RunningAt(tool, facts, i)
  {
    forall k | 0 <= k < i ensures Hits(tool.occurrence, facts[..n], k) == Hits(tool.occurrence, facts, k) {
      HitsBefore(tool.occurrence, facts, n, k);
    }
    forall k | 0 <= k < i
      ensures Settles(tool.occurrence, facts[..n], k) == Settles(tool.occurrence, facts, k)
      ensures Starts(tool.occurrence, facts[..n], k) == Starts(tool.occurrence, facts, k)
    {
    }
  }

  /** A slot runs once started, until settled. */
  lemma {:induction false} RunningExactly(tool: Tool, facts: seq<Fact>)
    ensures FoldSlot(tool, facts).state.Running? <==> RunningAt(tool, facts, |facts|)
    ensures FoldSlot(tool, facts).state.Settled? <==> !OpenAt(tool, facts, |facts|)
    decreases |facts|
  {
    SettledExactly(tool, facts);
    if facts != [] {
      var n := |facts| - 1;
      RunningExactly(tool, facts[..n]);
      AtBefore(tool, facts, n, n);
      OccurrenceIsRebound(tool, facts[..n]);
      assert RunningAt(tool, facts, n + 1) <==>
             !Settles(tool.occurrence, facts, n)
             && (RunningAt(tool, facts, n) || (OpenAt(tool, facts, n) && Starts(tool.occurrence, facts, n)));
    }
  }

  /** The result shown is that of the first settlement, with the arguments the slot always had. */
  lemma ResultIsFirstSettlement(tool: Tool, facts: seq<Fact>, i: nat)
    requires i < |facts| && OpenAt(tool, facts, i) && Settles(tool.occurrence, facts, i)
    ensures var t := FoldSlot(tool, facts);
            t.state == Settled(tool.state.arguments, facts[i].result) && t.result_source == facts[i].result_source
  {
    RunningExactly(tool, facts[..i]);
    AtBefore(tool, facts, i, i);
    OccurrenceIsRebound(tool, facts[..i]);
    LifecycleIsMonotone(tool, facts[..i], 0);
    assert facts[..i][..0] == [] && facts[..i + 1][..i] == facts[..i];
    LifecycleIsMonotone(tool, facts, i + 1);
  }

  /** Fact `i` writes the progress of the slot, or starts it afresh. */
  predicate WritesProgress(tool: Tool, facts: seq<Fact>, i: nat)
    requires i < |facts|
  {
    || (Starts(tool.occurrence, facts, i) && OpenAt(tool, facts, i))
    || (Progresses(tool.occurrence, facts, i) && RunningAt(tool, facts, i))
  }

  predicate WritesMetadataRef(tool: Tool, facts: seq<Fact>, i: nat)
    requires i < |facts|
  {
    || Rebounds(tool.occurrence, facts, i)
    || (WritesProgress(tool, facts, i) && facts[i].metadata_ref.Some?)
    || (Settles(tool.occurrence, facts, i) && OpenAt(tool, facts, i) && facts[i].metadata_ref.Some?)
  }

  lemma WritesBefore(tool: Tool, facts: seq<Fact>, n: nat, i: nat)
    requires i < n <= |facts|
    ensures WritesProgress(tool, facts[..n], i) == WritesProgress(tool, facts, i)
    ensures WritesMetadataRef(tool, facts[..n], i) == WritesMetadataRef(tool, facts, i)
    ensures Commits(tool.occurrence, facts[..n], i) == Commits(tool.occurrence, facts, i)
  {
    HitsBefore(tool.occurrence, facts, n, i);
    AtBefore(tool, facts, n, i);
  }

  /** What the last fact does. */
  lemma LastFact(tool: Tool, facts: seq<Fact>)
    requires facts != []
    ensures var n := |facts| - 1;
            var before, after, last := FoldSlot(tool, facts[..n]), FoldSlot(tool, facts), facts[n];
            && (if Commits(tool.occurrence, facts, n)
                then after.committed_result == last.committed && after.committed_result_deferred == last.deferred
                else after.committed_result == before.committed_result
                     && after.committed_result_deferred == before.committed_result_deferred)
            && (WritesMetadataRef(tool, facts, n) ==> after.metadata_ref == last.metadata_ref)
            && (!WritesMetadataRef(tool, facts, n) ==> after.metadata_ref == before.metadata_ref)
            && (after.state.Running? && WritesProgress(tool, facts, n) ==>
                  after.state.progress == if last.ExecutionStarted? then None else last.progress)
            && (after.state.Running? && !WritesProgress(tool, facts, n) ==> after.state == before.state)
  {
    var n := |facts| - 1;
    RunningExactly(tool, facts[..n]);
    AtBefore(tool, facts, n, n);
    OccurrenceIsRebound(tool, facts[..n]);
  }

  /** The committed result is that of the last commit, or what was loaded. */
  lemma {:induction false} CommittedIsLast(tool: Tool, facts: seq<Fact>, i: nat)
    requires i <= |facts| && forall k :: i <= k < |facts| ==> !Commits(tool.occurrence, facts, k)
    requires i > 0 ==> Commits(tool.occurrence, facts, i - 1)
    ensures var t := FoldSlot(tool, facts);
            if i == 0
            then t.committed_result == tool.committed_result
                 && t.committed_result_deferred == tool.committed_result_deferred
            else t.committed_result == facts[i - 1].committed && t.committed_result_deferred == facts[i - 1].deferred
    decreases |facts|
  {
    if facts != [] {
      var n := |facts| - 1;
      LastFact(tool, facts);
      if i <= n {
        forall k | 0 <= k < n ensures Commits(tool.occurrence, facts[..n], k) == Commits(tool.occurrence, facts, k) {
          WritesBefore(tool, facts, n, k);
        }
        CommittedIsLast(tool, facts[..n], i);
      }
    }
  }

  /** The metadata reference is that of the last fact that carried one while it mattered. */
  lemma {:induction false} MetadataRefIsLast(tool: Tool, facts: seq<Fact>, i: nat)
    requires i <= |facts| && forall k :: i <= k < |facts| ==> !WritesMetadataRef(tool, facts, k)
    requires i > 0 ==> WritesMetadataRef(tool, facts, i - 1)
    ensures FoldSlot(tool, facts).metadata_ref == if i == 0 then tool.metadata_ref else facts[i - 1].metadata_ref
    decreases |facts|
  {
    if facts != [] {
      var n := |facts| - 1;
      LastFact(tool, facts);
      if i <= n {
        forall k | 0 <= k < n ensures WritesMetadataRef(tool, facts[..n], k) == WritesMetadataRef(tool, facts, k) {
          WritesBefore(tool, facts, n, k);
        }
        MetadataRefIsLast(tool, facts[..n], i);
      }
    }
  }

  /** The progress of a running slot is that of the last progress since it last started. */
  lemma {:induction false} ProgressIsLast(tool: Tool, facts: seq<Fact>, i: nat)
    requires FoldSlot(tool, facts).state.Running?
    requires i <= |facts| && forall k :: i <= k < |facts| ==> !WritesProgress(tool, facts, k)
    requires i > 0 ==> WritesProgress(tool, facts, i - 1)
    ensures i == 0 ==> FoldSlot(tool, facts).state == tool.state
    ensures i > 0 ==>
              FoldSlot(tool, facts).state.progress ==
              if facts[i - 1].ExecutionStarted? then None else facts[i - 1].progress
    decreases |facts|
  {
    if facts != [] {
      var n := |facts| - 1;
      LastFact(tool, facts);
      if i <= n {
        forall k | 0 <= k < n ensures WritesProgress(tool, facts[..n], k) == WritesProgress(tool, facts, k) {
          WritesBefore(tool, facts, n, k);
        }
        ProgressIsLast(tool, facts[..n], i);
      }
    }
  }
}
