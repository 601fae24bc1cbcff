/** The CI lane checker: an empty report is exactly a clean workflow, and a clean workflow runs every test it claims. */
module TestLanes {
  import opened Common

  datatype Platform = Linux | Macos

  datatype Profile = Fast | Full

  datatype Kind = Lib | Bin | Example | Test | Bench

  datatype Target = Target(kind: Kind, name: string) {
    predicate MayBeEmpty() { kind.Bin? || kind.Example? }

    function Display(): string {
      match kind
      case Lib => "lib"
      case Bin => "bin " + name
      case Example => "example " + name
      case Test => "test " + name
      case Bench => "bench " + name
    }
  }

  /** libtest arguments: positive filters, `--skip` filters, and `--exact`. */
  datatype Selection = Selection(filters: seq<string>, skips: seq<string>, exact: bool)

  const EVERYTHING := Selection([], [], false)

  datatype Requirement = Requirement(profile: Profile, platform: Platform, target: string, filter: string)

  datatype Step = Step(job: string, name: string, platform: Platform, profile: Profile, affected: bool, executes: bool,
                       features: seq<string>, targets: seq<Target>, filters: seq<string>, skips: seq<string>,
                         exact: bool)
  {
    /** The libtest selection a filter and skip list amount to. */
    function Libtest(filters: seq<string>, skips: seq<string>): Selection { Selection(filters, skips, exact) }
  }

  const SCALE_SUITE := "::scale::"

  /** libtest's own listing of one harness; with the flag, of its ignored tests only. */
  type Discovery = (seq<string>, Target, Selection, bool) -> Result<set<string>, string>

  /** What an ordinary run of a selection executes, and how many selected tests are ignored. */
  type Runner = (seq<string>, Target, Selection) -> Result<(set<string>, nat), string>

  /** `Discovery::runnable`: listed minus ignored. */
  function Runnable(d: Discovery, features: seq<string>, target: Target,
        arguments: Selection): (runnable: Result<(set<string>, nat), string>)
    ensures runnable.Ok? <==> d(features, target, arguments, false).Ok? && d(features, target, arguments, true).Ok?
    ensures runnable.Ok? ==>
              var listed, ignored := d(features, target, arguments, false).value,
                d(features, target, arguments, true).value;
              (forall t :: t in runnable.value.0 <==> t in listed && t !in ignored) && runnable.value.1 == |ignored|
  {
    match d(features, target, arguments, false)
    case Err(e) => Err(e)
    case Ok(listed) =>
      match d(features, target, arguments, true)
      case Err(e) => Err(e)
      case Ok(ignored) => Ok((listed - ignored, |ignored|))
  }

  function RunnerOf(d: Discovery): Runner {
    (features: seq<string>, target: Target, arguments: Selection) => Runnable(d, features, target, arguments)
  }

  /** What a step runs of a target; empty when discovery fails. */
  function Runs(run: Runner, step: Step, target: Target): set<string> {
    match run(step.features, target, step.Libtest(step.filters, step.skips))
    case Ok((tests, _)) => tests
    case Err(_) => {}
  }

  datatype Finding =
    | Unassigned(target: Target)
    | UnknownSuite(requirement: Requirement)
    | UnselectedSuite(requirement: Requirement)
    | UnknownJob(job: string)
    | ForeignJob(job: string)
    | EmptyStep(step: Step, target: Target)
    | Uncovered(target: Target, missing: set<string>)
    | EmptySuite(requirement: Requirement)
    | PartialSuite(requirement: Requirement, missing: set<string>)
    | StaleFilter(step: Step, filter: string)
    | StaleSkip(step: Step, skip: string)
    | Problem(message: string)

  // ---- assignment and placement ----

  predicate Selects(step: Step, platform: Platform, profile: Profile, target: Target) {
    step.executes && step.platform == platform && step.profile == profile && target in step.targets
  }

  predicate Assigned(steps: seq<Step>, platform: Platform, profile: Profile, target: Target) {
    exists s :: s in steps && Selects(s, platform, profile, target)
  }

  function FindTarget(targets: seq<Target>, display: string): (found: Option<Target>)
    ensures found.Some? ==> found.value in targets && found.value.Display() == display
    ensures found.None? ==> forall t :: t in targets ==> t.Display() != display
  {
    if targets == [] then None else if targets[0].Display() == display then Some(targets[0])
      else FindTarget(targets[1..], display)
  }

  predicate Placed(steps: seq<Step>, targets: seq<Target>, r: Requirement) {
    var target := FindTarget(targets, r.target);
    target.Some? && Assigned(steps, r.platform, r.profile, target.value)
  }

  function FindJob(steps: seq<Step>, job: string): (found: Option<Step>)
    ensures found.Some? ==> found.value in steps && found.value.job == job
  {
    if steps == [] then None else if steps[0].job == job then Some(steps[0]) else FindJob(steps[1..], job)
  }

  predicate Native(steps: seq<Step>, host: Platform, job: string) {
    var step := FindJob(steps, job);
    step.Some? && step.value.platform == host
  }

  predicate AssignmentClean(steps: seq<Step>, targets: seq<Target>, host: Platform, jobs: seq<string>,
        requirements: seq<Requirement>)
  {
    && (forall t :: t in targets ==> Assigned(steps, Linux, Full, t))
    && (forall r :: r in requirements ==> Placed(steps, targets, r))
    && (forall j :: j in jobs ==> Native(steps, host, j))
  }

  method CheckTargets(steps: seq<Step>, targets: seq<Target>) returns (findings: seq<Finding>)
    ensures findings == [] <==> forall t :: t in targets ==> Assigned(steps, Linux, Full, t)
  {
    findings := [];
    for i := 0 to |targets|
      invariant findings == [] <==> forall k :: 0 <= k < i ==> Assigned(steps, Linux, Full, targets[k])
    {
      if !Assigned(steps, Linux, Full, targets[i]) { findings := findings + [Unassigned(targets[i])]; }
    }
  }

  method CheckRequirements(steps: seq<Step>, targets: seq<Target>, requirements: seq<Requirement>)
      returns (findings: seq<Finding>)
    ensures findings == [] <==> forall r :: r in requirements ==> Placed(steps, targets, r)
  {
    findings := [];
    for i := 0 to |requirements|
      invariant findings == [] <==> forall k :: 0 <= k < i ==> Placed(steps, targets, requirements[k])
    {
      var target := FindTarget(targets, requirements[i].target);
      if target.None? {
        findings := findings + [UnknownSuite(requirements[i])];
      } else if !Assigned(steps, requirements[i].platform, requirements[i].profile, target.value) {
        findings := findings + [UnselectedSuite(requirements[i])];
      }
    }
  }

  method CheckJobs(steps: seq<Step>, host: Platform, jobs: seq<string>) returns (findings: seq<Finding>)
    ensures findings == [] <==> forall j :: j in jobs ==> Native(steps, host, j)
  {
    findings := [];
    for i := 0 to |jobs|
      invariant findings == [] <==> forall k :: 0 <= k < i ==> Native(steps, host, jobs[k])
    {
      var step := FindJob(steps, jobs[i]);
      if step.None? {
        findings := findings + [UnknownJob(jobs[i])];
      } else if step.value.platform != host {
        findings := findings + [ForeignJob(jobs[i])];
      }
    }
  }

  method CheckAssignment(steps: seq<Step>, targets: seq<Target>, host: Platform, jobs: seq<string>,
        requirements: seq<Requirement>)
      returns (findings: seq<Finding>)
    ensures findings == [] <==> AssignmentClean(steps, targets, host, jobs, requirements)
  {
    var unassigned := CheckTargets(steps, targets);
    var unplaced := CheckRequirements(steps, targets, requirements);
    var foreign := CheckJobs(steps, host, jobs);
    findings := unassigned + unplaced + foreign;
  }

  // ---- coverage of one target in one profile ----

  function Selecting(steps: seq<Step>, host: Platform, profile: Profile, target: Target): (selecting: seq<Step>)
    ensures forall s :: s in selecting <==> s in steps && Selects(s, host, profile, target)
  {
    if steps == [] then []
    else
      var rest := Selecting(steps[1..], host, profile, target);
      assert forall s :: s in steps <==> s == steps[0] || s in steps[1..];
      if Selects(steps[0], host, profile, target) then [steps[0]] + rest else rest
  }

  /** A step's discovery succeeds and selects something, unless the harness may be empty. */
  predicate StepSelects(run: Runner, step: Step, target: Target) {
    && run(step.features, target, step.Libtest(step.filters, step.skips)).Ok?
    && (Runs(run, step, target) != {} || target.MayBeEmpty())
  }

  /** Some of `steps` of feature set `features` runs `test`; with `always`, whatever the change touches. */
  predicate RunBy(run: Runner, steps: seq<Step>, target: Target, features: seq<string>, always: bool, test: string) {
    exists s :: s in steps && s.features == features && (always ==> !s.affected) && test in Runs(run, s, target)
  }

  function Extend(coverage: map<seq<string>, set<string>>, features: seq<string>,
        tests: set<string>): map<seq<string>, set<string>>
  {
    coverage[features := (if features in coverage then coverage[features] else {}) + tests]
  }

  /** What the steps run between them, by feature set. */
  function Cover(run: Runner, steps: seq<Step>, target: Target, always: bool): map<seq<string>, set<string>> {
    if steps == [] then map[]
      else AddRuns(run, Cover(run, steps[..|steps| - 1], target, always), steps[|steps| - 1], target, always)
  }

  function AddRuns(run: Runner, coverage: map<seq<string>, set<string>>, step: Step, target: Target,
        always: bool): map<seq<string>, set<string>>
  {
    if run(step.features, target, step.Libtest(step.filters, step.skips)).Err?
      || (always && step.affected) then coverage
    else Extend(coverage, step.features, Runs(run, step, target))
  }

  /** Coverage holds exactly what some such step runs. */
  lemma {:induction false} CoverExactly(run: Runner, steps: seq<Step>, target: Target, always: bool,
        features: seq<string>, test: string)
    ensures var coverage := Cover(run, steps, target, always);
            (features in coverage && test in coverage[features]) <==> RunBy(run, steps, target, features, always, test)
    decreases |steps|
  {
    if steps != [] {
      var init, last := steps[..|steps| - 1], steps[|steps| - 1];
      CoverExactly(run, init, target, always, features, test);
      assert forall s :: s in steps <==> s in init || s == last;
    }
  }

  /** Its keys are the feature sets of the steps whose discovery succeeded. */
  lemma {:induction false} CoverKeys(run: Runner, steps: seq<Step>, target: Target, features: seq<string>)
    requires AllSelect(run, steps, target)
    ensures features in Cover(run, steps, target, false) <==> exists s :: s in steps && s.features == features
    decreases |steps|
  {
    if steps != [] {
      var init, last := steps[..|steps| - 1], steps[|steps| - 1];
      assert forall s :: s in steps <==> s in init || s == last;
      SelectStep(run, steps, target);
      CoverKeys(run, init, target, features);
    }
  }

  /** The report and both coverages after some steps. */
  datatype Collected = Collected(findings: seq<Finding>, covered: map<seq<string>, set<string>>,
      unconditional: map<seq<string>, set<string>>)

  /** What one step adds. */
  function CollectOne(run: Runner, acc: Collected, step: Step, target: Target): Collected {
    match run(step.features, target, step.Libtest(step.filters, step.skips))
    case Err(problem) => acc.(findings := acc.findings + [Problem(problem)])
    case Ok((runnable, _)) =>
      Collected(if runnable == {} && !target.MayBeEmpty() then acc.findings + [EmptyStep(step, target)]
        else acc.findings,
                Extend(acc.covered, step.features, runnable),
                if step.affected then acc.unconditional else Extend(acc.unconditional, step.features, runnable))
  }

  function CollectAll(run: Runner, steps: seq<Step>, target: Target): Collected {
    if steps == [] then Collected([], map[], map[])
    else CollectOne(run, CollectAll(run, steps[..|steps| - 1], target), steps[|steps| - 1], target)
  }

  lemma {:induction false} CollectedExactly(run: Runner, steps: seq<Step>, target: Target)
    ensures var all := CollectAll(run, steps, target);
            && (all.findings == [] <==> AllSelect(run, steps, target))
            && all.covered == Cover(run, steps, target, false) && all.unconditional == Cover(run, steps, target, true)
    decreases |steps|
  {
    if steps != [] {
      CollectedExactly(run, steps[..|steps| - 1], target);
      SelectStep(run, steps, target);
    }
  }

  predicate AllSelect(run: Runner, steps: seq<Step>, target: Target) {
    forall i :: 0 <= i < |steps| ==> StepSelects(run, steps[i], target)
  }

  lemma SelectStep(run: Runner, steps: seq<Step>, target: Target)
    requires steps != []
    ensures AllSelect(run, steps, target) <==>
            AllSelect(run, steps[..|steps| - 1], target) && StepSelects(run, steps[|steps| - 1], target)
  {
    var init := steps[..|steps| - 1];
    assert forall i :: 0 <= i < |init| ==> init[i] == steps[i];
  }

  method Collect(run: Runner, selecting: seq<Step>, target: Target) returns (all: Collected)
    ensures all == CollectAll(run, selecting, target)
  {
    all := Collected([], map[], map[]);
    for i := 0 to |selecting|
      invariant all == CollectAll(run, selecting[..i], target)
    {
      assert selecting[..i + 1][..i] == selecting[..i];
      all := CollectOne(run, all, selecting[i], target);
    }
    assert selecting[..|selecting|] == selecting;
  }

  /** The arguments that list a required suite; FAST leaves out the capacity suite. */
  function RequiredArguments(r: Requirement): Selection {
    Selection(if r.filter == "" then [] else [r.filter], if r.profile.Fast? then [SCALE_SUITE] else [], false)
  }

  predicate Applies(r: Requirement, host: Platform, profile: Profile, target: Target) {
    r.platform == host && r.profile == profile && r.target == target.Display()
  }

  function Get(coverage: map<seq<string>, set<string>>, features: seq<string>): set<string> {
    if features in coverage then coverage[features] else {}
  }

  predicate SuiteRuns(run: Runner, features: seq<string>, target: Target, r: Requirement, always: set<string>) {
    var required := run(features, target, RequiredArguments(r));
    required.Ok? && required.value.0 != {} && required.value.0 <= always
  }

  predicate UniverseRuns(run: Runner, features: seq<string>, target: Target, covered: set<string>) {
    var universe := run(features, target, EVERYTHING);
    universe.Ok? && universe.value.0 <= covered
  }

  predicate FeaturesClean(run: Runner, host: Platform, profile: Profile, target: Target,
        requirements: seq<Requirement>, features: seq<string>, covered: set<string>, always: set<string>)
  {
    && (host.Linux? && profile.Full? ==> UniverseRuns(run, features, target, covered))
    && (forall r :: r in requirements && Applies(r, host, profile, target) ==>
      SuiteRuns(run, features, target, r, always))
  }

  lemma NothingMissing(wanted: set<string>, had: set<string>)
    ensures (wanted - had == {} <==> wanted <= had) && (|wanted - had| == 0 <==> wanted <= had)
  {
    if wanted - had == {} {
      forall t | t in wanted ensures t in had {
        assert t in had || t in wanted - had;
      }
    }
  }

  method CheckFeatures(run: Runner, host: Platform, profile: Profile, target: Target, requirements: seq<Requirement>,
        features: seq<string>, covered: set<string>, always: set<string>)
                         returns (findings: seq<Finding>)
    ensures findings == [] <==> FeaturesClean(run, host, profile, target, requirements, features, covered, always)
  {
    findings := [];
    if host.Linux? && profile.Full? {
      match run(features, target, EVERYTHING)
      case Err(problem) => findings := findings + [Problem(problem)];
      case Ok((universe, _)) =>
        NothingMissing(universe, covered);
        if universe - covered != {} { findings := findings + [Uncovered(target, universe - covered)]; }
    }
    ghost var universal := findings == [];
    for i := 0 to |requirements|
      invariant findings == [] <==>
                universal && forall k :: 0 <= k < i && Applies(requirements[k], host, profile, target) ==>
                  SuiteRuns(run, features, target, requirements[k], always)
    {
      if Applies(requirements[i], host, profile, target) {
        match run(features, target, RequiredArguments(requirements[i]))
        case Err(problem) => findings := findings + [Problem(problem)];
        case Ok((required, _)) =>
          NothingMissing(required, always);
          if required == {} {
            findings := findings + [EmptySuite(requirements[i])];
          } else if required - always != {} {
            findings := findings + [PartialSuite(requirements[i], required - always)];
          }
      }
    }
  }

  /** Everything the report says about one target in one profile. */
  predicate TargetClean(run: Runner, steps: seq<Step>, host: Platform, requirements: seq<Requirement>,
        profile: Profile, target: Target)
  {
    var selecting := Selecting(steps, host, profile, target);
    var covered, always := Cover(run, selecting, target, false), Cover(run, selecting, target, true);
    && AllSelect(run, selecting, target)
    && (forall f :: f in covered ==>
      FeaturesClean(run, host, profile, target, requirements, f, covered[f], Get(always, f)))
  }

  method CheckTarget(run: Runner, steps: seq<Step>, host: Platform, requirements: seq<Requirement>, profile: Profile,
        target: Target)
      returns (findings: seq<Finding>)
    ensures findings == [] <==> TargetClean(run, steps, host, requirements, profile, target)
  {
    var selecting := Selecting(steps, host, profile, target);
    var all := Collect(run, selecting, target);
    CollectedExactly(run, selecting, target);
    findings := all.findings;
    var covered, always := all.covered, all.unconditional;
    ghost var selected := findings == [];
    var todo := covered.Keys;
    while todo != {}
      invariant todo <= covered.Keys
      invariant findings == [] <==> selected && forall f :: f in covered.Keys - todo ==>
                                      FeaturesClean(run, host, profile, target, requirements, f, covered[f],
                                        Get(always, f))
      decreases |todo|
    {
      var features :| features in todo;
      var more := CheckFeatures(run, host, profile, target, requirements, features, covered[features],
        Get(always, features));
      findings := findings + more;
      todo := todo - {features};
    }
  }

  // ---- filters and skips of one step ----

  /** What a step's targets hold under some arguments, in order. */
  function Totals(run: Runner, features: seq<string>, targets: seq<Target>,
        arguments: Selection): Result<(nat, nat), string>
  {
    if targets == [] then Ok((0, 0))
    else AddTotals(Totals(run, features, targets[..|targets| - 1], arguments),
      run(features, targets[|targets| - 1], arguments))
  }

  function AddTotals(totals: Result<(nat, nat), string>,
        more: Result<(set<string>, nat), string>): Result<(nat, nat), string>
  {
    if totals.Err? then totals
    else if more.Err? then Err(more.error)
    else Ok((totals.value.0 + |more.value.0|, totals.value.1 + more.value.1))
  }

  lemma TotalsStep(run: Runner, features: seq<string>, targets: seq<Target>, i: nat, arguments: Selection)
    requires i < |targets|
    ensures Totals(run, features, targets[..i + 1], arguments) ==
            AddTotals(Totals(run, features, targets[..i], arguments), run(features, targets[i], arguments))
  {
    assert targets[..i + 1][..i] == targets[..i];
  }

  /** `sum`: stops at the first discovery error. */
  method Sum(run: Runner, step: Step, arguments: Selection) returns (totals: Result<(nat, nat), string>)
    ensures totals == Totals(run, step.features, step.targets, arguments)
  {
    totals := Ok((0, 0));
    var targets := step.targets;
    for i := 0 to |targets|
      invariant totals == Totals(run, step.features, targets[..i], arguments)
    {
      TotalsStep(run, step.features, targets, i, arguments);
      totals := AddTotals(totals, run(step.features, targets[i], arguments));
      if totals.Err? {
        TotalsErr(run, step.features, targets, arguments, i + 1, totals.error);
        return;
      }
    }
    assert targets[..|targets|] == targets;
  }

  lemma {:induction false} TotalsErr(run: Runner, features: seq<string>, targets: seq<Target>, arguments: Selection,
        i: nat, e: string)
    requires i <= |targets| && Totals(run, features, targets[..i], arguments) == Err(e)
    ensures Totals(run, features, targets, arguments) == Err(e)
    decreases |targets|
  {
    if i < |targets| {
      assert targets[..|targets| - 1][..i] == targets[..i];
      TotalsErr(run, features, targets[..|targets| - 1], arguments, i, e);
    } else {
      assert targets[..i] == targets;
    }
  }

  /** With every discovery successful, each total is positive exactly when some target has such a test. */
  lemma {:induction false} TotalsExactly(run: Runner, features: seq<string>, targets: seq<Target>, arguments: Selection)
    ensures var totals := Totals(run, features, targets, arguments);
            && (totals.Ok? <==> forall t :: t in targets ==> run(features, t, arguments).Ok?)
            && (totals.Ok? ==>
                  && (totals.value.0 > 0 <==> exists t :: t in targets && run(features, t, arguments).value.0 != {})
                  && (totals.value.1 > 0 <==> exists t :: t in targets && run(features, t, arguments).value.1 > 0))
    decreases |targets|
  {
    if targets != [] {
      var init, last := targets[..|targets| - 1], targets[|targets| - 1];
      assert forall t :: t in targets <==> t in init || t == last;
      TotalsExactly(run, features, init, arguments);
    }
  }

  /** A filter still selects a runnable test that no `--skip` takes away. */
  predicate FilterLive(run: Runner, step: Step, filter: string) {
    var selected := Totals(run, step.features, step.targets, step.Libtest([filter], step.skips));
    var unskipped := Totals(run, step.features, step.targets, step.Libtest([filter], []));
    selected.Ok? && unskipped.Ok? && selected.value.0 > 0
  }

  /** The first `n` filters are live. */
  predicate FiltersLive(run: Runner, step: Step, n: nat)
    requires n <= |step.filters|
  {
    n == 0 || (FiltersLive(run, step, n - 1) && FilterLive(run, step, step.filters[n - 1]))
  }

  function Others(skips: seq<string>, skip: string): seq<string> {
    if skips == [] then []
    else if skips[|skips| - 1] == skip then Others(skips[..|skips| - 1], skip)
    else Others(skips[..|skips| - 1], skip) + [skips[|skips| - 1]]
  }

  function Listed(d: Discovery, step: Step, target: Target, skips: seq<string>): Result<set<string>, string> {
    d(step.features, target, step.Libtest(step.filters, skips), false)
  }

  /** Whether, over the first `n` targets, this skip alone excludes some test; an error if any listing fails. */
  function Excluded(d: Discovery, step: Step, skip: string, n: nat): Result<bool, string>
    requires n <= |step.targets|
  {
    if n == 0 then Ok(false)
    else AddExcluded(Excluded(d, step, skip, n - 1), Listed(d, step, step.targets[n - 1], step.skips),
                     Listed(d, step, step.targets[n - 1], Others(step.skips, skip)))
  }

  function AddExcluded(excluded: Result<bool, string>, with: Result<set<string>, string>,
        without: Result<set<string>, string>): Result<bool, string>
  {
    if excluded.Err? then excluded
    else if with.Err? then Err(with.error)
    else if without.Err? then Err(without.error)
    else Ok(excluded.value || !(without.value <= with.value))
  }

  /** Without this skip some target would list a test it now excludes. */
  predicate SkipLive(d: Discovery, step: Step, skip: string) { Excluded(d, step, skip, |step.targets|) == Ok(true) }

  /** Both listings of target `i` under this skip succeed. */
  predicate BothListed(d: Discovery, step: Step, skip: string, i: nat)
    requires i < |step.targets|
  {
    Listed(d, step, step.targets[i], step.skips).Ok? && Listed(d, step, step.targets[i], Others(step.skips, skip)).Ok?
  }

  predicate Excludes(d: Discovery, step: Step, skip: string, i: nat)
    requires i < |step.targets|
  {
    && BothListed(d, step, skip, i)
    && !(Listed(d, step, step.targets[i], Others(step.skips, skip)).value <= Listed(d, step, step.targets[i],
      step.skips).value)
  }

  /** Live exactly when every listing succeeds and some test is excluded by this skip alone. */
  lemma {:induction false} ExcludedExactly(d: Discovery, step: Step, skip: string, n: nat)
    requires n <= |step.targets|
    ensures Excluded(d, step, skip, n).Ok? <==> forall i :: 0 <= i < n ==> BothListed(d, step, skip, i)
    ensures Excluded(d, step, skip, n) == Ok(true) ==> exists i :: 0 <= i < n && Excludes(d, step, skip, i)
    ensures Excluded(d, step, skip, n) == Ok(false) ==> forall i :: 0 <= i < n ==> !Excludes(d, step, skip, i)
  {
    if n > 0 {
      ExcludedExactly(d, step, skip, n - 1);
      var before, now := Excluded(d, step, skip, n - 1), Excluded(d, step, skip, n);
      assert now.Ok? <==> before.Ok? && BothListed(d, step, skip, n - 1);
      assert now.Ok? ==> (now.value <==> before.value || Excludes(d, step, skip, n - 1));
    }
  }

  /** The first `n` skips are live. */
  predicate SkipsLive(d: Discovery, step: Step, n: nat)
    requires n <= |step.skips|
  {
    n == 0 || (SkipsLive(d, step, n - 1) && SkipLive(d, step, step.skips[n - 1]))
  }

  method CheckFilter(run: Runner, step: Step, filter: string) returns (findings: seq<Finding>)
    ensures findings == [] <==> FilterLive(run, step, filter)
  {
    var selected := Sum(run, step, step.Libtest([filter], step.skips));
    var unskipped := Sum(run, step, step.Libtest([filter], []));
    if selected.Err? { return [Problem(selected.error)]; }
    if unskipped.Err? { return [Problem(unskipped.error)]; }
    findings := if selected.value.0 == 0 then [StaleFilter(step, filter)] else [];
  }

  method CheckFilters(run: Runner, step: Step) returns (findings: seq<Finding>)
    ensures findings == [] <==> FiltersLive(run, step, |step.filters|)
  {
    findings := [];
    for i := 0 to |step.filters|
      invariant findings == [] <==> FiltersLive(run, step, i)
    {
      var more := CheckFilter(run, step, step.filters[i]);
      findings := findings + more;
    }
  }

  method CheckSkip(d: Discovery, step: Step, skip: string) returns (findings: seq<Finding>)
    ensures findings == [] <==> SkipLive(d, step, skip)
  {
    findings := [];
    var others := Others(step.skips, skip);
    var excluded := 0;
    for i := 0 to |step.targets|
      invariant excluded >= 0
      invariant if findings == [] then Excluded(d, step, skip, i) == Ok(excluded > 0)
          else Excluded(d, step, skip, i).Err?
    {
      var with := Listed(d, step, step.targets[i], step.skips);
      var without := Listed(d, step, step.targets[i], others);
      if with.Err? {
        findings := findings + [Problem(with.error)];
      } else if without.Err? {
        findings := findings + [Problem(without.error)];
      } else {
        NothingMissing(without.value, with.value);
        excluded := excluded + |without.value - with.value|;
      }
    }
    if excluded == 0 { findings := findings + [StaleSkip(step, skip)]; }
  }

  predicate StepClean(run: Runner, d: Discovery, step: Step) {
    FiltersLive(run, step, |step.filters|) && SkipsLive(d, step, |step.skips|)
  }

  lemma {:induction false} FilterIsLive(run: Runner, step: Step, n: nat, i: nat)
    requires n <= |step.filters| && FiltersLive(run, step, n) && i < n
    ensures FilterLive(run, step, step.filters[i])
    decreases n
  {
    if i < n - 1 { FilterIsLive(run, step, n - 1, i); }
  }

  lemma {:induction false} SkipIsLive(d: Discovery, step: Step, n: nat, i: nat)
    requires n <= |step.skips| && SkipsLive(d, step, n) && i < n
    ensures SkipLive(d, step, step.skips[i])
    decreases n
  {
    if i < n - 1 { SkipIsLive(d, step, n - 1, i); }
  }

  /** The first `n` steps are clean. */
  predicate StepsClean(run: Runner, d: Discovery, steps: seq<Step>, n: nat)
    requires n <= |steps|
  {
    n == 0 || (StepsClean(run, d, steps, n - 1) && StepClean(run, d, steps[n - 1]))
  }

  lemma {:induction false} StepIsClean(run: Runner, d: Discovery, steps: seq<Step>, n: nat, i: nat)
    requires n <= |steps| && StepsClean(run, d, steps, n) && i < n
    ensures StepClean(run, d, steps[i])
    decreases n
  {
    if i < n - 1 { StepIsClean(run, d, steps, n - 1, i); }
  }

  method CheckSkips(d: Discovery, step: Step) returns (findings: seq<Finding>)
    ensures findings == [] <==> SkipsLive(d, step, |step.skips|)
  {
    findings := [];
    for i := 0 to |step.skips|
      invariant findings == [] <==> SkipsLive(d, step, i)
    {
      var more := CheckSkip(d, step, step.skips[i]);
      findings := findings + more;
    }
  }

  method CheckStep(run: Runner, d: Discovery, step: Step) returns (findings: seq<Finding>)
    ensures findings == [] <==> StepClean(run, d, step)
  {
    var filters := CheckFilters(run, step);
    var skips := CheckSkips(d, step);
    findings := filters + skips;
  }

  // ---- the whole check ----

  predicate InFocus(step: Step, host: Platform, jobs: seq<string>) {
    step.executes && step.platform == host && (jobs == [] || step.job in jobs)
  }

  function Focus(steps: seq<Step>, host: Platform, jobs: seq<string>): (focus: seq<Step>)
    ensures forall s :: s in focus <==> s in steps && InFocus(s, host, jobs)
  {
    if steps == [] then []
    else
      var rest := Focus(steps[1..], host, jobs);
      assert forall s :: s in steps <==> s == steps[0] || s in steps[1..];
      if InFocus(steps[0], host, jobs) then [steps[0]] + rest else rest
  }

  type Pair = (Profile, Target)

  function AddPairs(pairs: seq<Pair>, profile: Profile, targets: seq<Target>): (all: seq<Pair>)
    ensures forall p :: p in all <==> p in pairs || (p.0 == profile && p.1 in targets)
  {
    if targets == [] then pairs
    else
      var next := AddPairs(pairs, profile, targets[..|targets| - 1]);
      var last := (profile, targets[|targets| - 1]);
      assert forall t :: t in targets <==> t in targets[..|targets| - 1] || t == targets[|targets| - 1];
      if last in next then next else next + [last]
  }

  /** The distinct profiles and targets the focused steps select. */
  function Evaluated(focus: seq<Step>): (pairs: seq<Pair>)
    ensures forall s, t :: s in focus && t in s.targets ==> (s.profile, t) in pairs
    ensures forall p :: p in pairs ==> exists s :: s in focus && s.profile == p.0 && p.1 in s.targets
  {
    if focus == [] then []
    else
      var init, last := focus[..|focus| - 1], focus[|focus| - 1];
      assert forall s :: s in focus <==> s in init || s == last;
      AddPairs(Evaluated(init), last.profile, last.targets)
  }

  /** The first `n` pairs are clean. */
  predicate PairsClean(run: Runner, steps: seq<Step>, host: Platform, requirements: seq<Requirement>,
        pairs: seq<Pair>, n: nat)
    requires n <= |pairs|
  {
    n == 0 || (PairsClean(run, steps, host, requirements, pairs, n - 1)
      && TargetClean(run, steps, host, requirements, pairs[n - 1].0, pairs[n - 1].1))
  }

  lemma {:induction false} PairIsClean(run: Runner, steps: seq<Step>, host: Platform, requirements: seq<Requirement>,
        pairs: seq<Pair>, n: nat, i: nat)
    requires n <= |pairs| && PairsClean(run, steps, host, requirements, pairs, n) && i < n
    ensures TargetClean(run, steps, host, requirements, pairs[i].0, pairs[i].1)
    decreases n
  {
    if i < n - 1 { PairIsClean(run, steps, host, requirements, pairs, n - 1, i); }
  }

  predicate Clean(run: Runner, d: Discovery, steps: seq<Step>, targets: seq<Target>, host: Platform,
        jobs: seq<string>, requirements: seq<Requirement>)
  {
    && AssignmentClean(steps, targets, host, jobs, requirements)
    && var focus := Focus(steps, host, jobs);
    && PairsClean(run, steps, host, requirements, Evaluated(focus), |Evaluated(focus)|)
    && StepsClean(run, d, focus, |focus|)
  }

  method CheckEvaluated(run: Runner, steps: seq<Step>, host: Platform, requirements: seq<Requirement>, pairs: seq<Pair>)
      returns (findings: seq<Finding>)
    ensures findings == [] <==> PairsClean(run, steps, host, requirements, pairs, |pairs|)
  {
    findings := [];
    for i := 0 to |pairs|
      invariant findings == [] <==> PairsClean(run, steps, host, requirements, pairs, i)
    {
      var more := CheckTarget(run, steps, host, requirements, pairs[i].0, pairs[i].1);
      findings := findings + more;
    }
  }

  method CheckFocus(run: Runner, d: Discovery, focus: seq<Step>) returns (findings: seq<Finding>)
    ensures findings == [] <==> StepsClean(run, d, focus, |focus|)
  {
    findings := [];
    for i := 0 to |focus|
      invariant findings == [] <==> StepsClean(run, d, focus, i)
    {
      var more := CheckStep(run, d, focus[i]);
      findings := findings + more;
    }
  }

  method CheckWith(run: Runner, d: Discovery, steps: seq<Step>, targets: seq<Target>, host: Platform,
        jobs: seq<string>, requirements: seq<Requirement>)
      returns (findings: seq<Finding>)
    ensures findings == [] <==> Clean(run, d, steps, targets, host, jobs, requirements)
  {
    var focus := Focus(steps, host, jobs);
    var unassigned := CheckAssignment(steps, targets, host, jobs, requirements);
    var uncovered := CheckEvaluated(run, steps, host, requirements, Evaluated(focus));
    var stale := CheckFocus(run, d, focus);
    findings := unassigned + uncovered + stale;
  }

  /** `check`: the report is empty exactly when the workflow is clean. */
  method Check(d: Discovery, steps: seq<Step>, targets: seq<Target>, host: Platform, jobs: seq<string>,
        requirements: seq<Requirement>)
      returns (findings: seq<Finding>)
    ensures findings == [] <==> Clean(RunnerOf(d), d, steps, targets, host, jobs, requirements)
  {
    findings := CheckWith(RunnerOf(d), d, steps, targets, host, jobs, requirements);
  }

  // ---- what an empty report means ----

  /** A test that the step would run under this filter alone, with its own skips. */
  predicate RunsUnder(run: Runner, step: Step, filter: string, target: Target, test: string) {
    var selected := run(step.features, target, step.Libtest([filter], step.skips));
    target in step.targets && selected.Ok? && test in selected.value.0
  }

  /** A test that the step lists without this skip and does not list with it. */
  predicate ExcludedBy(d: Discovery, step: Step, skip: string, target: Target, test: string) {
    var with, without := Listed(d, step, target, step.skips), Listed(d, step, target, Others(step.skips, skip));
    target in step.targets && with.Ok? && without.Ok? && test in without.value && test !in with.value
  }

  lemma LiveFilterRunsATest(run: Runner, step: Step, filter: string)
    requires FilterLive(run, step, filter)
    ensures exists target, test :: RunsUnder(run, step, filter, target, test)
  {
    var arguments := step.Libtest([filter], step.skips);
    TotalsExactly(run, step.features, step.targets, arguments);
    var target :| target in step.targets && run(step.features, target, arguments).value.0 != {};
    var test :| test in run(step.features, target, arguments).value.0;
    assert RunsUnder(run, step, filter, target, test);
  }

  lemma LiveSkipExcludesATest(d: Discovery, step: Step, skip: string)
    requires SkipLive(d, step, skip)
    ensures exists target, test :: ExcludedBy(d, step, skip, target, test)
  {
    ExcludedExactly(d, step, skip, |step.targets|);
    var i :| 0 <= i < |step.targets| && Excludes(d, step, skip, i);
    var target := step.targets[i];
    var with, without := Listed(d, step, target, step.skips).value,
      Listed(d, step, target, Others(step.skips, skip)).value;
    var test :| test in without && test !in with;
    assert ExcludedBy(d, step, skip, target, test);
  }

  /** Every filter of a focused step runs some test, and every skip of one excludes some test by itself. */
  lemma NoStaleSelector(run: Runner, d: Discovery, steps: seq<Step>, targets: seq<Target>, host: Platform,
        jobs: seq<string>, requirements: seq<Requirement>, step: Step, i: nat)
    requires Clean(run, d, steps, targets, host, jobs, requirements) && step in steps && InFocus(step, host, jobs)
    ensures i < |step.filters| ==> exists target, test :: RunsUnder(run, step, step.filters[i], target, test)
    ensures i < |step.skips| ==> exists target, test :: ExcludedBy(d, step, step.skips[i], target, test)
  {
    FocusedStepIsClean(run, d, steps, targets, host, jobs, requirements, step);
    if i < |step.filters| {
      FilterIsLive(run, step, |step.filters|, i);
      LiveFilterRunsATest(run, step, step.filters[i]);
    }
    if i < |step.skips| {
      SkipIsLive(d, step, |step.skips|, i);
      LiveSkipExcludesATest(d, step, step.skips[i]);
    }
  }

  lemma FocusedStepIsClean(run: Runner, d: Discovery, steps: seq<Step>, targets: seq<Target>, host: Platform,
        jobs: seq<string>, requirements: seq<Requirement>, step: Step)
    requires Clean(run, d, steps, targets, host, jobs, requirements) && step in steps && InFocus(step, host, jobs)
    ensures StepClean(run, d, step)
  {
    var focus := Focus(steps, host, jobs);
    assert step in focus;
    var k :| 0 <= k < |focus| && focus[k] == step;
    StepIsClean(run, d, focus, |focus|, k);
  }

  /** Some executing step of this profile and feature set runs the test on the host. */
  predicate Executed(run: Runner, steps: seq<Step>, host: Platform, profile: Profile, target: Target,
        features: seq<string>, always: bool, test: string)
  {
    exists s :: s in steps && Selects(s, host, profile, target) && s.features == features && (always ==> !s.affected)
      && test in Runs(run, s, target)
  }

  lemma CoveredIsExecuted(run: Runner, steps: seq<Step>, host: Platform, profile: Profile, target: Target,
        features: seq<string>, always: bool, test: string)
    requires test in Get(Cover(run, Selecting(steps, host, profile, target), target, always), features)
    ensures Executed(run, steps, host, profile, target, features, always, test)
  {
    CoverExactly(run, Selecting(steps, host, profile, target), target, always, features, test);
  }

  /** A feature set used by an executing step on the host is evaluated and clean. */
  lemma UsedFeaturesAreClean(run: Runner, d: Discovery, steps: seq<Step>, targets: seq<Target>, host: Platform,
        requirements: seq<Requirement>, profile: Profile, target: Target, step: Step)
    requires Clean(run, d, steps, targets, host, [], requirements) && step in steps
             && Selects(step, host, profile, target)
    ensures var selecting := Selecting(steps, host, profile, target);
            var covered := Cover(run, selecting, target, false);
            && step.features in covered
            && FeaturesClean(run, host, profile, target, requirements, step.features, covered[step.features],
              Get(Cover(run, selecting, target, true), step.features))
  {
    var pairs := Evaluated(Focus(steps, host, []));
    assert step in Focus(steps, host, []) && (profile, target) in pairs;
    var i :| 0 <= i < |pairs| && pairs[i] == (profile, target);
    PairIsClean(run, steps, host, requirements, pairs, |pairs|, i);
    CoverKeys(run, Selecting(steps, host, profile, target), target, step.features);
  }

  /**
   * On Linux, every runnable test, under each feature set FULL uses for its target, is run by a
   * FULL step of that feature set.
   */
  lemma EveryTestRuns(run: Runner, d: Discovery, steps: seq<Step>, targets: seq<Target>,
        requirements: seq<Requirement>, target: Target, step: Step, test: string)
    requires Clean(run, d, steps, targets, Linux, [], requirements) && step in steps
             && Selects(step, Linux, Full, target)
    ensures run(step.features, target, EVERYTHING).Ok?
    ensures test in run(step.features, target, EVERYTHING).value.0 ==>
            Executed(run, steps, Linux, Full, target, step.features, false, test)
  {
    UsedFeaturesAreClean(run, d, steps, targets, Linux, requirements, Full, target, step);
    if test in run(step.features, target, EVERYTHING).value.0 {
      CoveredIsExecuted(run, steps, Linux, Full, target, step.features, false, test);
    }
  }

  /**
   * A required suite of the host, under each feature set its profile uses, exists and is run by
   * unconditional steps of that profile.
   */
  lemma EverySuiteRuns(run: Runner, d: Discovery, steps: seq<Step>, targets: seq<Target>, host: Platform,
        requirements: seq<Requirement>, r: Requirement, target: Target, step: Step, test: string)
    requires Clean(run, d, steps, targets, host, [], requirements) && r in requirements
             && Applies(r, host, r.profile, target)
    requires step in steps && Selects(step, host, r.profile, target)
    ensures var suite := run(step.features, target, RequiredArguments(r));
            && suite.Ok? && suite.value.0 != {}
            && (test in suite.value.0 ==> Executed(run, steps, host, r.profile, target, step.features, true, test))
  {
    UsedFeaturesAreClean(run, d, steps, targets, host, requirements, r.profile, target, step);
    assert SuiteRuns(run, step.features, target, r,
      Get(Cover(run, Selecting(steps, host, r.profile, target), target, true), step.features));
    if test in run(step.features, target, RequiredArguments(r)).value.0 {
      CoveredIsExecuted(run, steps, host, r.profile, target, step.features, true, test);
    }
  }

  /**
   * And there is such a step: every target has an executing FULL Linux step, every suite one of
   * its own profile and platform.
   */
  lemma EverythingIsSelected(run: Runner, d: Discovery, steps: seq<Step>, targets: seq<Target>, host: Platform,
        jobs: seq<string>, requirements: seq<Requirement>)
    requires Clean(run, d, steps, targets, host, jobs, requirements)
    ensures forall t :: t in targets ==> exists s :: s in steps && Selects(s, Linux, Full, t)
    ensures forall r :: r in requirements ==>
              exists t, s :: t in targets && t.Display() == r.target && s in steps
                && Selects(s, r.platform, r.profile, t)
  {
    forall t | t in targets ensures exists s :: s in steps && Selects(s, Linux, Full, t) {
      assert Assigned(steps, Linux, Full, t);
    }
    forall r | r in requirements
      ensures exists t, s ::
        t in targets && t.Display() == r.target && s in steps && Selects(s, r.platform, r.profile, t)
    {
      assert Placed(steps, targets, r);
      var t := FindTarget(targets, r.target).value;
      var s :| s in steps && Selects(s, r.platform, r.profile, t);
    }
  }

  // ---- the coverage theorem ----

  /** Every target has an executing FULL step on Linux. */
  predicate EveryTargetSelected(steps: seq<Step>, targets: seq<Target>) {
    forall t :: t in targets ==> exists s :: s in steps && Selects(s, Linux, Full, t)
  }

  /** Under each feature set FULL uses for a target, every runnable test is run by a FULL step of that feature set. */
  ghost predicate EveryTestExecuted(run: Runner, steps: seq<Step>) {
    forall s, t, test :: s in steps && Selects(s, Linux, Full, t) && Runnables(run, s.features, t, EVERYTHING, test) ==>
      Executed(run, steps, Linux, Full, t, s.features, false, test)
  }

  /** `test` is runnable under a selection. */
  predicate Runnables(run: Runner, features: seq<string>, target: Target, arguments: Selection, test: string) {
    run(features, target, arguments).Ok? && test in run(features, target, arguments).value.0
  }

  /** Some step of the suite's own profile selects it on the host. */
  predicate SuiteStep(steps: seq<Step>, host: Platform, r: Requirement, t: Target, s: Step) {
    Applies(r, host, r.profile, t) && s in steps && Selects(s, host, r.profile, t)
  }

  /**
   * Every required suite of the host is selected; where it is, it is not empty and
   * unconditional steps run all of it.
   */
  ghost predicate EverySuiteExecuted(run: Runner, steps: seq<Step>, targets: seq<Target>, host: Platform,
        requirements: seq<Requirement>)
  {
    forall r :: r in requirements && r.platform == host ==>
      && (exists t, s :: t in targets && SuiteStep(steps, host, r, t, s))
      && forall t, s :: SuiteStep(steps, host, r, t, s) ==> SuiteExecuted(run, steps, host, r, t, s)
  }

  ghost predicate SuiteExecuted(run: Runner, steps: seq<Step>, host: Platform, r: Requirement, t: Target, s: Step) {
    && (exists test :: Runnables(run, s.features, t, RequiredArguments(r), test))
    && forall test :: Runnables(run, s.features, t, RequiredArguments(r), test) ==>
         Executed(run, steps, host, r.profile, t, s.features, true, test)
  }

  lemma CleanSuiteIsExecuted(run: Runner, d: Discovery, steps: seq<Step>, targets: seq<Target>, host: Platform,
        requirements: seq<Requirement>, r: Requirement, t: Target, s: Step)
    requires Clean(run, d, steps, targets, host, [], requirements) && r in requirements
             && SuiteStep(steps, host, r, t, s)
    ensures SuiteExecuted(run, steps, host, r, t, s)
  {
    EverySuiteRuns(run, d, steps, targets, host, requirements, r, t, s, "");
    var suite := run(s.features, t, RequiredArguments(r)).value.0;
    var some :| some in suite;
    assert Runnables(run, s.features, t, RequiredArguments(r), some);
    forall test | Runnables(run, s.features, t, RequiredArguments(r), test)
      ensures Executed(run, steps, host, r.profile, t, s.features, true, test)
    {
      EverySuiteRuns(run, d, steps, targets, host, requirements, r, t, s, test);
    }
  }

  lemma CleanSuitesAreExecuted(run: Runner, d: Discovery, steps: seq<Step>, targets: seq<Target>, host: Platform,
        requirements: seq<Requirement>)
    requires Clean(run, d, steps, targets, host, [], requirements)
    ensures EverySuiteExecuted(run, steps, targets, host, requirements)
  {
    EverythingIsSelected(run, d, steps, targets, host, [], requirements);
    forall r | r in requirements && r.platform == host
      ensures exists t, s :: t in targets && SuiteStep(steps, host, r, t, s)
    {
      var t, s :| t in targets && t.Display() == r.target && s in steps && Selects(s, r.platform, r.profile, t);
      assert SuiteStep(steps, host, r, t, s);
    }
    forall r, t, s | r in requirements && r.platform == host && SuiteStep(steps, host, r, t, s)
      ensures SuiteExecuted(run, steps, host, r, t, s)
    {
      CleanSuiteIsExecuted(run, d, steps, targets, host, requirements, r, t, s);
    }
  }

  lemma CleanTestsAreExecuted(run: Runner, d: Discovery, steps: seq<Step>, targets: seq<Target>,
        requirements: seq<Requirement>)
    requires Clean(run, d, steps, targets, Linux, [], requirements)
    ensures EveryTestExecuted(run, steps)
  {
    forall s, t, test | s in steps && Selects(s, Linux, Full, t) && Runnables(run, s.features, t, EVERYTHING, test)
      ensures Executed(run, steps, Linux, Full, t, s.features, false, test)
    {
      EveryTestRuns(run, d, steps, targets, requirements, t, s, test);
    }
  }

  /** The lane checker is sound: what an empty report, unrestricted to jobs, promises about the workflow. */
  method CheckEverything(d: Discovery, steps: seq<Step>, targets: seq<Target>, host: Platform,
        requirements: seq<Requirement>)
      returns (findings: seq<Finding>)
    ensures findings == [] ==> EveryTargetSelected(steps, targets)
    ensures findings == [] && host.Linux? ==> EveryTestExecuted(RunnerOf(d), steps)
    ensures findings == [] ==> EverySuiteExecuted(RunnerOf(d), steps, targets, host, requirements)
  {
    findings := Check(d, steps, targets, host, [], requirements);
    if findings == [] {
      EverythingIsSelected(RunnerOf(d), d, steps, targets, host, [], requirements);
      CleanSuitesAreExecuted(RunnerOf(d), d, steps, targets, host, requirements);
      if host.Linux? { CleanTestsAreExecuted(RunnerOf(d), d, steps, targets, requirements); }
    }
  }
}
