/** The lane checker's rules, written out over steps, targets and tests, and nothing else. */
module LaneRules {
  import opened Common
  import opened TestLanes

  // ---- assignment and placement ----

  /** A step that runs this target's tests on this platform in this profile. */
  predicate RunsTarget(s: Step, platform: Platform, profile: Profile, target: Target) {
    s.executes && s.platform == platform && s.profile == profile && target in s.targets
  }

  predicate TargetRule(steps: seq<Step>, targets: seq<Target>) {
    forall t :: t in targets ==> exists s :: s in steps && RunsTarget(s, Linux, Full, t)
  }

  /** The first target of that name. */
  predicate FirstNamed(targets: seq<Target>, name: string, k: nat) {
    k < |targets| && targets[k].Display() == name && forall i :: 0 <= i < k ==> targets[i].Display() != name
  }

  predicate PlacedAt(steps: seq<Step>, targets: seq<Target>, r: Requirement, k: nat) {
    FirstNamed(targets, r.target, k) && exists s :: s in steps && RunsTarget(s, r.platform, r.profile, targets[k])
  }

  predicate PlacementRule(steps: seq<Step>, targets: seq<Target>, requirements: seq<Requirement>) {
    forall r :: r in requirements ==> exists k :: 0 <= k < |targets| && PlacedAt(steps, targets, r, k)
  }

  predicate FirstOfJob(steps: seq<Step>, job: string, k: nat) {
    k < |steps| && steps[k].job == job && forall i :: 0 <= i < k ==> steps[i].job != job
  }

  predicate JobRule(steps: seq<Step>, host: Platform, jobs: seq<string>) {
    forall j :: j in jobs ==> exists k :: 0 <= k < |steps| && FirstOfJob(steps, j, k) && steps[k].platform == host
  }

  // ---- coverage ----

  predicate Focused(s: Step, host: Platform, jobs: seq<string>) {
    s.executes && s.platform == host && (jobs == [] || s.job in jobs)
  }

  /** What a step's own arguments select of a target. */
  function Own(run: Runner, s: Step, target: Target): Result<(set<string>, nat), string> {
    run(s.features, target, Selection(s.filters, s.skips, s.exact))
  }

  /** Some step of the same platform, profile and features runs the test; unconditionally, if it must. */
  predicate RunSomewhere(run: Runner, steps: seq<Step>, like: Step, target: Target, always: bool, test: string) {
    exists s :: s in steps && RunsTarget(s, like.platform, like.profile, target) && s.features == like.features
                && !(always && s.affected) && Own(run, s, target).Ok? && test in Own(run, s, target).value.0
  }

  predicate NotEmptyRule(run: Runner, s: Step, target: Target) {
    Own(run, s, target).Ok? && (Own(run, s, target).value.0 != {} || target.kind in {Bin, Example})
  }

  predicate UniverseRule(run: Runner, steps: seq<Step>, s: Step, target: Target) {
    s.platform == Linux && s.profile == Full ==>
      var all := run(s.features, target, Selection([], [], false));
      all.Ok? && forall test :: test in all.value.0 ==> RunSomewhere(run, steps, s, target, false, test)
  }

  /** The arguments that list a required suite: its filter, if any, and in FAST without the scale suite. */
  function SuiteArguments(r: Requirement): Selection {
    Selection(if r.filter == "" then [] else [r.filter], if r.profile == Fast then ["::scale::"] else [], false)
  }

  predicate SuiteRule(run: Runner, steps: seq<Step>, s: Step, target: Target, r: Requirement) {
    r.platform == s.platform && r.profile == s.profile && r.target == target.Display() ==>
      var suite := run(s.features, target, SuiteArguments(r));
      && suite.Ok? && suite.value.0 != {}
      && forall test :: test in suite.value.0 ==> RunSomewhere(run, steps, s, target, true, test)
  }

  predicate PeerRule(run: Runner, steps: seq<Step>, requirements: seq<Requirement>, s: Step, target: Target) {
    && NotEmptyRule(run, s, target) && UniverseRule(run, steps, s, target)
    && forall r :: r in requirements ==> SuiteRule(run, steps, s, target, r)
  }

  /** Every step that shares a focused step's platform, profile and target meets the rules for that target. */
  predicate CoverageRule(run: Runner, steps: seq<Step>, host: Platform, jobs: seq<string>,
        requirements: seq<Requirement>)
  {
    forall f, t, s :: f in steps && Focused(f, host, jobs) && t in f.targets
                      && s in steps && RunsTarget(s, host, f.profile, t) ==>
      PeerRule(run, steps, requirements, s, t)
  }

  // ---- selectors ----

  predicate FilterRule(run: Runner, s: Step, filter: string) {
    && (forall t :: t in s.targets ==> run(s.features, t, Selection([filter], s.skips, s.exact)).Ok?)
    && (forall t :: t in s.targets ==> run(s.features, t, Selection([filter], [], s.exact)).Ok?)
    && exists t :: t in s.targets && run(s.features, t, Selection([filter], s.skips, s.exact)).value.0 != {}
  }

  function With(d: Discovery, s: Step, target: Target): Result<set<string>, string> {
    d(s.features, target, Selection(s.filters, s.skips, s.exact), false)
  }

  function Without(d: Discovery, s: Step, target: Target, skip: string): Result<set<string>, string> {
    d(s.features, target, Selection(s.filters, Others(s.skips, skip), s.exact), false)
  }

  predicate SkipRule(d: Discovery, s: Step, skip: string) {
    && (forall t :: t in s.targets ==> With(d, s, t).Ok? && Without(d, s, t, skip).Ok?)
    && exists t, test :: t in s.targets && test in Without(d, s, t, skip).value && test !in With(d, s, t).value
  }

  predicate SelectorRule(run: Runner, d: Discovery, steps: seq<Step>, host: Platform, jobs: seq<string>) {
    forall s :: s in steps && Focused(s, host, jobs) ==>
      && (forall f :: f in s.filters ==> FilterRule(run, s, f))
      && (forall k :: k in s.skips ==> SkipRule(d, s, k))
  }

  // ---- they are what a clean workflow is ----

  /** The other skips, in order. */
  lemma {:induction false} OthersAre(skips: seq<string>, skip: string)
    ensures skip !in Others(skips, skip)
    ensures forall k :: k in Others(skips, skip) <==> k in skips && k != skip
    ensures skip !in skips ==> Others(skips, skip) == skips
  {
    if skips != [] {
      var init, last := skips[..|skips| - 1], skips[|skips| - 1];
      OthersAre(init, skip);
      assert skips == init + [last];
    }
  }

  lemma FindsFirst(targets: seq<Target>, name: string)
    ensures FindTarget(targets, name).Some? <==> exists k :: 0 <= k < |targets| && FirstNamed(targets, name, k)
    ensures forall k :: 0 <= k < |targets| && FirstNamed(targets, name, k) ==>
              FindTarget(targets, name) == Some(targets[k])
    decreases |targets|
  {
    if targets != [] {
      FindsFirst(targets[1..], name);
      if targets[0].Display() == name {
        assert FirstNamed(targets, name, 0);
      } else {
        forall k | 0 < k < |targets| ensures FirstNamed(targets, name, k) <==> FirstNamed(targets[1..], name, k - 1) {
          assert forall i :: 0 < i < k ==> targets[i] == targets[1..][i - 1];
          assert forall i :: 0 <= i < k - 1 ==> targets[1..][i] == targets[i + 1];
        }
        if k :| 0 <= k < |targets[1..]| && FirstNamed(targets[1..], name, k) {
          assert FirstNamed(targets, name, k + 1);
        }
      }
    }
  }

  lemma FindsFirstJob(steps: seq<Step>, job: string)
    ensures FindJob(steps, job).Some? <==> exists k :: 0 <= k < |steps| && FirstOfJob(steps, job, k)
    ensures forall k :: 0 <= k < |steps| && FirstOfJob(steps, job, k) ==> FindJob(steps, job) == Some(steps[k])
    decreases |steps|
  {
    if steps != [] {
      FindsFirstJob(steps[1..], job);
      if steps[0].job == job {
        assert FirstOfJob(steps, job, 0);
      } else {
        forall k | 0 < k < |steps| ensures FirstOfJob(steps, job, k) <==> FirstOfJob(steps[1..], job, k - 1) {
          assert forall i :: 0 < i < k ==> steps[i] == steps[1..][i - 1];
          assert forall i :: 0 <= i < k - 1 ==> steps[1..][i] == steps[i + 1];
        }
        if k :| 0 <= k < |steps[1..]| && FirstOfJob(steps[1..], job, k) { assert FirstOfJob(steps, job, k + 1); }
      }
    }
  }

  lemma AssignmentExactly(steps: seq<Step>, targets: seq<Target>, host: Platform, jobs: seq<string>,
        requirements: seq<Requirement>)
    ensures AssignmentClean(steps, targets, host, jobs, requirements) <==>
            && TargetRule(steps, targets) && PlacementRule(steps, targets, requirements) && JobRule(steps, host, jobs)
  {
    forall p, f, t ensures Assigned(steps, p, f, t) <==> exists s :: s in steps && RunsTarget(s, p, f, t) {
      if s :| s in steps && RunsTarget(s, p, f, t) { assert Selects(s, p, f, t); }
      if Assigned(steps, p, f, t) {
        var s :| s in steps && Selects(s, p, f, t);
        assert RunsTarget(s, p, f, t);
      }
    }
    forall r ensures Placed(steps, targets, r) <==> exists k :: 0 <= k < |targets| && PlacedAt(steps, targets, r, k) {
      PlacedExactly(steps, targets, r);
    }
    forall j
      ensures Native(steps, host, j) <==>
              exists k :: 0 <= k < |steps| && FirstOfJob(steps, j, k) && steps[k].platform == host
    {
      FindsFirstJob(steps, j);
    }
  }

  lemma PlacedExactly(steps: seq<Step>, targets: seq<Target>, r: Requirement)
    ensures Placed(steps, targets, r) <==> exists k :: 0 <= k < |targets| && PlacedAt(steps, targets, r, k)
  {
    FindsFirst(targets, r.target);
    if Placed(steps, targets, r) {
      var k :| 0 <= k < |targets| && FirstNamed(targets, r.target, k);
      var s :| s in steps && Selects(s, r.platform, r.profile, targets[k]);
      assert RunsTarget(s, r.platform, r.profile, targets[k]);
      assert PlacedAt(steps, targets, r, k);
    }
    if k :| 0 <= k < |targets| && PlacedAt(steps, targets, r, k) {
      var s :| s in steps && RunsTarget(s, r.platform, r.profile, targets[k]);
      assert Selects(s, r.platform, r.profile, targets[k]);
    }
  }

  // ---- coverage of one target ----

  lemma RunSomewhereExactly(run: Runner, steps: seq<Step>, s: Step, target: Target, always: bool, test: string)
    ensures RunSomewhere(run, steps, s, target, always, test) <==>
            RunBy(run, Selecting(steps, s.platform, s.profile, target), target, s.features, always, test)
  {
    var selecting := Selecting(steps, s.platform, s.profile, target);
    if RunSomewhere(run, steps, s, target, always, test) {
      var p :| p in steps && RunsTarget(p, s.platform, s.profile, target) && p.features == s.features
               && !(always && p.affected) && Own(run, p, target).Ok? && test in Own(run, p, target).value.0;
      assert Selects(p, s.platform, s.profile, target) && test in Runs(run, p, target);
    }
    if RunBy(run, selecting, target, s.features, always, test) {
      var p :| p in selecting && p.features == s.features && (always ==> !p.affected) && test in Runs(run, p, target);
      assert RunsTarget(p, s.platform, s.profile, target) && Own(run, p, target).Ok?;
    }
  }

  /** One feature set of one target, by the steps that use it. */
  lemma FeaturesExactly(run: Runner, steps: seq<Step>, requirements: seq<Requirement>, s: Step, target: Target)
    requires s in Selecting(steps, s.platform, s.profile, target)
    requires AllSelect(run, Selecting(steps, s.platform, s.profile, target), target)
    ensures var selecting := Selecting(steps, s.platform, s.profile, target);
            var covered, always := Cover(run, selecting, target, false), Cover(run, selecting, target, true);
            && s.features in covered
            && (FeaturesClean(run, s.platform, s.profile, target, requirements, s.features, covered[s.features],
                              Get(always, s.features))
                <==> && UniverseRule(run, steps, s, target)
                     && forall r :: r in requirements ==> SuiteRule(run, steps, s, target, r))
  {
    var selecting := Selecting(steps, s.platform, s.profile, target);
    var covered, always := Cover(run, selecting, target, false), Cover(run, selecting, target, true);
    CoverKeys(run, selecting, target, s.features);
    forall test
      ensures test in covered[s.features] <==> RunSomewhere(run, steps, s, target, false, test)
      ensures test in Get(always, s.features) <==> RunSomewhere(run, steps, s, target, true, test)
    {
      CoverExactly(run, selecting, target, false, s.features, test);
      CoverExactly(run, selecting, target, true, s.features, test);
      RunSomewhereExactly(run, steps, s, target, false, test);
      RunSomewhereExactly(run, steps, s, target, true, test);
    }
    UniverseExactly(run, steps, s, target, covered[s.features]);
    forall r | r in requirements
      ensures SuiteRule(run, steps, s, target, r) <==>
              (Applies(r, s.platform, s.profile, target) ==>
                 SuiteRuns(run, s.features, target, r, Get(always, s.features)))
    {
      SuiteExactly(run, steps, s, target, r, Get(always, s.features));
    }
  }

  lemma UniverseExactly(run: Runner, steps: seq<Step>, s: Step, target: Target, covered: set<string>)
    requires forall test :: test in covered <==> RunSomewhere(run, steps, s, target, false, test)
    ensures UniverseRule(run, steps, s, target) <==>
            (s.platform.Linux? && s.profile.Full? ==> UniverseRuns(run, s.features, target, covered))
  {
  }

  lemma SuiteExactly(run: Runner, steps: seq<Step>, s: Step, target: Target, r: Requirement, always: set<string>)
    requires forall test :: test in always <==> RunSomewhere(run, steps, s, target, true, test)
    ensures SuiteRule(run, steps, s, target, r) <==>
            (Applies(r, s.platform, s.profile, target) ==> SuiteRuns(run, s.features, target, r, always))
  {
    assert SuiteArguments(r) == RequiredArguments(r);
  }

  lemma AllSelectExactly(run: Runner, selecting: seq<Step>, target: Target)
    ensures AllSelect(run, selecting, target) <==> forall s :: s in selecting ==> NotEmptyRule(run, s, target)
  {
    forall s ensures NotEmptyRule(run, s, target) <==> StepSelects(run, s, target) {
    }
    if AllSelect(run, selecting, target) {
      forall s | s in selecting ensures NotEmptyRule(run, s, target) {
        var i :| 0 <= i < |selecting| && selecting[i] == s;
      }
    }
  }

  lemma TargetExactly(run: Runner, steps: seq<Step>, host: Platform, requirements: seq<Requirement>, profile: Profile,
        target: Target)
    ensures TargetClean(run, steps, host, requirements, profile, target) <==>
            forall s :: s in steps && RunsTarget(s, host, profile, target) ==>
              PeerRule(run, steps, requirements, s, target)
  {
    var selecting := Selecting(steps, host, profile, target);
    forall s ensures s in selecting <==> s in steps && RunsTarget(s, host, profile, target) {
      assert Selects(s, host, profile, target) <==> RunsTarget(s, host, profile, target);
    }
    AllSelectExactly(run, selecting, target);
    if AllSelect(run, selecting, target) {
      forall s | s in selecting
        ensures var covered, always := Cover(run, selecting, target, false), Cover(run, selecting, target, true);
                && s.features in covered
                && (FeaturesClean(run, host, profile, target, requirements, s.features, covered[s.features],
                                  Get(always, s.features))
                    <==> PeerRule(run, steps, requirements, s, target))
      {
        FeaturesExactly(run, steps, requirements, s, target);
      }
      forall f | f in Cover(run, selecting, target, false) ensures exists s :: s in selecting && s.features == f {
        CoverKeys(run, selecting, target, f);
      }
    }
  }

  lemma {:induction false} PairsExactly(run: Runner, steps: seq<Step>, host: Platform, requirements: seq<Requirement>,
        pairs: seq<Pair>, n: nat)
    requires n <= |pairs|
    ensures PairsClean(run, steps, host, requirements, pairs, n) <==>
            forall i :: 0 <= i < n ==> TargetClean(run, steps, host, requirements, pairs[i].0, pairs[i].1)
  {
    if n > 0 { PairsExactly(run, steps, host, requirements, pairs, n - 1); }
  }

  lemma PairsAreTargets(run: Runner, steps: seq<Step>, host: Platform, jobs: seq<string>,
        requirements: seq<Requirement>)
    ensures var pairs := Evaluated(Focus(steps, host, jobs));
            PairsClean(run, steps, host, requirements, pairs, |pairs|) <==>
            forall f, t :: f in steps && Focused(f, host, jobs) && t in f.targets ==>
              TargetClean(run, steps, host, requirements, f.profile, t)
  {
    var focus := Focus(steps, host, jobs);
    var pairs := Evaluated(focus);
    PairsExactly(run, steps, host, requirements, pairs, |pairs|);
    forall f ensures f in focus <==> f in steps && Focused(f, host, jobs) {
      assert InFocus(f, host, jobs) <==> Focused(f, host, jobs);
    }
    if PairsClean(run, steps, host, requirements, pairs, |pairs|) {
      forall f, t | f in steps && Focused(f, host, jobs) && t in f.targets
        ensures TargetClean(run, steps, host, requirements, f.profile, t)
      {
        assert (f.profile, t) in pairs;
        var i :| 0 <= i < |pairs| && pairs[i] == (f.profile, t);
      }
    } else {
      var i :| 0 <= i < |pairs| && !TargetClean(run, steps, host, requirements, pairs[i].0, pairs[i].1);
      assert pairs[i] in pairs;
      var f :| f in focus && f.profile == pairs[i].0 && pairs[i].1 in f.targets;
    }
  }

  lemma CoverageExactly(run: Runner, steps: seq<Step>, host: Platform, jobs: seq<string>,
        requirements: seq<Requirement>)
    ensures var pairs := Evaluated(Focus(steps, host, jobs));
            PairsClean(run, steps, host, requirements, pairs, |pairs|) <==>
            CoverageRule(run, steps, host, jobs, requirements)
  {
    PairsAreTargets(run, steps, host, jobs, requirements);
    forall f, t | f in steps && Focused(f, host, jobs) && t in f.targets
      ensures TargetClean(run, steps, host, requirements, f.profile, t) <==>
              forall s :: s in steps && RunsTarget(s, host, f.profile, t) ==> PeerRule(run, steps, requirements, s, t)
    {
      TargetExactly(run, steps, host, requirements, f.profile, t);
    }
  }

  // ---- selectors of one step ----

  lemma FilterExactly(run: Runner, s: Step, filter: string)
    ensures FilterLive(run, s, filter) <==> FilterRule(run, s, filter)
  {
    TotalsExactly(run, s.features, s.targets, Selection([filter], s.skips, s.exact));
    TotalsExactly(run, s.features, s.targets, Selection([filter], [], s.exact));
  }

  lemma SkipExactly(d: Discovery, s: Step, skip: string)
    ensures SkipLive(d, s, skip) <==> SkipRule(d, s, skip)
  {
    ExcludedExactly(d, s, skip, |s.targets|);
    forall i | 0 <= i < |s.targets|
      ensures BothListed(d, s, skip, i) <==> With(d, s, s.targets[i]).Ok? && Without(d, s, s.targets[i], skip).Ok?
    {
    }
    if SkipLive(d, s, skip) {
      var i :| 0 <= i < |s.targets| && Excludes(d, s, skip, i);
      var test :| test in Without(d, s, s.targets[i], skip).value && test !in With(d, s, s.targets[i]).value;
      assert s.targets[i] in s.targets;
    }
    if SkipRule(d, s, skip) {
      var t, test :| t in s.targets && test in Without(d, s, t, skip).value && test !in With(d, s, t).value;
      var i :| 0 <= i < |s.targets| && s.targets[i] == t;
      assert Excludes(d, s, skip, i);
    }
  }

  lemma {:induction false} FiltersExactly(run: Runner, s: Step, n: nat)
    requires n <= |s.filters|
    ensures FiltersLive(run, s, n) <==> forall i :: 0 <= i < n ==> FilterRule(run, s, s.filters[i])
  {
    if n > 0 {
      FiltersExactly(run, s, n - 1);
      FilterExactly(run, s, s.filters[n - 1]);
    }
  }

  lemma {:induction false} SkipsExactly(d: Discovery, s: Step, n: nat)
    requires n <= |s.skips|
    ensures SkipsLive(d, s, n) <==> forall i :: 0 <= i < n ==> SkipRule(d, s, s.skips[i])
  {
    if n > 0 {
      SkipsExactly(d, s, n - 1);
      SkipExactly(d, s, s.skips[n - 1]);
    }
  }

  predicate StepRule(run: Runner, d: Discovery, s: Step) {
    && (forall f :: f in s.filters ==> FilterRule(run, s, f))
    && (forall k :: k in s.skips ==> SkipRule(d, s, k))
  }

  lemma StepExactly(run: Runner, d: Discovery, s: Step)
    ensures StepClean(run, d, s) <==> StepRule(run, d, s)
  {
    FiltersExactly(run, s, |s.filters|);
    SkipsExactly(d, s, |s.skips|);
    forall f ensures f in s.filters <==> exists i :: 0 <= i < |s.filters| && s.filters[i] == f {
    }
    forall k ensures k in s.skips <==> exists i :: 0 <= i < |s.skips| && s.skips[i] == k {
    }
  }

  lemma {:induction false} StepsExactly(run: Runner, d: Discovery, focus: seq<Step>, n: nat)
    requires n <= |focus|
    ensures StepsClean(run, d, focus, n) <==> forall i :: 0 <= i < n ==> StepRule(run, d, focus[i])
  {
    if n > 0 {
      StepsExactly(run, d, focus, n - 1);
      StepExactly(run, d, focus[n - 1]);
    }
  }

  lemma SelectorsExactly(run: Runner, d: Discovery, steps: seq<Step>, host: Platform, jobs: seq<string>)
    ensures var focus := Focus(steps, host, jobs);
            StepsClean(run, d, focus, |focus|) <==> SelectorRule(run, d, steps, host, jobs)
  {
    var focus := Focus(steps, host, jobs);
    StepsExactly(run, d, focus, |focus|);
    forall s ensures s in focus <==> s in steps && Focused(s, host, jobs) {
      assert InFocus(s, host, jobs) <==> Focused(s, host, jobs);
    }
    if StepsClean(run, d, focus, |focus|) {
      forall s | s in steps && Focused(s, host, jobs) ensures StepRule(run, d, s) {
        var i :| 0 <= i < |focus| && focus[i] == s;
      }
    }
  }

  // ---- the whole report ----

  /** A clean workflow is one that meets the rules. */
  lemma CleanExactly(run: Runner, d: Discovery, steps: seq<Step>, targets: seq<Target>, host: Platform,
        jobs: seq<string>, requirements: seq<Requirement>)
    ensures Clean(run, d, steps, targets, host, jobs, requirements) <==>
            && TargetRule(steps, targets) && PlacementRule(steps, targets, requirements) && JobRule(steps, host, jobs)
            && CoverageRule(run, steps, host, jobs, requirements) && SelectorRule(run, d, steps, host, jobs)
  {
    AssignmentExactly(steps, targets, host, jobs, requirements);
    CoverageExactly(run, steps, host, jobs, requirements);
    SelectorsExactly(run, d, steps, host, jobs);
  }

  /** So the checker reports nothing exactly when every rule holds. */
  method Report(d: Discovery, steps: seq<Step>, targets: seq<Target>, host: Platform, jobs: seq<string>,
        requirements: seq<Requirement>)
      returns (findings: seq<Finding>)
    ensures findings == [] <==>
            && TargetRule(steps, targets) && PlacementRule(steps, targets, requirements) && JobRule(steps, host, jobs)
            && CoverageRule(RunnerOf(d), steps, host, jobs, requirements)
            && SelectorRule(RunnerOf(d), d, steps, host, jobs)
  {
    findings := Check(d, steps, targets, host, jobs, requirements);
    CleanExactly(RunnerOf(d), d, steps, targets, host, jobs, requirements);
  }
}
