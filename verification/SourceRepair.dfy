/** Repair observations of configuration sources: ordering, bounded retention and convergence. */
module SourceRepair {
  import opened Common
  import opened Recency

  const WORKSPACES := 64
  const USER_KEY := "user"

  datatype Target = User | Workspace(directory: string)

  function Key(target: Target): string {
    match target
    case User => USER_KEY
    case Workspace(directory) => "workspace:" + directory
  }

  /** One observation of a source's receipt, or of none; sequences are exact decimals of one authority. */
  datatype Level = Level(target: Target, receipt: Option<string>, sequence: nat)

  datatype Decision = ApplyIt | Ignore | Recover

  /** `sourceRepairDecision`. `forgotten` is a read's own bound, absent for a notice. */
  function Decide(known: Option<Level>, observation: Level, forgotten: Option<nat>, forgottenThrough: nat): Decision {
    if known.Some? then
      if observation.sequence < known.value.sequence then Ignore
      else if observation.sequence == known.value.sequence then
        if observation.receipt != known.value.receipt && forgotten.None? then Recover else Ignore
      else ApplyIt
    else if !observation.target.User?
      && observation.sequence < (if forgotten.Some? then forgotten.value else forgottenThrough) then
      if forgotten.None? then Recover else Ignore
    else ApplyIt
  }

  /**
   * A newer sequence replaces what is held; an absent source takes anything not older than what may
   * have been forgotten, and the User anything. A notice that contradicts what is held at the same
   * sequence, or is older than the frontier, is recovered by reading again; all else is ignored.
   */
  lemma DecideExactly(known: Option<Level>, observation: Level, forgotten: Option<nat>, forgottenThrough: nat)
    ensures var decision := Decide(known, observation, forgotten, forgottenThrough);
            var bound := if forgotten.Some? then forgotten.value else forgottenThrough;
            var older := known.None? && observation.target != User && observation.sequence < bound;
            && (decision == ApplyIt <==> if known.Some? then known.value.sequence < observation.sequence else !older)
            && (decision == Recover <==>
                  && forgotten.None?
                  && (older || (known.Some? && known.value.sequence == observation.sequence
                                && known.value.receipt != observation.receipt)))
  {
  }

  /** The keys in characters: the User's, and a Workspace's directory behind its tag. */
  lemma KeysAre(directory: string)
    ensures Key(User) == "user" && Key(Workspace(directory)) == "workspace:" + directory && WORKSPACES == 64
  {
  }

  lemma KeyExact(a: Target, b: Target)
    ensures Key(a) == Key(b) <==> a == b
  {
    var x, y := Key(a), Key(b);
    if x == y {
      assert x[0] == y[0];
      if a.Workspace? {
        assert x[|"workspace:"|..] == a.directory && y[|"workspace:"|..] == b.directory;
      }
    }
  }

  // ---- retention ----

  datatype Entry<V> = Entry(key: string, value: V)

  function WithoutKey<V>(s: seq<Entry<V>>, key: string): seq<Entry<V>> {
    if s == [] then []
    else if s[|s| - 1].key == key then WithoutKey(s[..|s| - 1], key)
    else WithoutKey(s[..|s| - 1], key) + [s[|s| - 1]]
  }

  function WorkspaceKeys<V>(s: seq<Entry<V>>): seq<string> {
    if s == [] then []
    else if s[|s| - 1].key == USER_KEY then WorkspaceKeys(s[..|s| - 1])
    else WorkspaceKeys(s[..|s| - 1]) + [s[|s| - 1].key]
  }

  /** Where the least recently observed Workspace is. */
  function OldestWorkspace<V>(s: seq<Entry<V>>): (at: nat)
    requires WorkspaceKeys(s) != []
    ensures at < |s| && s[at].key == WorkspaceKeys(s)[0] != USER_KEY
    ensures forall i :: 0 <= i < at ==> s[i].key == USER_KEY
    ensures WorkspaceKeys(s[..at]) == []
  {
    var init := s[..|s| - 1];
    if WorkspaceKeys(init) == [] then
      AllUser(init);
      |s| - 1
    else
      var at := OldestWorkspace(init);
      assert s[..at] == init[..at];
      at
  }

  lemma {:induction false} AllUser<V>(s: seq<Entry<V>>)
    requires WorkspaceKeys(s) == []
    ensures forall i :: 0 <= i < |s| ==> s[i].key == USER_KEY
  {
    if s != [] { AllUser(s[..|s| - 1]); }
  }

  /** Beyond the bound, the least recently observed Workspace goes. */
  function Trim<V>(all: seq<Entry<V>>): (seq<Entry<V>>, Option<Entry<V>>) {
    if |WorkspaceKeys(all)| <= WORKSPACES then (all, None)
    else
      var at := OldestWorkspace(all);
      (all[..at] + all[at + 1..], Some(all[at]))
  }

  function Retain<V>(s: seq<Entry<V>>, key: string, value: V): (seq<Entry<V>>, Option<Entry<V>>) {
    Trim(WithoutKey(s, key) + [Entry(key, value)])
  }

  /** `retainSourceRepair`, which copies, counts and splices a local list. */
  method RetainSourceRepair<V>(sources: seq<Entry<V>>, key: string, value: V)
      returns (retained: seq<Entry<V>>, forgotten: Option<Entry<V>>)
    ensures (retained, forgotten) == Retain(sources, key, value)
  {
    retained := [];
    for i := 0 to |sources|
      invariant retained == WithoutKey(sources[..i], key)
    {
      assert sources[..i + 1][..i] == sources[..i];
      if sources[i].key != key { retained := retained + [sources[i]]; }
    }
    assert sources[..|sources|] == sources;
    retained := retained + [Entry(key, value)];
    var workspaces := 0;
    for i := 0 to |retained|
      invariant workspaces == |WorkspaceKeys(retained[..i])|
    {
      assert retained[..i + 1][..i] == retained[..i];
      if retained[i].key != USER_KEY { workspaces := workspaces + 1; }
    }
    assert retained[..|retained|] == retained;
    if workspaces <= WORKSPACES { return retained, None; }
    var at := 0;
    ghost var oldest := OldestWorkspace(retained);
    while retained[at].key == USER_KEY
      invariant at <= oldest
      decreases oldest - at
    {
      at := at + 1;
    }
    forgotten := Some(retained[at]);
    retained := retained[..at] + retained[at + 1..];
  }

  predicate DistinctEntries<V>(s: seq<Entry<V>>) { forall i, j :: 0 <= i < j < |s| ==> s[i].key != s[j].key }

  lemma {:induction false} WithoutKeyMembers<V>(s: seq<Entry<V>>, key: string)
    ensures forall e :: e in WithoutKey(s, key) <==> e in s && e.key != key
  {
    if s != [] {
      var init, last := s[..|s| - 1], s[|s| - 1];
      WithoutKeyMembers(init, key);
      assert forall e :: e in s <==> e in init || e == last;
    }
  }

  lemma {:induction false} WorkspacesWithout<V>(s: seq<Entry<V>>, key: string)
    ensures WorkspaceKeys(WithoutKey(s, key)) == if key == USER_KEY then WorkspaceKeys(s)
            else Remove(WorkspaceKeys(s), key)
  {
    if s != [] {
      var init, last := s[..|s| - 1], s[|s| - 1];
      WorkspacesWithout(init, key);
      if last.key != key { WorkspacesAppend(WithoutKey(init, key), last); }
      RemoveConcat(WorkspaceKeys(init), [last.key], key);
    }
  }

  lemma WorkspacesAppend<V>(s: seq<Entry<V>>, e: Entry<V>)
    ensures WorkspaceKeys(s + [e]) == WorkspaceKeys(s) + if e.key == USER_KEY then [] else [e.key]
  {
    assert (s + [e])[..|s|] == s;
  }

  lemma {:induction false} WorkspacesConcat<V>(a: seq<Entry<V>>, b: seq<Entry<V>>)
    ensures WorkspaceKeys(a + b) == WorkspaceKeys(a) + WorkspaceKeys(b)
  {
    if b == [] {
      assert a + b == a;
    } else {
      var init, last := b[..|b| - 1], b[|b| - 1];
      WorkspacesConcat(a, init);
      assert a + b == (a + init) + [last];
      WorkspacesAppend(a + init, last);
    }
  }

  /** Removing a Workspace that only the User precedes. */
  lemma DropFirst<V>(before: seq<Entry<V>>, e: Entry<V>, after: seq<Entry<V>>)
    requires WorkspaceKeys(before) == [] && e.key != USER_KEY
    ensures WorkspaceKeys((before + [e]) + after) == [e.key] + WorkspaceKeys(before + after)
  {
    WorkspacesAppend(before, e);
    WorkspacesConcat(before + [e], after);
    WorkspacesConcat(before, after);
  }

  lemma DropOldest<V>(s: seq<Entry<V>>)
    requires WorkspaceKeys(s) != []
    ensures var at := OldestWorkspace(s); WorkspaceKeys(s[..at] + s[at + 1..]) == WorkspaceKeys(s)[1..]
  {
    var at := OldestWorkspace(s);
    assert s == (s[..at] + [s[at]]) + s[at + 1..];
    DropFirst(s[..at], s[at], s[at + 1..]);
  }

  lemma LengthAfterTouch(touched: seq<string>, key: string)
    requires Recency.Distinct(touched)
    ensures |Touch(Newest(touched, WORKSPACES), key)| <= WORKSPACES + 1
  {
    TouchEffect(Newest(touched, WORKSPACES), key);
  }

  lemma RetainedKeys<V>(s: seq<Entry<V>>, key: string, value: V)
    ensures WorkspaceKeys(WithoutKey(s, key) + [Entry(key, value)]) ==
            if key == USER_KEY then WorkspaceKeys(s) else Touch(WorkspaceKeys(s), key)
  {
    WorkspacesWithout(s, key);
    WorkspacesAppend(WithoutKey(s, key), Entry(key, value));
  }

  /** At most one Workspace goes, and it is the oldest. */
  lemma TrimKeepsNewest<V>(all: seq<Entry<V>>)
    requires |WorkspaceKeys(all)| <= WORKSPACES + 1
    ensures WorkspaceKeys(Trim(all).0) == Newest(WorkspaceKeys(all), WORKSPACES)
    ensures Trim(all).1.Some? ==> Trim(all).1.value.key != USER_KEY
  {
    var keys := WorkspaceKeys(all);
    if |keys| > WORKSPACES {
      DropOldest(all);
      NewestDropsFirst(keys, WORKSPACES);
    }
  }

  /** Retention always leaves exactly the 64 most recently observed Workspaces, and never drops the User. */
  lemma RetainIsMostRecent<V>(s: seq<Entry<V>>, touched: seq<string>, key: string, value: V)
    requires Recency.Distinct(touched) && WorkspaceKeys(s) == Newest(touched, WORKSPACES)
    ensures WorkspaceKeys(Retain(s, key, value).0) ==
            Newest(if key == USER_KEY then touched else Touch(touched, key), WORKSPACES)
    ensures Retain(s, key, value).1.Some? ==> Retain(s, key, value).1.value.key != USER_KEY
  {
    RetainedKeys(s, key, value);
    if key != USER_KEY {
      NewestAfterTouch(touched, WORKSPACES, key);
      LengthAfterTouch(touched, key);
    }
    TrimKeepsNewest(WithoutKey(s, key) + [Entry(key, value)]);
  }
}
