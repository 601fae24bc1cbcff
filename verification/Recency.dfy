/** Keys in order of last touch, the most recent at the end. */
module Recency {
  import opened Common

  function Remove<K(==)>(keys: seq<K>, key: K): seq<K> {
    if keys == [] then [] else if keys[0] == key then Remove(keys[1..], key) else [keys[0]] + Remove(keys[1..], key)
  }

  function Touch<K(==)>(keys: seq<K>, key: K): seq<K> { Remove(keys, key) + [key] }

  /** `newest` is the tail of `keys`. */
  predicate IsNewest<K(==)>(newest: seq<K>, keys: seq<K>) { |newest| <= |keys| && keys[|keys| - |newest|..] == newest }

  lemma RemoveFirst<K>(first: K, rest: seq<K>, key: K)
    ensures Remove([first] + rest, key) == if first == key then Remove(rest, key) else [first] + Remove(rest, key)
  {
    assert ([first] + rest)[1..] == rest;
  }

  lemma {:induction false} RemoveConcat<K>(a: seq<K>, b: seq<K>, key: K)
    ensures Remove(a + b, key) == Remove(a, key) + Remove(b, key)
  {
    if a == [] {
      assert a + b == b;
    } else {
      var first, rest := a[0], a[1..];
      assert a == [first] + rest;
      PrependConcat(first, rest, b);
      RemoveFirst(first, rest + b, key);
      RemoveFirst(first, rest, key);
      RemoveConcat(rest, b, key);
      PrependConcat(first, Remove(rest, key), Remove(b, key));
    }
  }

  /** Touching the same key in a list and in its tail leaves the one a tail of the other. */
  lemma TouchKeepsNewest<K>(newest: seq<K>, keys: seq<K>, key: K)
    requires IsNewest(newest, keys)
    ensures IsNewest(Touch(newest, key), Touch(keys, key))
  {
    var older := keys[..|keys| - |newest|];
    assert keys == older + newest;
    RemoveConcat(older, newest, key);
    assert Touch(keys, key) == Remove(older, key) + Touch(newest, key);
  }

  predicate Distinct<K(==)>(keys: seq<K>) { forall i, j :: 0 <= i < j < |keys| ==> keys[i] != keys[j] }

  lemma {:induction false} RemoveMembers<K>(keys: seq<K>, key: K)
    ensures forall k :: k in Remove(keys, key) <==> k in keys && k != key
  {
    if keys != [] {
      RemoveMembers(keys[1..], key);
      assert forall k :: k in keys <==> k == keys[0] || k in keys[1..];
    }
  }

  lemma {:induction false} RemoveAbsent<K>(keys: seq<K>, key: K)
    requires key !in keys
    ensures Remove(keys, key) == keys
  {
    if keys != [] { RemoveAbsent(keys[1..], key); }
  }

  lemma {:induction false} RemovePresent<K>(keys: seq<K>, at: nat)
    requires Distinct(keys) && at < |keys|
    ensures Remove(keys, keys[at]) == keys[..at] + keys[at + 1..]
    decreases at
  {
    if at == 0 {
      assert keys[0] !in keys[1..];
      RemoveAbsent(keys[1..], keys[0]);
    } else {
      var rest := keys[1..];
      RemovePresent(rest, at - 1);
      assert [keys[0]] + (rest[..at - 1] + rest[at..]) == keys[..at] + keys[at + 1..];
    }
  }

  /** Touching keeps keys distinct and adds at most one. */
  lemma TouchEffect<K>(keys: seq<K>, key: K)
    requires Distinct(keys)
    ensures Distinct(Touch(keys, key)) && |Touch(keys, key)| == |keys| + (if key in keys then 0 else 1)
    ensures forall k :: k in Touch(keys, key) <==> k in keys || k == key
  {
    RemoveMembers(keys, key);
    if key in keys {
      var at :| 0 <= at < |keys| && keys[at] == key;
      RemovePresent(keys, at);
    } else {
      RemoveAbsent(keys, key);
    }
  }

  /** The most recent `n` of a touch order. */
  function Newest<K>(touched: seq<K>, n: nat): seq<K> { if |touched| <= n then touched else touched[|touched| - n..] }

  lemma NewestDropsFirst<K>(keys: seq<K>, n: nat)
    requires |keys| == n + 1
    ensures Newest(keys, n) == keys[1..]
  {
  }

  /** Two tails of one list, cut to the same length, agree. */
  lemma SameTail<K>(all: seq<K>, some: seq<K>, n: nat)
    requires IsNewest(some, all) && (|some| >= n || some == all)
    ensures Newest(some, n) == Newest(all, n)
  {
    if |some| > n && |some| < |all| {
      assert some[|some| - n..] == all[|all| - |some|..][|some| - n..] == all[|all| - n..];
    }
  }

  /** Keeping the newest `n` of what was kept is keeping the newest `n` of everything. */
  lemma NewestAfterTouch<K>(touched: seq<K>, n: nat, key: K)
    requires Distinct(touched) && n > 0
    ensures Newest(Touch(Newest(touched, n), key), n) == Newest(Touch(touched, key), n)
  {
    var kept := Newest(touched, n);
    TouchKeepsNewest(kept, touched, key);
    TouchEffect(kept, key);
    SameTail(Touch(touched, key), Touch(kept, key), n);
  }
}
