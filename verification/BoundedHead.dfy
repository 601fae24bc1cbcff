/** The loaded 32-row head of a native collection. */
module BoundedHead {
  import opened Common

  const HEAD := 32

  function Head<T>(rows: seq<T>): seq<T> { if |rows| <= HEAD then rows else rows[..HEAD] }

  function Without<T>(rows: seq<T>, k: string, key: T -> string): seq<T> {
    if rows == [] then [] else if key(rows[0]) == k then Without(rows[1..], k, key)
      else [rows[0]] + Without(rows[1..], k, key)
  }

  function Splice<T>(rows: seq<T>, at: nat, value: T): seq<T>
    requires at <= |rows|
  {
    rows[..at] + [value] + rows[at..]
  }

  /** `place`, on the loaded head. */
  function Place<T>(rows: seq<T>, value: T, position: int, key: T -> string): Option<seq<T>> {
    if position < 0 || position > MAX_SAFE_INTEGER then None
    else if position >= HEAD then Some(rows)
    else
      var next := Without(rows, key(value), key);
      Some(Head(Splice(next, Min(position, |next|), value)))
  }

  /** The unbounded native placement the head is meant to show. */
  function PlaceFull<T>(rows: seq<T>, value: T, position: nat, key: T -> string): seq<T> {
    var next := Without(rows, key(value), key);
    Splice(next, Min(position, |next|), value)
  }

  predicate Distinct<T>(rows: seq<T>, key: T -> string) {
    forall i, j :: 0 <= i < j < |rows| ==> key(rows[i]) != key(rows[j])
  }

  predicate Has<T>(rows: seq<T>, k: string, key: T -> string) { exists i :: 0 <= i < |rows| && key(rows[i]) == k }

  lemma {:induction false} WithoutAbsent<T>(rows: seq<T>, k: string, key: T -> string)
    requires !Has(rows, k, key)
    ensures Without(rows, k, key) == rows
  {
    if rows != [] {
      assert forall i :: 0 <= i < |rows[1..]| ==> rows[1..][i] == rows[i + 1];
      WithoutAbsent(rows[1..], k, key);
    }
  }

  lemma WithoutFirst<T>(first: T, rest: seq<T>, k: string, key: T -> string)
    ensures Without([first] + rest, k, key) ==
            if key(first) == k then Without(rest, k, key) else [first] + Without(rest, k, key)
  {
    assert ([first] + rest)[1..] == rest;
  }

  lemma {:induction false} WithoutConcat<T>(a: seq<T>, b: seq<T>, k: string, key: T -> string)
    ensures Without(a + b, k, key) == Without(a, k, key) + Without(b, k, key)
  {
    if a == [] {
      assert a + b == b;
    } else {
      var first, rest := a[0], a[1..];
      assert a == [first] + rest;
      PrependConcat(first, rest, b);
      WithoutFirst(first, rest + b, k, key);
      WithoutFirst(first, rest, k, key);
      WithoutConcat(rest, b, k, key);
      PrependConcat(first, Without(rest, k, key), Without(b, k, key));
    }
  }

  /** In a duplicate-free list, removing a present key removes exactly its one row. */
  lemma {:induction false} WithoutPresent<T>(rows: seq<T>, at: nat, key: T -> string)
    requires Distinct(rows, key) && at < |rows|
    ensures Without(rows, key(rows[at]), key) == rows[..at] + rows[at + 1..]
    decreases at
  {
    if at == 0 {
      WithoutAbsent(rows[1..], key(rows[0]), key);
    } else {
      var rest := rows[1..];
      WithoutPresent(rest, at - 1, key);
      assert [rows[0]] + (rest[..at - 1] + rest[at..]) == rows[..at] + rows[at + 1..];
    }
  }

  lemma {:induction false} WithoutMembers<T>(rows: seq<T>, k: string, key: T -> string)
    ensures forall r :: r in Without(rows, k, key) <==> r in rows && key(r) != k
  {
    if rows != [] {
      WithoutMembers(rows[1..], k, key);
      assert forall r :: r in rows <==> r == rows[0] || r in rows[1..];
    }
  }

  /** Placement introduces only `value`, and leaves no other row under its key. */
  lemma PlaceMembers<T>(rows: seq<T>, value: T, position: int, key: T -> string)
    requires 0 <= position < HEAD
    ensures var next := Place(rows, value, position, key).value;
            && value in next && forall r :: r in next ==> r == value || (r in rows && key(r) != key(value))
  {
    var kept := Without(rows, key(value), key);
    var at := Min(position, |kept|);
    WithoutMembers(rows, key(value), key);
    assert Splice(kept, at, value)[at] == value;
    var next := Place(rows, value, position, key).value;
    assert next[at] == value;
    forall r | r in next ensures r == value || r in kept {
      var i :| 0 <= i < |next| && next[i] == r;
      assert Splice(kept, at, value)[i] == r;
    }
  }

  lemma HeadOfSplice<T>(rows: seq<T>, shown: seq<T>, position: nat, value: T)
    requires position < HEAD && shown <= rows && (shown == rows || |shown| >= HEAD - 1)
    ensures Head(Splice(shown, Min(position, |shown|), value)) == Head(Splice(rows, Min(position, |rows|), value))
  {
    var x, y := Splice(shown, Min(position, |shown|), value), Splice(rows, Min(position, |rows|), value);
    assert forall i :: 0 <= i < |Head(x)| ==> Head(x)[i] == Head(y)[i];
  }

  lemma HeadWithout<T>(rows: seq<T>, k: string, key: T -> string)
    requires Distinct(rows, key)
    ensures var shown, all := Without(Head(rows), k, key), Without(rows, k, key);
            shown <= all && (shown == all || |shown| >= HEAD - 1)
  {
    if |rows| > HEAD {
      assert rows == rows[..HEAD] + rows[HEAD..];
      WithoutConcat(rows[..HEAD], rows[HEAD..], k, key);
      if Has(rows[..HEAD], k, key) {
        var at :| 0 <= at < HEAD && key(rows[..HEAD][at]) == k;
        WithoutPresent(rows[..HEAD], at, key);
      } else {
        WithoutAbsent(rows[..HEAD], k, key);
      }
    }
  }

  /**
   * The placement is inside the head, or does not change it. The last case
   * speaks of the full list, which a client holding only a full head cannot see.
   */
  predicate Visible<T(==)>(rows: seq<T>, value: T, position: nat, key: T -> string) {
    || position < HEAD
    || (|rows| >= HEAD && !Has(rows[..HEAD], key(value), key))
    || (0 < |rows| <= HEAD && rows[|rows| - 1] == value)
  }

  /** A placement inside the head shows exactly the head of the full placement. */
  lemma PlaceRefinesInside<T>(rows: seq<T>, value: T, position: nat, key: T -> string)
    requires Distinct(rows, key) && position < HEAD
    ensures Place(Head(rows), value, position, key) == Some(Head(PlaceFull(rows, value, position, key)))
  {
    HeadWithout(rows, key(value), key);
    HeadOfSplice(Without(rows, key(value), key), Without(Head(rows), key(value), key), position, value);
  }

  lemma OutsideLong<T>(rows: seq<T>, value: T, position: nat, key: T -> string)
    requires Distinct(rows, key) && HEAD <= position && |rows| >= HEAD && !Has(rows[..HEAD], key(value), key)
    ensures Head(PlaceFull(rows, value, position, key)) == Head(rows)
  {
    var k := key(value);
    assert rows == rows[..HEAD] + rows[HEAD..];
    WithoutConcat(rows[..HEAD], rows[HEAD..], k, key);
    WithoutAbsent(rows[..HEAD], k, key);
    var full := PlaceFull(rows, value, position, key);
    assert forall i :: 0 <= i < HEAD ==> full[i] == rows[i];
  }

  lemma OutsideLast<T>(rows: seq<T>, value: T, position: nat, key: T -> string)
    requires Distinct(rows, key) && HEAD <= position && 0 < |rows| <= HEAD && rows[|rows| - 1] == value
    ensures Head(PlaceFull(rows, value, position, key)) == Head(rows)
  {
    WithoutPresent(rows, |rows| - 1, key);
    var kept := Without(rows, key(value), key);
    assert kept == rows[..|rows| - 1];
    assert PlaceFull(rows, value, position, key) == kept + [value] + [];
  }

  lemma OutsideConversely<T>(rows: seq<T>, value: T, position: nat, key: T -> string)
    requires Distinct(rows, key) && HEAD <= position && Head(PlaceFull(rows, value, position, key)) == Head(rows)
    ensures Visible(rows, value, position, key)
  {
    var kept := Without(rows, key(value), key);
    WithoutMembers(rows, key(value), key);
    if |kept| < HEAD {
      assert PlaceFull(rows, value, position, key) == kept + [value];
      KeptLength(rows, key(value), key);
      assert Head(rows)[|kept|] == value;
    } else {
      var full := PlaceFull(rows, value, position, key);
      KeptLength(rows, key(value), key);
      forall i | 0 <= i < HEAD ensures key(rows[i]) != key(value) {
        assert Head(rows)[i] == Head(full)[i] == kept[i];
        assert kept[i] in kept;
      }
    }
  }

  lemma {:induction false} KeptLength<T>(rows: seq<T>, k: string, key: T -> string)
    requires Distinct(rows, key)
    ensures |rows| - 1 <= |Without(rows, k, key)| <= |rows|
  {
    if Has(rows, k, key) {
      var at :| 0 <= at < |rows| && key(rows[at]) == k;
      WithoutPresent(rows, at, key);
    } else {
      WithoutAbsent(rows, k, key);
    }
  }

  /** At any valid position, the head stays faithful exactly when the placement is visible in this sense. */
  lemma PlaceIsFaithful<T>(rows: seq<T>, value: T, position: nat, key: T -> string)
    requires Distinct(rows, key) && position <= MAX_SAFE_INTEGER
    ensures Visible(rows, value, position, key) <==>
            Place(Head(rows), value, position, key) == Some(Head(PlaceFull(rows, value, position, key)))
  {
    if position < HEAD {
      PlaceRefinesInside(rows, value, position, key);
    } else {
      if Visible(rows, value, position, key) {
        if 0 < |rows| <= HEAD && rows[|rows| - 1] == value {
          OutsideLast(rows, value, position, key);
        } else {
          OutsideLong(rows, value, position, key);
        }
      }
      if Head(PlaceFull(rows, value, position, key)) == Head(rows) { OutsideConversely(rows, value, position, key); }
    }
  }

  lemma WithoutKeepsDistinct<T>(rows: seq<T>, k: string, key: T -> string)
    requires Distinct(rows, key)
    ensures Distinct(Without(rows, k, key), key)
  {
    if Has(rows, k, key) {
      var at :| 0 <= at < |rows| && key(rows[at]) == k;
      WithoutPresent(rows, at, key);
    } else {
      WithoutAbsent(rows, k, key);
    }
  }

  lemma {:induction false} WithoutLacks<T>(rows: seq<T>, k: string, key: T -> string)
    ensures !Has(Without(rows, k, key), k, key)
  {
    if rows != [] {
      WithoutLacks(rows[1..], k, key);
      var rest, kept := Without(rows[1..], k, key), Without(rows, k, key);
      if key(rows[0]) == k {
        assert kept == rest;
      } else {
        assert kept == [rows[0]] + rest;
        assert forall i :: 0 < i < |kept| ==> kept[i] == rest[i - 1];
      }
    }
  }

  lemma SpliceKeepsDistinct<T>(rows: seq<T>, at: nat, value: T, key: T -> string)
    requires Distinct(rows, key) && at <= |rows| && !Has(rows, key(value), key)
    ensures Distinct(Splice(rows, at, value), key)
  {
    var next := Splice(rows, at, value);
    assert forall i :: 0 <= i < |next| ==> next[i] == if i < at then rows[i] else if i == at then value
      else rows[i - 1];
  }

  /** Placement keeps the full list duplicate-free, so runs of placements stay within the statement above. */
  lemma PlaceKeepsDistinct<T>(rows: seq<T>, value: T, position: nat, key: T -> string)
    requires Distinct(rows, key)
    ensures Distinct(PlaceFull(rows, value, position, key), key)
  {
    var kept := Without(rows, key(value), key);
    WithoutLacks(rows, key(value), key);
    WithoutKeepsDistinct(rows, key(value), key);
    SpliceKeepsDistinct(kept, Min(position, |kept|), value, key);
  }

  datatype Placement<T> = Placement(value: T, position: nat)

  function PlaceAll<T>(rows: seq<T>, steps: seq<Placement<T>>, key: T -> string): Option<seq<T>>
    decreases |steps|
  {
    if steps == [] then Some(rows)
    else
      var next := Place(rows, steps[0].value, steps[0].position, key);
      if next.None? then None else PlaceAll(next.value, steps[1..], key)
  }

  function PlaceAllFull<T>(rows: seq<T>, steps: seq<Placement<T>>, key: T -> string): seq<T>
    decreases |steps|
  {
    if steps == [] then rows else PlaceAllFull(PlaceFull(rows, steps[0].value, steps[0].position, key), steps[1..], key)
  }

  /** Each placement is visible against the full list so far. */
  predicate VisibleRun<T(==)>(rows: seq<T>, steps: seq<Placement<T>>, key: T -> string)
    decreases |steps|
  {
    steps == [] ||
    (&& steps[0].position <= MAX_SAFE_INTEGER && Visible(rows, steps[0].value, steps[0].position, key)
     && VisibleRun(PlaceFull(rows, steps[0].value, steps[0].position, key), steps[1..], key))
  }

  /** Over any run of visible placements the bounded fold is the head of the unbounded one. */
  lemma {:induction false} RunRefinesFull<T>(rows: seq<T>, steps: seq<Placement<T>>, key: T -> string)
    requires Distinct(rows, key) && VisibleRun(rows, steps, key)
    ensures PlaceAll(Head(rows), steps, key) == Some(Head(PlaceAllFull(rows, steps, key)))
    decreases |steps|
  {
    if steps != [] {
      var value, position := steps[0].value, steps[0].position;
      PlaceIsFaithful(rows, value, position, key);
      PlaceKeepsDistinct(rows, value, position, key);
      RunRefinesFull(PlaceFull(rows, value, position, key), steps[1..], key);
    }
  }

  /** Placements below position 32 are always visible. */
  lemma {:induction false} InsideIsVisible<T>(rows: seq<T>, steps: seq<Placement<T>>, key: T -> string)
    requires forall i :: 0 <= i < |steps| ==> steps[i].position < HEAD
    ensures VisibleRun(rows, steps, key)
    decreases |steps|
  {
    if steps != [] { InsideIsVisible(PlaceFull(rows, steps[0].value, steps[0].position, key), steps[1..], key); }
  }

  /** A first row announced at position 32 is in the full list's head and is never loaded. */
  lemma BeyondHeadIsLost<T>(value: T, key: T -> string)
    ensures PlaceFull([], value, HEAD, key) == [value] && Place(Head([]), value, HEAD, key) == Some([])
  {
    assert Without([], key(value), key) == [];
  }
}
