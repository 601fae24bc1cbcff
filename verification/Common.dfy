/** Types and arithmetic shared by every model. */
module Common {
  datatype Option<+T> = None | Some(value: T)

  datatype Result<+T, +E> = Ok(value: T) | Err(error: E)

  /** The largest integer JavaScript holds exactly. */
  const MAX_SAFE_INTEGER := 0x1F_FFFF_FFFF_FFFF

  function Min(a: nat, b: nat): nat { if a < b then a else b }

  lemma PrependConcat<T>(first: T, a: seq<T>, b: seq<T>)
    ensures ([first] + a) + b == [first] + (a + b)
  {
  }

  lemma Assoc<T>(a: seq<T>, b: seq<T>, c: seq<T>)
    ensures (a + b) + c == a + (b + c)
  {
  }

  /** How many leading elements satisfy `holds`. */
  function RunLength<T>(s: seq<T>, holds: T -> bool): (n: nat)
    ensures n <= |s| && (forall i :: 0 <= i < n ==> holds(s[i])) && (n < |s| ==> !holds(s[n]))
  {
    if s == [] || !holds(s[0]) then 0 else 1 + RunLength(s[1..], holds)
  }

  lemma RunLengthOf<T>(run: seq<T>, rest: seq<T>, holds: T -> bool)
    requires (forall i :: 0 <= i < |run| ==> holds(run[i])) && (rest != [] ==> !holds(rest[0]))
    ensures RunLength(run + rest, holds) == |run|
  {
    var whole := run + rest;
    assert forall i :: 0 <= i < |run| ==> whole[i] == run[i];
    assert rest != [] ==> whole[|run|] == rest[0];
  }

  /** Texts cut at the same place have the same parts. */
  lemma SameCut<T>(a: seq<T>, b: seq<T>, x: seq<T>, y: seq<T>)
    requires a + x == b + y && |a| == |b|
    ensures a == b && x == y
  {
    assert a == (a + x)[..|a|] && b == (b + y)[..|b|];
    assert x == (a + x)[|a|..] && y == (b + y)[|b|..];
  }
}
