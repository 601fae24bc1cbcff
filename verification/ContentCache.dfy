/** Loaded byte ranges: a least-recently-touched cache shared by interleaved reads. */
module ContentCache {
  import opened Common
  import opened ContentIdentity
  import opened Recency

  type Bytes = seq<bv8>

  const RANGE_LIMIT := 64
  const ACTIVE_LIMIT := 2
  const MAX_BYTES := 65536
  const MAX_ENCODED := 87384

  /** One authoritative chunk. `decoded` is what `atob` makes of the encoded text, if anything. */
  datatype Chunk = Chunk(content_ref: ContentRef, offset: int, end_offset: int, readable_end: int, complete: bool,
                         next_offset: Option<int>, encodedLength: nat, padding: nat, decoded: Option<Bytes>)

  datatype Range = Range(key: string, data: Bytes)

  /** The map's entries in insertion order, with the two counters. */
  datatype Cache = Cache(ranges: seq<Range>, bytes: int, active: nat)

  datatype Outcome = Loaded(bytes: Bytes, next: Option<nat>) | Pending | Refused

  function Total(ranges: seq<Range>): nat { if ranges == [] then 0 else |ranges[0].data| + Total(ranges[1..]) }

  function Find(ranges: seq<Range>, key: string): (found: Option<Bytes>)
    ensures found.Some? ==> Range(key, found.value) in ranges
    ensures found.None? ==> forall i :: 0 <= i < |ranges| ==> ranges[i].key != key
  {
    if ranges == [] then None else if ranges[0].key == key then Some(ranges[0].data) else Find(ranges[1..], key)
  }

  function Without(ranges: seq<Range>, key: string): seq<Range> {
    if ranges == [] then [] else if ranges[0].key == key then Without(ranges[1..], key)
      else [ranges[0]] + Without(ranges[1..], key)
  }

  /** Drop from the oldest end until both bounds hold. */
  function Evict(ranges: seq<Range>, bytes: int, byteLimit: nat): (seq<Range>, int) {
    if ranges != [] && (bytes > byteLimit || |ranges| > RANGE_LIMIT)
      then Evict(ranges[1..], bytes - |ranges[0].data|, byteLimit)
    else (ranges, bytes)
  }

  predicate ValidRequest(ref: ContentRef, offset: int) {
    ref.readable_end <= MAX_SAFE_INTEGER && 0 <= offset <= ref.readable_end
  }

  /** Every check made on a fetched chunk. */
  predicate Accepts(chunk: Chunk, ref: ContentRef, offset: int) {
    && chunk.encodedLength <= MAX_ENCODED && chunk.encodedLength % 4 == 0
    && chunk.encodedLength / 4 * 3 - chunk.padding <= MAX_BYTES
    && chunk.decoded.Some?
    && SameContentRef(chunk.content_ref, ref) && chunk.offset == offset && chunk.readable_end == ref.readable_end
    && |chunk.decoded.value| <= MAX_BYTES && chunk.end_offset == offset + |chunk.decoded.value|
      && chunk.end_offset <= ref.readable_end
    && !(offset < ref.readable_end && chunk.decoded.value == [])
    && chunk.complete == (chunk.end_offset == ref.readable_end)
    && chunk.next_offset == (if chunk.complete then None else Some(chunk.end_offset))
  }

  /** `read` up to the fetch: a hit moves the range to the newest end. */
  function Begin(c: Cache, ref: ContentRef, offset: int, current: bool): (Cache, Outcome) {
    if !ValidRequest(ref, offset) || !current then (c, Refused)
    else
      var key := RangeKey(ref, offset);
      var cached := Find(c.ranges, key);
      if cached.Some? then
        var end := offset + |cached.value|;
        (c.(ranges := Without(c.ranges, key) + [Range(key, cached.value)]),
         Loaded(cached.value, if end < ref.readable_end then Some(end) else None))
      else if c.active >= ACTIVE_LIMIT then (c, Refused)
      else (c.(active := c.active + 1), Pending)
  }

  function Install(c: Cache, key: string, data: Bytes, byteLimit: nat): Cache {
    var replaced := Find(c.ranges, key);
    var bytes := c.bytes - (if replaced.Some? then |replaced.value| else 0) + |data|;
    var kept := Evict(Without(c.ranges, key) + [Range(key, data)], bytes, byteLimit);
    c.(ranges := kept.0, bytes := kept.1)
  }

  /** `read` from the fetched chunk to the end. */
  function Complete(c: Cache, ref: ContentRef, offset: int, current: bool, chunk: Chunk,
        byteLimit: nat): (Cache, Outcome)
    requires c.active > 0 && ValidRequest(ref, offset)
  {
    if !current || !Accepts(chunk, ref, offset) then (c.(active := c.active - 1), Refused)
    else
      var data := chunk.decoded.value;
      (Install(c, RangeKey(ref, offset), data, byteLimit).(active := c.active - 1),
       Loaded(data, if chunk.next_offset.Some? then Some(offset + |data|) else None))
  }

  // ---- each answer exactly ----

  /** The padding and length of the base64 text of `n` bytes (section 4 of RFC 4648). */
  function Padding(n: nat): nat { if n % 3 == 0 then 0 else 3 - n % 3 }

  function EncodedLength(n: nat): nat { (n + Padding(n)) / 3 * 4 }

  /** What a server sends for `data` at `offset`. */
  function ChunkOf(ref: ContentRef, offset: int, data: Bytes): Chunk {
    var end := offset + |data|;
    var complete := end == ref.readable_end;
    Chunk(ref, offset, end, ref.readable_end, complete, if complete then None else Some(end),
          EncodedLength(|data|), Padding(|data|), Some(data))
  }

  /**
   * A chunk in proper base64 is accepted exactly when it is that of 1 to 65536 bytes at the offset
   * that do not pass the end, or of none at the end.
   */
  lemma AcceptsExactly(chunk: Chunk, ref: ContentRef, offset: int)
    requires chunk.decoded.Some? && ValidRequest(ref, offset)
    requires chunk.encodedLength == EncodedLength(|chunk.decoded.value|)
    requires chunk.padding == Padding(|chunk.decoded.value|)
    ensures Accepts(chunk, ref, offset) <==>
            && chunk == ChunkOf(ref, offset, chunk.decoded.value)
            && |chunk.decoded.value| <= 65536 && offset + |chunk.decoded.value| <= ref.readable_end
            && (chunk.decoded.value == [] ==> offset == ref.readable_end)
  {
    SameContentRefExact(chunk.content_ref, ref);
    EncodedBound(|chunk.decoded.value|);
  }

  lemma EncodedBound(n: nat)
    ensures EncodedLength(n) % 4 == 0 && EncodedLength(n) / 4 * 3 - Padding(n) == n
    ensures n <= 65536 ==> EncodedLength(n) <= 87384
  {
  }

  /** A chunk whose text is no base64 of bounded length, or does not decode, is refused. */
  lemma MalformedIsRefused(chunk: Chunk, ref: ContentRef, offset: int)
    requires chunk.decoded.None? || chunk.encodedLength > 87384 || chunk.encodedLength % 4 != 0
             || chunk.encodedLength / 4 * 3 - chunk.padding > 65536
    ensures !Accepts(chunk, ref, offset)
  {
  }

  /** How a read begins: refused, answered from the cache, or fetching, at most two at a time. */
  lemma BeginExactly(c: Cache, ref: ContentRef, offset: int, current: bool)
    ensures var (d, outcome) := Begin(c, ref, offset, current);
            var valid := ref.readable_end < 0x20_0000_0000_0000 && 0 <= offset <= ref.readable_end && current;
            var cached := Find(c.ranges, RangeKey(ref, if offset < 0 then 0 else offset));
            && (outcome == Refused <==> !valid || (cached.None? && c.active >= 2))
            && (outcome == Refused ==> d == c)
            && (outcome == Pending <==> valid && cached.None? && c.active < 2)
            && (outcome == Pending ==> d == Cache(c.ranges, c.bytes, c.active + 1))
            && (outcome.Loaded? ==>
                  && valid && cached == Some(outcome.bytes) && d.bytes == c.bytes && d.active == c.active
                  && d.ranges == Without(c.ranges, RangeKey(ref, offset))
                                 + [Range(RangeKey(ref, offset), outcome.bytes)])
  {
  }

  /** How it ends: the slot is free again, and an acceptable chunk is stored and returned with where to go on. */
  lemma CompleteExactly(c: Cache, ref: ContentRef, offset: int, current: bool, chunk: Chunk, byteLimit: nat)
    requires c.active > 0 && ValidRequest(ref, offset)
    ensures var (d, outcome) := Complete(c, ref, offset, current, chunk, byteLimit);
            && d.active == c.active - 1
            && (outcome.Loaded? <==> current && Accepts(chunk, ref, offset))
            && (outcome.Loaded? ==>
                  && chunk.decoded == Some(outcome.bytes)
                  && outcome.next == (if chunk.end_offset < ref.readable_end
                                      then Some(offset + |outcome.bytes|) else None)
                  && d.ranges == Install(c, RangeKey(ref, offset), outcome.bytes, byteLimit).ranges)
            && (!outcome.Loaded? ==> outcome == Refused && d.ranges == c.ranges && d.bytes == c.bytes)
  {
  }

  /** What was just stored, and fits, is found again. */
  lemma StoredIsFound(c: Cache, key: string, data: Bytes, byteLimit: nat)
    requires c.bytes == Total(c.ranges) && DistinctKeys(c.ranges) && |data| <= byteLimit
    ensures Find(Install(c, key, data, byteLimit).ranges, key) == Some(data)
  {
    var all := Without(c.ranges, key) + [Range(key, data)];
    var dropped := InstallIsSuffix(c, byteLimit, key, data);
    var d := Install(c, key, data, byteLimit);
    LastFits(Range(key, data), byteLimit);
    ReplacedEntry(c.ranges, key, data);
    var longest := EvictIsLongestSuffix(all, byteLimit);
    assert all[|all| - 1..] == [Range(key, data)];
    assert longest < |all|;
    LastIsFound(d.ranges, key, data);
  }

  lemma LastFits(r: Range, byteLimit: nat)
    requires |r.data| <= byteLimit
    ensures Fits([r], byteLimit)
  {
    assert [r][1..] == [];
  }

  lemma {:induction false} LastIsFound(ranges: seq<Range>, key: string, data: Bytes)
    requires DistinctKeys(ranges) && ranges != [] && ranges[|ranges| - 1] == Range(key, data)
    ensures Find(ranges, key) == Some(data)
    decreases |ranges|
  {
    if |ranges| > 1 {
      assert ranges[0].key != ranges[|ranges| - 1].key;
      assert forall i :: 0 <= i < |ranges| - 1 ==> ranges[1..][i] == ranges[i + 1];
      LastIsFound(ranges[1..], key, data);
    }
  }

  // ---- list facts ----

  predicate DistinctKeys(ranges: seq<Range>) { forall i, j :: 0 <= i < j < |ranges| ==> ranges[i].key != ranges[j].key }

  lemma {:induction false} WithoutMembers(ranges: seq<Range>, key: string)
    ensures forall r :: r in Without(ranges, key) <==> r in ranges && r.key != key
  {
    if ranges != [] {
      WithoutMembers(ranges[1..], key);
      assert forall r :: r in ranges <==> r == ranges[0] || r in ranges[1..];
    }
  }

  lemma {:induction false} WithoutSizes(ranges: seq<Range>, key: string)
    requires DistinctKeys(ranges)
    ensures var w := Without(ranges, key); var found := Find(ranges, key);
            && Total(w) == Total(ranges) - (if found.Some? then |found.value| else 0)
            && |w| == |ranges| - (if found.Some? then 1 else 0)
  {
    if ranges != [] {
      WithoutSizes(ranges[1..], key);
      if ranges[0].key == key {
        NoSuchKey(ranges[1..], key);
      } else {
        assert ([ranges[0]] + Without(ranges[1..], key))[1..] == Without(ranges[1..], key);
      }
    }
  }

  lemma {:induction false} WithoutDistinct(ranges: seq<Range>, key: string)
    requires DistinctKeys(ranges)
    ensures DistinctKeys(Without(ranges, key))
  {
    if ranges != [] {
      var rest := Without(ranges[1..], key);
      WithoutDistinct(ranges[1..], key);
      WithoutMembers(ranges[1..], key);
      forall i | 0 <= i < |rest| ensures rest[i].key != ranges[0].key {
        assert rest[i] in rest;
      }
    }
  }

  lemma WithoutEffect(ranges: seq<Range>, key: string)
    requires DistinctKeys(ranges)
    ensures var w := Without(ranges, key); var found := Find(ranges, key);
            && DistinctKeys(w) && (forall r :: r in w <==> r in ranges && r.key != key)
            && Total(w) == Total(ranges) - (if found.Some? then |found.value| else 0)
            && |w| == |ranges| - (if found.Some? then 1 else 0)
  {
    WithoutMembers(ranges, key);
    WithoutSizes(ranges, key);
    WithoutDistinct(ranges, key);
  }

  lemma {:induction false} NoSuchKey(ranges: seq<Range>, key: string)
    requires forall i :: 0 <= i < |ranges| ==> ranges[i].key != key
    ensures Without(ranges, key) == ranges && Find(ranges, key) == None
  {
    if ranges != [] { NoSuchKey(ranges[1..], key); }
  }

  lemma {:induction false} TotalAppend(ranges: seq<Range>, range: Range)
    ensures Total(ranges + [range]) == Total(ranges) + |range.data|
  {
    if ranges == [] {
      assert ranges + [range] == [range];
      assert Total([range]) == |range.data| + Total([range][1..]);
    } else {
      TotalAppend(ranges[1..], range);
      assert (ranges + [range])[1..] == ranges[1..] + [range];
    }
  }

  predicate Fits(ranges: seq<Range>, byteLimit: nat) { Total(ranges) <= byteLimit && |ranges| <= 64 }

  /** Eviction keeps the longest newest run that meets both bounds. */
  lemma {:induction false} EvictIsLongestSuffix(ranges: seq<Range>, byteLimit: nat) returns (dropped: nat)
    ensures dropped <= |ranges|
            && Evict(ranges, Total(ranges), byteLimit) == (ranges[dropped..], Total(ranges[dropped..]))
    ensures Fits(ranges[dropped..], byteLimit)
    ensures forall k :: 0 <= k < dropped ==> !Fits(ranges[k..], byteLimit)
  {
    if ranges != [] && !Fits(ranges, byteLimit) {
      var rest := EvictIsLongestSuffix(ranges[1..], byteLimit);
      dropped := rest + 1;
      assert ranges[1..][rest..] == ranges[dropped..];
      forall k | 0 <= k < dropped ensures !Fits(ranges[k..], byteLimit) {
        if k == 0 { assert ranges[0..] == ranges; } else { assert ranges[k..] == ranges[1..][k - 1..]; }
      }
    } else {
      dropped := 0;
      assert ranges[0..] == ranges;
    }
  }

  // ---- the interleaved system ----

  datatype Read = Read(ref: ContentRef, offset: int)

  /** `touched` lists the keys in order of last touch since the last clear, evicted ones included. */
  datatype System = System(cache: Cache, inFlight: seq<Read>, touched: seq<string>)

  datatype Step =
    | BeginRead(ref: ContentRef, offset: int, current: bool)
    | CompleteRead(which: nat, current: bool, chunk: Chunk)
    | FailRead(which: nat)
    | Clear

  /** There is such a read to settle; in every reachable state any index of the list is one. */
  predicate Waiting(s: System, which: nat) {
    which < |s.inFlight| && s.cache.active > 0 && ValidRequest(s.inFlight[which].ref, s.inFlight[which].offset)
  }

  /** One step of the shared cache, and what it answers its reader. */
  function Apply(s: System, step: Step, byteLimit: nat): (System, Outcome) {
    match step
    case BeginRead(ref, offset, current) =>
      var (cache, outcome) := Begin(s.cache, ref, offset, current);
      (System(cache, if outcome.Pending? then s.inFlight + [Read(ref, offset)] else s.inFlight,
              if outcome.Loaded? then Touch(s.touched, RangeKey(ref, offset)) else s.touched), outcome)
    case CompleteRead(which, current, chunk) =>
      if !Waiting(s, which) then (s, Refused)
      else
        var read := s.inFlight[which];
        var (cache, outcome) := Complete(s.cache, read.ref, read.offset, current, chunk, byteLimit);
        (System(cache, s.inFlight[..which] + s.inFlight[which + 1..],
                if outcome.Loaded? then Touch(s.touched, RangeKey(read.ref, read.offset)) else s.touched), outcome)
    case FailRead(which) =>
      if !Waiting(s, which) then (s, Refused)
      else (System(s.cache.(active := s.cache.active - 1), s.inFlight[..which] + s.inFlight[which + 1..], s.touched),
        Refused)
    case Clear => (System(s.cache.(ranges := [], bytes := 0), s.inFlight, []), Refused)
  }

  // ---- truth of the ranges ----

  /** `data` is a non-empty, bounded piece of the source at `offset`, or the empty end of it. */
  predicate Slice(content: Bytes, ref: ContentRef, offset: int, data: Bytes) {
    && |content| == ref.readable_end && 0 <= offset && offset + |data| <= ref.readable_end
    && data == content[offset..offset + |data|] && |data| <= MAX_BYTES
    && (offset < ref.readable_end ==> data != [])
  }

  /** A server chunk tells the truth about the reference and range it names. */
  predicate Honest(source: ContentRef -> Bytes, chunk: Chunk) {
    var content := source(chunk.content_ref);
    && |content| == chunk.content_ref.readable_end
    && (chunk.decoded.Some? && 0 <= chunk.offset && chunk.offset + |chunk.decoded.value| <= |content| ==>
          chunk.decoded.value == content[chunk.offset..chunk.offset + |chunk.decoded.value|])
  }

  predicate HonestStep(source: ContentRef -> Bytes, step: Step) { step.CompleteRead? ==> Honest(source, step.chunk) }

  ghost predicate TrueRange(source: ContentRef -> Bytes, range: Range) {
    forall ref, offset: nat :: range.key == RangeKey(ref, offset) ==> Slice(source(ref), ref, offset, range.data)
  }

  ghost predicate AllTrue(source: ContentRef -> Bytes, ranges: seq<Range>) {
    forall r :: r in ranges ==> TrueRange(source, r)
  }

  /** The text key names one range, so a true slice makes a true entry. */
  lemma SliceIsTrueRange(source: ContentRef -> Bytes, ref: ContentRef, offset: nat, data: Bytes)
    requires Slice(source(ref), ref, offset, data)
    ensures TrueRange(source, Range(RangeKey(ref, offset), data))
  {
    forall other, at: nat | RangeKey(ref, offset) == RangeKey(other, at) ensures Slice(source(other), other, at, data) {
      RangeKeyExact(ref, offset, other, at);
    }
  }

  lemma AcceptedIsSlice(source: ContentRef -> Bytes, chunk: Chunk, ref: ContentRef, offset: int)
    requires Honest(source, chunk) && Accepts(chunk, ref, offset) && ValidRequest(ref, offset)
    ensures Slice(source(ref), ref, offset, chunk.decoded.value)
  {
    SameContentRefExact(chunk.content_ref, ref);
  }

  // ---- recency ----

  function Keys(ranges: seq<Range>): (keys: seq<string>)
    ensures |keys| == |ranges|
  {
    if ranges == [] then [] else [ranges[0].key] + Keys(ranges[1..])
  }

  lemma {:induction false} KeysOfTouched(ranges: seq<Range>, key: string, data: Bytes)
    ensures Keys(Without(ranges, key) + [Range(key, data)]) == Touch(Keys(ranges), key)
  {
    if ranges == [] {
      assert Without(ranges, key) + [Range(key, data)] == [Range(key, data)];
    } else {
      KeysOfTouched(ranges[1..], key, data);
      var rest := Without(ranges[1..], key) + [Range(key, data)];
      if ranges[0].key == key {
        assert Without(ranges, key) + [Range(key, data)] == rest;
      } else {
        assert Without(ranges, key) + [Range(key, data)] == [ranges[0]] + rest;
        assert ([ranges[0]] + rest)[1..] == rest;
      }
    }
  }

  lemma {:induction false} KeysOfSuffix(ranges: seq<Range>, k: nat)
    requires k <= |ranges|
    ensures Keys(ranges[k..]) == Keys(ranges)[k..]
  {
    if k > 0 {
      KeysOfSuffix(ranges[1..], k - 1);
      assert ranges[1..][k - 1..] == ranges[k..];
    }
  }

  // ---- the invariant ----

  predicate CountersExact(s: System) {
    && s.cache.bytes == Total(s.cache.ranges)
    && s.cache.active == |s.inFlight| <= 2
    && (forall r :: r in s.inFlight ==> ValidRequest(r.ref, r.offset))
  }

  ghost predicate Inv(s: System, source: ContentRef -> Bytes, byteLimit: nat) {
    && CountersExact(s) && Fits(s.cache.ranges, byteLimit) && DistinctKeys(s.cache.ranges)
    && AllTrue(source, s.cache.ranges) && IsNewest(Keys(s.cache.ranges), s.touched)
  }

  lemma HitKeepsInv(s: System, source: ContentRef -> Bytes, byteLimit: nat, key: string, data: Bytes)
    requires Inv(s, source, byteLimit) && Find(s.cache.ranges, key) == Some(data)
    ensures Inv(System(s.cache.(ranges := Without(s.cache.ranges, key) + [Range(key, data)]), s.inFlight,
            Touch(s.touched, key)), source, byteLimit)
  {
    var ranges := s.cache.ranges;
    WithoutEffect(ranges, key);
    TotalAppend(Without(ranges, key), Range(key, data));
    KeysOfTouched(ranges, key, data);
    TouchKeepsNewest(Keys(ranges), s.touched, key);
  }

  /** Moving or inserting one entry at the newest end. */
  lemma ReplacedEntry(ranges: seq<Range>, key: string, data: Bytes)
    requires DistinctKeys(ranges)
    ensures var all := Without(ranges, key) + [Range(key, data)]; var found := Find(ranges, key);
            && DistinctKeys(all)
            && Total(all) == Total(ranges) - (if found.Some? then |found.value| else 0) + |data|
  {
    var kept := Without(ranges, key);
    WithoutEffect(ranges, key);
    TotalAppend(kept, Range(key, data));
    assert forall i :: 0 <= i < |kept| ==> kept[i] in kept;
  }

  lemma InstallIsSuffix(c: Cache, byteLimit: nat, key: string, data: Bytes) returns (dropped: nat)
    requires c.bytes == Total(c.ranges) && DistinctKeys(c.ranges)
    ensures var all := Without(c.ranges, key) + [Range(key, data)]; var d := Install(c, key, data, byteLimit);
            && dropped <= |all| && d.ranges == all[dropped..] && d.bytes == Total(d.ranges)
            && Fits(d.ranges, byteLimit) && DistinctKeys(d.ranges)
  {
    var all := Without(c.ranges, key) + [Range(key, data)];
    ReplacedEntry(c.ranges, key, data);
    dropped := EvictIsLongestSuffix(all, byteLimit);
    assert forall i :: 0 <= i < |all[dropped..]| ==> all[dropped..][i] == all[dropped + i];
  }

  lemma InstallKeepsTruth(c: Cache, source: ContentRef -> Bytes, byteLimit: nat, key: string, data: Bytes)
    requires c.bytes == Total(c.ranges) && DistinctKeys(c.ranges) && AllTrue(source, c.ranges)
             && TrueRange(source, Range(key, data))
    ensures AllTrue(source, Install(c, key, data, byteLimit).ranges)
  {
    var all := Without(c.ranges, key) + [Range(key, data)];
    var dropped := InstallIsSuffix(c, byteLimit, key, data);
    WithoutEffect(c.ranges, key);
    forall r | r in all[dropped..] ensures TrueRange(source, r) {
      assert r in all;
    }
  }

  lemma InstallKeepsNewest(c: Cache, byteLimit: nat, key: string, data: Bytes, touched: seq<string>)
    requires c.bytes == Total(c.ranges) && DistinctKeys(c.ranges) && IsNewest(Keys(c.ranges), touched)
    ensures IsNewest(Keys(Install(c, key, data, byteLimit).ranges), Touch(touched, key))
  {
    var all := Without(c.ranges, key) + [Range(key, data)];
    var dropped := InstallIsSuffix(c, byteLimit, key, data);
    KeysOfTouched(c.ranges, key, data);
    TouchKeepsNewest(Keys(c.ranges), touched, key);
    KeysOfSuffix(all, dropped);
    var keys := Touch(touched, key);
    assert keys[|keys| - |all|..][dropped..] == keys[|keys| - (|all| - dropped)..];
  }

  /** An accepted chunk is installed with the bounds, the order and the truth of every range kept. */
  lemma InstalledIsTrue(s: System, read: Read, chunk: Chunk, source: ContentRef -> Bytes, byteLimit: nat)
    requires Inv(s, source, byteLimit) && Honest(source, chunk)
    requires ValidRequest(read.ref, read.offset) && Accepts(chunk, read.ref, read.offset)
    ensures var key := RangeKey(read.ref, read.offset);
            var cache := Install(s.cache, key, chunk.decoded.value, byteLimit);
            && cache.bytes == Total(cache.ranges) && cache.active == s.cache.active
            && Fits(cache.ranges, byteLimit) && DistinctKeys(cache.ranges)
            && AllTrue(source, cache.ranges) && IsNewest(Keys(cache.ranges), Touch(s.touched, key))
  {
    AcceptedIsSlice(source, chunk, read.ref, read.offset);
    SliceIsTrueRange(source, read.ref, read.offset, chunk.decoded.value);
    var key := RangeKey(read.ref, read.offset);
    var _ := InstallIsSuffix(s.cache, byteLimit, key, chunk.decoded.value);
    InstallKeepsTruth(s.cache, source, byteLimit, key, chunk.decoded.value);
    InstallKeepsNewest(s.cache, byteLimit, key, chunk.decoded.value, s.touched);
  }

  lemma BeginKeepsInv(s: System, ref: ContentRef, offset: int, current: bool, source: ContentRef -> Bytes,
        byteLimit: nat)
    requires Inv(s, source, byteLimit)
    ensures Inv(Apply(s, BeginRead(ref, offset, current), byteLimit).0, source, byteLimit)
  {
    if ValidRequest(ref, offset) && current {
      var cached := Find(s.cache.ranges, RangeKey(ref, offset));
      if cached.Some? { HitKeepsInv(s, source, byteLimit, RangeKey(ref, offset), cached.value); }
    }
  }

  lemma CompleteKeepsInv(s: System, which: nat, current: bool, chunk: Chunk, source: ContentRef -> Bytes,
        byteLimit: nat)
    requires Inv(s, source, byteLimit) && Honest(source, chunk)
    ensures Inv(Apply(s, CompleteRead(which, current, chunk), byteLimit).0, source, byteLimit)
  {
    if which < |s.inFlight| {
      var read := s.inFlight[which];
      if current && Accepts(chunk, read.ref, read.offset) { InstalledIsTrue(s, read, chunk, source, byteLimit); }
    }
  }

  /** Whatever the interleaving, each step keeps the counters, both bounds, recency order and truth. */
  lemma StepKeepsInv(s: System, step: Step, source: ContentRef -> Bytes, byteLimit: nat)
    requires Inv(s, source, byteLimit) && HonestStep(source, step)
    ensures Inv(Apply(s, step, byteLimit).0, source, byteLimit)
  {
    match step
    case BeginRead(ref, offset, current) => BeginKeepsInv(s, ref, offset, current, source, byteLimit);
    case CompleteRead(which, current, chunk) => CompleteKeepsInv(s, which, current, chunk, source, byteLimit);
    case FailRead(which) =>
    case Clear =>
  }

  /** The cache after any schedule of begins, completions, failures and clears. */
  function Execute(s: System, steps: seq<Step>, byteLimit: nat): System
    decreases |steps|
  {
    if steps == [] then s else Execute(Apply(s, steps[0], byteLimit).0, steps[1..], byteLimit)
  }

  predicate HonestSteps(source: ContentRef -> Bytes, steps: seq<Step>) {
    forall i :: 0 <= i < |steps| ==> HonestStep(source, steps[i])
  }

  const EMPTY := System(Cache([], 0, 0), [], [])

  lemma {:induction false} RunKeepsInv(s: System, steps: seq<Step>, source: ContentRef -> Bytes, byteLimit: nat)
    requires Inv(s, source, byteLimit) && HonestSteps(source, steps)
    ensures Inv(Execute(s, steps, byteLimit), source, byteLimit)
    decreases |steps|
  {
    if steps != [] {
      StepKeepsInv(s, steps[0], source, byteLimit);
      RunKeepsInv(Apply(s, steps[0], byteLimit).0, steps[1..], source, byteLimit);
    }
  }

  /** From empty, every interleaving with honest chunks, whatever its steps. */
  lemma EveryRunIsSafe(steps: seq<Step>, source: ContentRef -> Bytes, byteLimit: nat)
    requires HonestSteps(source, steps)
    ensures Inv(Execute(EMPTY, steps, byteLimit), source, byteLimit)
  {
    RunKeepsInv(EMPTY, steps, source, byteLimit);
  }

  /** What a reader is promised: its own slice, and where to continue, exactly while some remains. */
  ghost predicate Truthful(source: ContentRef -> Bytes, ref: ContentRef, offset: int, outcome: Outcome) {
    outcome.Loaded? ==>
      && Slice(source(ref), ref, offset, outcome.bytes)
      && outcome.next == if offset + |outcome.bytes| < ref.readable_end then Some(offset + |outcome.bytes|) else None
  }

  /** In every reachable state a hit answers truthfully. */
  lemma HitIsTruthful(s: System, source: ContentRef -> Bytes, byteLimit: nat, ref: ContentRef, offset: int,
        current: bool)
    requires Inv(s, source, byteLimit)
    ensures Truthful(source, ref, offset, Begin(s.cache, ref, offset, current).1)
  {
    if ValidRequest(ref, offset) && current {
      var cached := Find(s.cache.ranges, RangeKey(ref, offset));
      if cached.Some? { assert TrueRange(source, Range(RangeKey(ref, offset), cached.value)); }
    }
  }

  /** So does a completed fetch. */
  lemma CompletionIsTruthful(c: Cache, source: ContentRef -> Bytes, byteLimit: nat, ref: ContentRef, offset: int,
        current: bool, chunk: Chunk)
    requires c.active > 0 && ValidRequest(ref, offset) && Honest(source, chunk)
    ensures Truthful(source, ref, offset, Complete(c, ref, offset, current, chunk, byteLimit).1)
  {
    if current && Accepts(chunk, ref, offset) { AcceptedIsSlice(source, chunk, ref, offset); }
  }

  /** What happens around one read: others' steps before it and during its fetch, and what the fetch brings. */
  datatype Turn = Turn(before: seq<Step>, current: bool, meanwhile: seq<Step>, stillCurrent: bool, chunk: Option<Chunk>)

  predicate HonestTurn(source: ContentRef -> Bytes, turn: Turn) {
    && HonestSteps(source, turn.before) && HonestSteps(source, turn.meanwhile)
    && (turn.chunk.Some? ==> Honest(source, turn.chunk.value))
  }

  function IndexOf(inFlight: seq<Read>, read: Read): (at: nat)
    ensures at <= |inFlight| && (at < |inFlight| ==> inFlight[at] == read)
  {
    if inFlight == [] then 0 else if inFlight[0] == read then 0 else 1 + IndexOf(inFlight[1..], read)
  }

  lemma {:induction false} IndexFound(inFlight: seq<Read>, read: Read)
    ensures IndexOf(inFlight, read) < |inFlight| <==> read in inFlight
    ensures forall i :: 0 <= i < IndexOf(inFlight, read) ==> inFlight[i] != read
  {
    if inFlight != [] { IndexFound(inFlight[1..], read); }
  }

  /** A valid read with capacity, left alone, whose fetch brings an acceptable chunk. */
  predicate Served(start: System, ref: ContentRef, offset: nat, turn: Turn) {
    && turn.before == turn.meanwhile == [] && turn.current && turn.stillCurrent
    && ValidRequest(ref, offset) && start.cache.active < 2 && Read(ref, offset) !in start.inFlight
    && turn.chunk.Some? && Accepts(turn.chunk.value, ref, offset)
  }

  /** One `read` of the shared cache amid other readers. */
  method ReadOnce(start: System, ref: ContentRef, offset: nat, turn: Turn, byteLimit: nat,
        ghost source: ContentRef -> Bytes)
      returns (s: System, outcome: Outcome)
    requires Inv(start, source, byteLimit) && HonestTurn(source, turn)
    ensures Inv(s, source, byteLimit) && !outcome.Pending? && Truthful(source, ref, offset, outcome)
    ensures Served(start, ref, offset, turn) ==> outcome.Loaded? && s.inFlight == start.inFlight
  {
    s := Execute(start, turn.before, byteLimit);
    RunKeepsInv(start, turn.before, source, byteLimit);
    HitIsTruthful(s, source, byteLimit, ref, offset, turn.current);
    StepKeepsInv(s, BeginRead(ref, offset, turn.current), source, byteLimit);
    var begun := Apply(s, BeginRead(ref, offset, turn.current), byteLimit);
    s, outcome := begun.0, begun.1;
    if !outcome.Pending? { return; }
    RunKeepsInv(s, turn.meanwhile, source, byteLimit);
    s := Execute(s, turn.meanwhile, byteLimit);
    s, outcome := Settle(s, ref, offset, turn, byteLimit, source);
  }

  /** The rest of a read whose fetch has come back, or failed. */
  method Settle(before: System, ref: ContentRef, offset: nat, turn: Turn, byteLimit: nat,
        ghost source: ContentRef -> Bytes)
      returns (s: System, outcome: Outcome)
    requires Inv(before, source, byteLimit) && HonestTurn(source, turn)
    ensures Inv(s, source, byteLimit) && !outcome.Pending? && Truthful(source, ref, offset, outcome)
    ensures Read(ref, offset) in before.inFlight && turn.stillCurrent ==>
              turn.chunk.Some? && Accepts(turn.chunk.value, ref, offset) ==> outcome.Loaded?
    ensures forall others :: Read(ref, offset) !in others && before.inFlight == others + [Read(ref, offset)] ==>
              s.inFlight == others
  {
    IndexFound(before.inFlight, Read(ref, offset));
    var which := IndexOf(before.inFlight, Read(ref, offset));
    if which == |before.inFlight| { return before, Refused; }
    var step := if turn.chunk.None? then FailRead(which) else CompleteRead(which, turn.stillCurrent, turn.chunk.value);
    StepKeepsInv(before, step, source, byteLimit);
    assert Waiting(before, which);
    if turn.chunk.Some? {
      CompletionIsTruthful(before.cache, source, byteLimit, ref, offset, turn.stillCurrent, turn.chunk.value);
    }
    var settled := Apply(before, step, byteLimit);
    s, outcome := settled.0, settled.1;
  }

  /** `readContentText`: follow `next` from 0 through the shared cache, whatever other readers do to it meanwhile. */
  method ReadContent(start: System, ref: ContentRef, turns: nat -> Turn, byteLimit: nat,
        ghost source: ContentRef -> Bytes)
      returns (s: System, result: Option<Bytes>, last: Outcome, rounds: nat)
    requires Inv(start, source, byteLimit) && forall k: nat :: HonestTurn(source, turns(k))
    ensures Inv(s, source, byteLimit) && 0 < rounds <= ref.readable_end + 1
    ensures result.Some? <==> last.Loaded?
    ensures result.Some? ==> result.value == source(ref) && |source(ref)| == ref.readable_end
  {
    var offset, content := 0, [];
    s, rounds := start, 0;
    while true
      invariant Inv(s, source, byteLimit)
      invariant 0 <= offset == |content| <= ref.readable_end && rounds <= offset
      invariant rounds == 0 ==> offset == 0
      invariant rounds > 0 ==>
                  |source(ref)| == ref.readable_end && content == source(ref)[..offset] && offset < ref.readable_end
      decreases ref.readable_end - offset
    {
      s, last := ReadOnce(s, ref, offset, turns(rounds), byteLimit, source);
      rounds := rounds + 1;
      if !last.Loaded? { return s, None, last, rounds; }
      assert content == source(ref)[..offset];
      content := content + last.bytes;
      assert content == source(ref)[..offset + |last.bytes|];
      if last.next.None? { return s, Some(content), last, rounds; }
      offset := last.next.value;
    }
  }

  class ContentCache {
    var bytes: int
    var active: nat
    var ranges: seq<Range>
    const byteLimit: nat

    function View(): Cache
      reads this
    {
      Cache(ranges, bytes, active)
    }

    constructor (byteLimit: nat)
      ensures View() == EMPTY.cache && this.byteLimit == byteLimit
    {
      bytes, active, ranges := 0, 0, [];
      this.byteLimit := byteLimit;
    }

    method BeginRead(ref: ContentRef, offset: int, current: bool) returns (outcome: Outcome)
      modifies this
      ensures (View(), outcome) == Begin(old(View()), ref, offset, current)
    {
      if !ValidRequest(ref, offset) || !current { return Refused; }
      var key := RangeKey(ref, offset);
      var cached := Find(ranges, key);
      if cached.Some? {
        ranges := Without(ranges, key);
        ranges := ranges + [Range(key, cached.value)];
        var end := offset + |cached.value|;
        return Loaded(cached.value, if end < ref.readable_end then Some(end) else None);
      }
      if active >= ACTIVE_LIMIT { return Refused; }
      active := active + 1;
      return Pending;
    }

    method CompleteRead(ref: ContentRef, offset: int, current: bool, chunk: Chunk) returns (outcome: Outcome)
      requires active > 0 && ValidRequest(ref, offset) && bytes == Total(ranges) && DistinctKeys(ranges)
      modifies this
      ensures (View(), outcome) == Complete(old(View()), ref, offset, current, chunk, byteLimit)
    {
      active := active - 1;
      if !current || !Accepts(chunk, ref, offset) { return Refused; }
      var data := chunk.decoded.value;
      Store(RangeKey(ref, offset), data);
      return Loaded(data, if chunk.next_offset.Some? then Some(offset + |data|) else None);
    }

    /** Replace one entry and evict from the oldest end. */
    method Store(key: string, data: Bytes)
      requires bytes == Total(ranges) && DistinctKeys(ranges)
      modifies this
      ensures View() == Install(old(View()), key, data, byteLimit)
    {
      WithoutEffect(ranges, key);
      var replaced := Find(ranges, key);
      bytes := bytes - (if replaced.Some? then |replaced.value| else 0);
      ranges := Without(ranges, key);
      TotalAppend(ranges, Range(key, data));
      ranges := ranges + [Range(key, data)];
      bytes := bytes + |data|;
      EvictOldest();
    }

    method EvictOldest()
      requires bytes == Total(ranges)
      modifies this
      ensures (ranges, bytes) == Evict(old(ranges), old(bytes), byteLimit) && active == old(active)
    {
      while bytes > byteLimit || |ranges| > RANGE_LIMIT
        invariant bytes == Total(ranges) && active == old(active)
        invariant Evict(ranges, bytes, byteLimit) == Evict(old(ranges), old(bytes), byteLimit)
        decreases |ranges|
      {
        bytes := bytes - |ranges[0].data|;
        ranges := ranges[1..];
      }
    }

    method Clear()
      modifies this
      ensures View() == old(View()).(ranges := [], bytes := 0)
    {
      ranges := [];
      bytes := 0;
    }
  }
}
