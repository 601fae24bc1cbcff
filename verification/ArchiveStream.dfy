/** The bounded byte channel between the ZIP producer and the archive's consumer. */
module ArchiveStream {
  import opened Common

  type Bytes = seq<bv8>

  const CAPACITY := 2
  const CHUNK_BYTES := 65536

  datatype Item = Data(bytes: Bytes) | Complete | Failed

  /** What one `recv` returned: some bytes, end of file, or an error. */
  datatype Signal = Chunk(bytes: Bytes) | End | Error

  /** Where the producer task stands. `rest` is what the current request still has to offer. */
  datatype Phase =
    | Idle
    | Offering(rest: Bytes)
    | Sending(chunk: Bytes, rest: Bytes)
    | Finishing(item: Item)
    | Gone

  /**
   * `asked` is every byte the ZIP layer requested to write, `produced` those
   * accepted into the channel, `failed` that some request was refused and
   * `finished` that the ZIP layer returned success.
   */
  datatype State = State(phase: Phase, queue: seq<Item>, cancelled: bool, closed: bool, complete: bool,
                         asked: Bytes, produced: Bytes, failed: bool, finished: bool, seen: seq<Signal>)

  const INITIAL := State(Idle, [], false, false, false, [], [], false, false, [])

  /** `GiveUp` is a caller that propagates an interrupted write; `write_all` instead calls `write` again. */
  datatype Step =
    | Request(bytes: Bytes) | Write | GiveUp | Send | Flush | Finish(ok: bool) | SendFinal | Vanish
    | Cancel | Close | Recv

  predicate HasRoom(s: State) { |s.queue| < CAPACITY }

  /** A step that blocks, or belongs to another phase, is not enabled. */
  predicate Enabled(s: State, step: Step) {
    match step
    case Request(_) => s.phase.Idle?
    case Write => s.phase.Offering?
    case GiveUp => s.phase.Offering? && s.cancelled
    case Send => s.phase.Sending? && (s.closed || HasRoom(s))
    case Flush => s.phase.Idle?
    case Finish(_) => s.phase.Idle?
    case SendFinal => s.phase.Finishing? && (s.closed || HasRoom(s))
    case Vanish => !s.phase.Gone?
    case Cancel => true
    case Close => s.cancelled
    case Recv => !s.cancelled && (s.complete || s.queue != [] || s.phase.Gone?)
  }

  /** Where a request stands with `rest` still to offer: `write_all` returns once nothing is left. */
  function Offer(rest: Bytes): Phase { if rest == [] then Idle else Offering(rest) }

  /** `ChannelWriter::write`, up to the point where it waits for capacity; once cancelled it has no effect. */
  function BeginWrite(s: State): State
    requires s.phase.Offering?
  {
    if s.cancelled then s
    else
      var size := Min(|s.phase.rest|, CHUNK_BYTES);
      if size == 0 then s.(phase := Idle)
      else s.(phase := Sending(s.phase.rest[..size], s.phase.rest[size..]))
  }

  function CompleteSend(s: State): State
    requires s.phase.Sending?
  {
    if s.closed then s.(phase := Idle, failed := true)
    else s.(phase := Offer(s.phase.rest), queue := s.queue + [Data(s.phase.chunk)],
      produced := s.produced + s.phase.chunk)
  }

  /** `SessionArchiveStream::recv`. */
  function Receive(s: State): State {
    if s.complete then s.(seen := s.seen + [End])
    else if s.queue == [] then s.(complete := true, seen := s.seen + [Error])
    else
      match s.queue[0]
      case Data(bytes) => s.(queue := s.queue[1..], seen := s.seen + [Chunk(bytes)])
      case Complete => s.(queue := s.queue[1..], complete := true, seen := s.seen + [End])
      case Failed => s.(queue := s.queue[1..], complete := true, seen := s.seen + [Error])
  }

  function Apply(s: State, step: Step): State {
    if !Enabled(s, step) then s
    else
      match step
      case Request(bytes) => s.(phase := Offer(bytes), asked := s.asked + bytes)
      case Write => BeginWrite(s)
      case GiveUp => s.(phase := Idle, failed := true)
      case Send => CompleteSend(s)
      case Flush => if s.cancelled then s.(failed := true) else s
      case Finish(ok) =>
        // `write_zip` propagates a refused write, so it cannot then succeed.
        if ok && !s.failed then s.(phase := Finishing(Complete), finished := true) else s.(phase := Finishing(Failed))
      case SendFinal => if s.closed then s.(phase := Gone) else s.(phase := Gone, queue := s.queue + [s.phase.item])
      case Vanish => s.(phase := Gone)
      case Cancel => s.(cancelled := true)
      case Close => s.(closed := true)
      case Recv => Receive(s)
  }

  /** The state after any schedule of producer, consumer and cancellation steps. */
  function Execute(s: State, steps: seq<Step>): State
    decreases |steps|
  {
    if steps == [] then s else Apply(Execute(s, steps[..|steps| - 1]), steps[|steps| - 1])
  }

  // ---- what is in the channel ----

  function QueuedBytes(queue: seq<Item>): Bytes {
    if queue == [] then []
    else if queue[0].Data? then queue[0].bytes + QueuedBytes(queue[1..]) else QueuedBytes(queue[1..])
  }

  function SeenBytes(seen: seq<Signal>): Bytes {
    if seen == [] then []
    else SeenBytes(seen[..|seen| - 1]) + (if seen[|seen| - 1].Chunk? then seen[|seen| - 1].bytes else [])
  }

  lemma Regroup(a: Bytes, b: Bytes, c: Bytes)
    ensures a + (b + c) == (a + b) + c
  {
  }

  lemma {:induction false} QueuedAppend(queue: seq<Item>, item: Item)
    ensures QueuedBytes(queue + [item]) == QueuedBytes(queue) + QueuedBytes([item])
  {
    if queue == [] {
      assert queue + [item] == [item];
    } else {
      QueuedAppend(queue[1..], item);
      assert (queue + [item])[1..] == queue[1..] + [item];
      if queue[0].Data? {
        Regroup(queue[0].bytes, QueuedBytes(queue[1..]), QueuedBytes([item]));
      }
    }
  }

  predicate FairSize(bytes: Bytes) { 0 < |bytes| <= CHUNK_BYTES }

  predicate AllChunks(seen: seq<Signal>) { forall i :: 0 <= i < |seen| ==> seen[i].Chunk? && FairSize(seen[i].bytes) }

  function Outstanding(phase: Phase): Bytes {
    match phase
    case Offering(rest) => rest
    case Sending(chunk, rest) => chunk + rest
    case _ => []
  }

  /** Chunks first, then one verdict, then end of file for ever. */
  predicate Verdict(seen: seq<Signal>, at: nat) {
    && at < |seen| && !seen[at].Chunk?
    && (forall i :: 0 <= i < at ==> seen[i].Chunk? && FairSize(seen[i].bytes))
    && forall i :: at < i < |seen| ==> seen[i].End?
  }

  predicate QueueInv(s: State) {
    && |s.queue| <= CAPACITY
    && (forall i :: 0 <= i < |s.queue| ==> s.queue[i].Data? ==> FairSize(s.queue[i].bytes))
    && (forall i :: 0 <= i < |s.queue| - 1 ==> s.queue[i].Data?)
    && (s.queue != [] && !s.queue[|s.queue| - 1].Data? ==> s.phase.Gone?)
    && (forall i :: 0 <= i < |s.queue| && s.queue[i].Complete? ==> s.finished)
  }

  predicate ProducerInv(s: State) {
    && (s.phase.Offering? ==> s.phase.rest != [])
    && (s.phase.Sending? ==> FairSize(s.phase.chunk))
    && (s.phase.Finishing? ==> !s.phase.item.Data? && (s.phase.item.Complete? ==> s.finished))
    && (s.finished ==> s.phase.Finishing? || s.phase.Gone?)
    && (s.finished ==> !s.failed && s.asked == s.produced)
    && (!s.failed && !s.phase.Gone? ==> s.asked == s.produced + Outstanding(s.phase))
  }

  ghost predicate ConsumerInv(s: State) {
    && SeenBytes(s.seen) + QueuedBytes(s.queue) == s.produced
    && (!s.complete ==> AllChunks(s.seen))
    && (s.complete ==> s.queue == [] && s.phase.Gone?
                       && exists at: nat :: Verdict(s.seen, at) && (s.seen[at].End? ==> s.finished))
  }

  ghost predicate Inv(s: State) { QueueInv(s) && ProducerInv(s) && ConsumerInv(s) }

  lemma QueueAfterSend(s: State)
    requires QueueInv(s) && ConsumerInv(s) && s.phase.Sending? && FairSize(s.phase.chunk) && HasRoom(s) && !s.complete
    ensures !s.closed ==> QueueInv(CompleteSend(s)) && ConsumerInv(CompleteSend(s))
  {
    QueuedAppend(s.queue, Data(s.phase.chunk));
    assert [Data(s.phase.chunk)][1..] == [];
    assert QueuedBytes([Data(s.phase.chunk)]) == s.phase.chunk + QueuedBytes([]);
    Regroup(SeenBytes(s.seen), QueuedBytes(s.queue), s.phase.chunk);
  }

  lemma SendKeepsInv(s: State)
    requires Inv(s) && Enabled(s, Send)
    ensures Inv(CompleteSend(s))
  {
    if !s.closed {
      QueueAfterSend(s);
      Regroup(s.produced, s.phase.chunk, s.phase.rest);
    }
  }

  lemma FinalKeepsInv(s: State)
    requires Inv(s) && Enabled(s, SendFinal)
    ensures Inv(Apply(s, SendFinal))
  {
    QueuedAppend(s.queue, s.phase.item);
    assert QueuedBytes([s.phase.item]) == [];
  }

  lemma SeenAppend(seen: seq<Signal>, signal: Signal)
    ensures SeenBytes(seen + [signal]) == SeenBytes(seen) + (if signal.Chunk? then signal.bytes else [])
  {
    assert (seen + [signal])[..|seen|] == seen;
  }

  lemma RecvAfterVerdict(s: State)
    requires Inv(s) && s.complete
    ensures Inv(Receive(s))
  {
    SeenAppend(s.seen, End);
    var at: nat :| Verdict(s.seen, at) && (s.seen[at].End? ==> s.finished);
    assert Verdict(s.seen + [End], at);
  }

  /** A received chunk moves from the queue to what was seen. */
  lemma ChunkMoves(seen: seq<Signal>, queue: seq<Item>)
    requires queue != [] && queue[0].Data?
    ensures SeenBytes(seen + [Chunk(queue[0].bytes)]) + QueuedBytes(queue[1..]) == SeenBytes(seen) + QueuedBytes(queue)
  {
    SeenAppend(seen, Chunk(queue[0].bytes));
    Regroup(SeenBytes(seen), queue[0].bytes, QueuedBytes(queue[1..]));
  }

  lemma RecvChunk(s: State)
    requires Inv(s) && !s.complete && s.queue != [] && s.queue[0].Data?
    ensures Inv(Receive(s))
  {
    ChunkMoves(s.seen, s.queue);
  }

  /** Reaching the verdict: nothing is left behind in the channel. */
  lemma VerdictKeepsInv(s: State, signal: Signal)
    requires Inv(s) && !s.complete && s.phase.Gone? && QueuedBytes(s.queue) == [] && !signal.Chunk?
             && (signal.End? ==> s.finished)
    ensures Inv(s.(queue := [], complete := true, seen := s.seen + [signal]))
  {
    var next := s.(queue := [], complete := true, seen := s.seen + [signal]);
    SeenAppend(s.seen, signal);
    assert QueuedBytes(next.queue) == [];
    assert Verdict(next.seen, |s.seen|) && next.seen[|s.seen|] == signal;
  }

  lemma RecvVerdict(s: State)
    requires Inv(s) && !s.complete && (if s.queue == [] then s.phase.Gone? else !s.queue[0].Data?)
    ensures Inv(Receive(s))
  {
    if s.queue == [] {
      VerdictKeepsInv(s, Error);
    } else {
      assert s.queue == [s.queue[0]] && s.queue[1..] == [];
      assert QueuedBytes(s.queue) == [] + QueuedBytes(s.queue[1..]);
      VerdictKeepsInv(s, if s.queue[0].Complete? then End else Error);
    }
  }

  lemma RecvKeepsInv(s: State)
    requires Inv(s) && Enabled(s, Recv)
    ensures Inv(Receive(s))
  {
    if s.complete {
      RecvAfterVerdict(s);
    } else if s.queue != [] && s.queue[0].Data? {
      RecvChunk(s);
    } else {
      RecvVerdict(s);
    }
  }

  lemma WriteKeepsInv(s: State)
    requires Inv(s) && s.phase.Offering?
    ensures Inv(BeginWrite(s))
  {
    var size := Min(|s.phase.rest|, CHUNK_BYTES);
    assert s.phase.rest[..size] + s.phase.rest[size..] == s.phase.rest;
  }

  lemma RequestKeepsInv(s: State, bytes: Bytes)
    requires Inv(s) && s.phase.Idle?
    ensures Inv(Apply(s, Request(bytes)))
  {
    assert s.produced + [] == s.produced && s.asked + [] == s.asked;
  }

  lemma FlushKeepsInv(s: State)
    requires Inv(s) && s.phase.Idle?
    ensures Inv(Apply(s, Flush))
  {
  }

  lemma FinishKeepsProducer(s: State, ok: bool)
    requires ProducerInv(s) && s.phase.Idle?
    ensures ProducerInv(Apply(s, Finish(ok)))
  {
    assert s.produced + [] == s.produced;
  }

  lemma FinishKeepsInv(s: State, ok: bool)
    requires Inv(s) && s.phase.Idle?
    ensures Inv(Apply(s, Finish(ok)))
  {
    FinishKeepsProducer(s, ok);
  }

  lemma ControlKeepsInv(s: State, step: Step)
    requires Inv(s) && (step.GiveUp? || step.Vanish? || step.Cancel? || step.Close?)
    ensures Inv(Apply(s, step))
  {
  }

  lemma StepKeepsInv(s: State, step: Step)
    requires Inv(s)
    ensures Inv(Apply(s, step))
  {
    if Enabled(s, step) {
      match step
      case Send => SendKeepsInv(s);
      case SendFinal => FinalKeepsInv(s);
      case Recv => RecvKeepsInv(s);
      case Write => WriteKeepsInv(s);
      case Request(bytes) => RequestKeepsInv(s, bytes);
      case Flush => FlushKeepsInv(s);
      case Finish(ok) => FinishKeepsInv(s, ok);
      case _ => ControlKeepsInv(s, step);
    }
  }

  lemma {:induction false} ExecuteKeepsInv(steps: seq<Step>)
    ensures Inv(Execute(INITIAL, steps))
    decreases |steps|
  {
    if steps != [] {
      ExecuteKeepsInv(steps[..|steps| - 1]);
      StepKeepsInv(Execute(INITIAL, steps[..|steps| - 1]), steps[|steps| - 1]);
    }
  }

  /** Bytes are never lost, duplicated or reordered, and never more than two chunks wait. */
  lemma BytesAreConserved(steps: seq<Step>)
    ensures var s := Execute(INITIAL, steps);
            SeenBytes(s.seen) + QueuedBytes(s.queue) == s.produced && |s.queue| <= CAPACITY
  {
    ExecuteKeepsInv(steps);
  }

  /** In any run, end of file as the first verdict means the ZIP succeeded and every byte it wrote was delivered. */
  lemma EndMeansWholeArchive(steps: seq<Step>, at: nat)
    ensures var s := Execute(INITIAL, steps);
            at < |s.seen| && s.seen[at].End? && (forall i :: 0 <= i < at ==> s.seen[i].Chunk?) ==>
              s.finished && SeenBytes(s.seen) == s.asked
  {
    var s := Execute(INITIAL, steps);
    ExecuteKeepsInv(steps);
    if at < |s.seen| && s.seen[at].End? && forall i :: 0 <= i < at ==> s.seen[i].Chunk? {
      var verdict: nat :| Verdict(s.seen, verdict) && (s.seen[verdict].End? ==> s.finished);
      assert verdict == at;
      assert SeenBytes(s.seen) + [] == s.produced;
    }
  }

  lemma ExecuteThree(s: State, a: Step, b: Step, c: Step)
    ensures Execute(s, [a, b, c]) == Apply(Apply(Apply(s, a), b), c)
  {
    ExecuteOne(s, [], a);
    assert [] + [a] == [a];
    ExecuteOne(s, [a], b);
    assert [a] + [b] == [a, b];
    ExecuteOne(s, [a, b], c);
    assert [a, b] + [c] == [a, b, c];
  }

  /** End of file after an error: only the first verdict tells success. */
  lemma EndFollowsError()
    ensures var s := Execute(INITIAL, [Vanish, Recv, Recv]); s.seen == [Error, End] && !s.finished
  {
    ExecuteThree(INITIAL, Vanish, Recv, Recv);
    var gone := INITIAL.(phase := Gone);
    assert Apply(INITIAL, Vanish) == gone;
    var failed := gone.(complete := true, seen := [Error]);
    assert Apply(gone, Recv) == failed;
    assert Apply(failed, Recv).seen == [Error, End];
  }

  /** A verdict is never retracted: bytes after one are impossible, and every later `recv` reads as end of file. */
  lemma OneVerdict(steps: seq<Step>, at: nat, later: nat)
    ensures var s := Execute(INITIAL, steps);
            at < later < |s.seen| && !s.seen[at].Chunk? ==> s.seen[later].End?
  {
    var s := Execute(INITIAL, steps);
    ExecuteKeepsInv(steps);
    if at < later < |s.seen| && !s.seen[at].Chunk? {
      var verdict: nat :| Verdict(s.seen, verdict) && (s.seen[verdict].End? ==> s.finished);
      assert verdict <= at;
    }
  }

  // ---- where each step leads ----

  /** The producer between the ZIP layer's calls: what it offers, sends, refuses and finally says. */
  lemma PhaseExactly(s: State, step: Step)
    requires Enabled(s, step)
    ensures var t := Apply(s, step);
            match step
            case Request(bytes) =>
              t.phase == (if bytes == [] then Idle else Offering(bytes)) && t.asked == s.asked + bytes
            case Write =>
              var rest := s.phase.rest;
              && (s.cancelled ==> t == s)
              && (!s.cancelled && rest == [] ==> t.phase == Idle)
              && (!s.cancelled && rest != [] ==>
                    t.phase.Sending? && t.phase.chunk + t.phase.rest == rest
                    && |t.phase.chunk| == (if |rest| < 65536 then |rest| else 65536))
            case GiveUp => t.phase == Idle && t.failed
            case Send =>
              if s.closed then t.phase == Idle && t.failed && t.queue == s.queue && t.produced == s.produced
              else t.queue == s.queue + [Data(s.phase.chunk)] && t.produced == s.produced + s.phase.chunk
                   && t.phase == (if s.phase.rest == [] then Idle else Offering(s.phase.rest))
            case Flush => t == (if s.cancelled then s.(failed := true) else s)
            case Finish(ok) => t.phase == Finishing(if ok && !s.failed then Complete else Failed)
            case SendFinal => t.phase == Gone && t.queue == (if s.closed then s.queue else s.queue + [s.phase.item])
            case Vanish => t == s.(phase := Gone)
            case Cancel => t == s.(cancelled := true)
            case Close => t == s.(closed := true)
            case Recv => t.phase == s.phase && t.produced == s.produced && t.asked == s.asked
  {
    if step.Write? && !s.cancelled {
      var size := Min(|s.phase.rest|, CHUNK_BYTES);
      assert s.phase.rest[..size] + s.phase.rest[size..] == s.phase.rest;
    }
  }

  /** When each step may happen: blocking sends wait for one of two places, and cancelling comes before closing. */
  lemma EnabledExactly(s: State, step: Step)
    ensures Enabled(s, step) <==>
            match step
            case Request(_) | Flush | Finish(_) => s.phase == Idle
            case Write => s.phase.Offering?
            case GiveUp => s.phase.Offering? && s.cancelled
            case Send => s.phase.Sending? && (s.closed || |s.queue| <= 1)
            case SendFinal => s.phase.Finishing? && (s.closed || |s.queue| <= 1)
            case Vanish => s.phase != Gone
            case Cancel => true
            case Close => s.cancelled
            case Recv => !s.cancelled && (s.complete || s.queue != [] || s.phase == Gone)
  {
  }

  // ---- the verdict, read off the schedule ----

  /** Step `i` of the schedule is this one, and it was enabled. */
  predicate Happens(steps: seq<Step>, i: nat, step: Step) {
    i < |steps| && steps[i] == step && Enabled(Execute(INITIAL, steps[..i]), step)
  }

  /** The step refuses a write or a flush: interrupted and given up, on a closed channel, or a cancelled flush. */
  predicate RefusesIn(s: State, step: Step) {
    && Enabled(s, step)
    && (step.GiveUp? || (step.Send? && s.closed) || (step.Flush? && s.cancelled))
  }

  predicate Refuses(steps: seq<Step>, i: nat) {
    i < |steps| && RefusesIn(Execute(INITIAL, steps[..i]), steps[i])
  }

  lemma StepRefuses(s: State, step: Step)
    ensures Apply(s, step).failed <==> s.failed || RefusesIn(s, step)
  {
  }

  predicate AnyRefused(steps: seq<Step>) { exists i :: 0 <= i < |steps| && Refuses(steps, i) }

  /** Step `i` is the ZIP layer returning success with nothing refused before. */
  predicate Succeeds(steps: seq<Step>, i: nat) { Happens(steps, i, Finish(true)) && !AnyRefused(steps[..i]) }

  /** Step `i` queues the completion: the producer's last message, after a success, into an open channel. */
  predicate Completes(steps: seq<Step>, i: nat) {
    && Happens(steps, i, SendFinal) && !Execute(INITIAL, steps[..i]).closed
    && exists k :: 0 <= k < i && Succeeds(steps[..i], k)
  }

  lemma HappensBefore(steps: seq<Step>, n: nat, i: nat, step: Step)
    requires i < n <= |steps|
    ensures Happens(steps[..n], i, step) <==> Happens(steps, i, step)
    ensures Execute(INITIAL, steps[..n][..i]) == Execute(INITIAL, steps[..i])
  {
    assert steps[..n][..i] == steps[..i];
  }

  lemma RefusesBefore(steps: seq<Step>, n: nat, i: nat)
    requires i < n <= |steps|
    ensures Refuses(steps[..n], i) <==> Refuses(steps, i)
  {
    assert steps[..n][..i] == steps[..i];
  }

  lemma SucceedsBefore(steps: seq<Step>, n: nat, i: nat)
    requires i < n <= |steps|
    ensures Succeeds(steps[..n], i) <==> Succeeds(steps, i)
  {
    HappensBefore(steps, n, i, Finish(true));
    assert steps[..n][..i] == steps[..i];
  }

  lemma CompletesBefore(steps: seq<Step>, n: nat, i: nat)
    requires i < n <= |steps|
    ensures Completes(steps[..n], i) <==> Completes(steps, i)
  {
    HappensBefore(steps, n, i, SendFinal);
    assert steps[..n][..i] == steps[..i];
  }

  /** `failed` is that some step refused. */
  lemma {:induction false} FailedExactly(steps: seq<Step>)
    ensures Execute(INITIAL, steps).failed <==> AnyRefused(steps)
    decreases |steps|
  {
    if steps != [] {
      var n := |steps| - 1;
      var init := steps[..n];
      FailedExactly(init);
      forall i | 0 <= i < n ensures Refuses(init, i) <==> Refuses(steps, i) {
        RefusesBefore(steps, n, i);
      }
      StepRefuses(Execute(INITIAL, init), steps[n]);
      assert Refuses(steps, n) <==> RefusesIn(Execute(INITIAL, init), steps[n]);
    }
  }

  /** The producer's last message, once there is one, says whether it finished. */
  predicate LastMessageTells(s: State) { s.phase.Finishing? ==> (s.phase.item == Complete <==> s.finished) }

  lemma StepFinishes(s: State, step: Step)
    requires ProducerInv(s) && LastMessageTells(s)
    ensures LastMessageTells(Apply(s, step))
    ensures Apply(s, step).finished <==> s.finished || (step == Finish(true) && Enabled(s, step) && !s.failed)
  {
  }

  /** `finished` is that the ZIP layer returned success, and the last message then says so. */
  lemma {:induction false} FinishedExactly(steps: seq<Step>)
    ensures var s := Execute(INITIAL, steps);
            && (s.finished <==> exists i :: 0 <= i < |steps| && Succeeds(steps, i))
            && LastMessageTells(s)
    decreases |steps|
  {
    if steps != [] {
      var n := |steps| - 1;
      var init := steps[..n];
      FinishedExactly(init);
      ExecuteKeepsInv(init);
      FailedExactly(init);
      forall i | 0 <= i < n ensures Succeeds(init, i) <==> Succeeds(steps, i) {
        SucceedsBefore(steps, n, i);
      }
      StepFinishes(Execute(INITIAL, init), steps[n]);
      assert Succeeds(steps, n) <==>
             steps[n] == Finish(true) && Enabled(Execute(INITIAL, init), steps[n]) && !Execute(INITIAL, init).failed;
    }
  }

  /** The completion is on its way or has been received as the first verdict. */
  predicate CompletionSent(s: State) {
    || (exists i :: 0 <= i < |s.queue| && s.queue[i].Complete?)
    || (exists at :: 0 <= at < |s.seen| && FirstVerdict(s.seen, at) && s.seen[at].End?)
  }

  predicate FirstVerdict(seen: seq<Signal>, at: nat) {
    at < |seen| && !seen[at].Chunk? && forall i :: 0 <= i < at ==> seen[i].Chunk?
  }

  lemma StepSendsCompletion(s: State, step: Step)
    requires Inv(s) && LastMessageTells(s)
    ensures CompletionSent(Apply(s, step)) <==>
            CompletionSent(s) || (step.SendFinal? && Enabled(s, step) && !s.closed && s.finished)
  {
    if Enabled(s, step) {
      if step.Recv? {
        ReceivingKeepsCompletion(s);
      } else if step.Send? && !s.closed {
        QueueKeepsCompletion(s, Apply(s, step), Data(s.phase.chunk));
      } else if step.SendFinal? && !s.closed {
        QueueKeepsCompletion(s, Apply(s, step), s.phase.item);
      }
    }
  }

  lemma QueueKeepsCompletion(s: State, next: State, item: Item)
    requires next.seen == s.seen && next.queue == s.queue + [item]
    ensures CompletionSent(next) <==> CompletionSent(s) || item.Complete?
  {
    assert next.queue[|s.queue|] == item;
    assert forall i :: 0 <= i < |s.queue| ==> next.queue[i] == s.queue[i];
  }

  lemma ReceivingKeepsCompletion(s: State)
    requires Inv(s) && Enabled(s, Recv)
    ensures CompletionSent(Receive(s)) <==> CompletionSent(s)
  {
    var t := Receive(s);
    assert forall i :: 0 <= i < |s.seen| ==> t.seen[i] == s.seen[i];
    forall at | 0 <= at < |s.seen| ensures FirstVerdict(t.seen, at) <==> FirstVerdict(s.seen, at) {
    }
    if s.complete {
      var at: nat :| Verdict(s.seen, at);
      assert !FirstVerdict(t.seen, |s.seen|);
    } else {
      assert AllChunks(s.seen);
      assert forall at :: 0 <= at < |s.seen| ==> !FirstVerdict(s.seen, at);
      assert !t.seen[|s.seen|].Chunk? ==> FirstVerdict(t.seen, |s.seen|);
      if s.queue != [] {
        assert forall i :: 0 <= i < |t.queue| ==> t.queue[i] == s.queue[i + 1];
        assert forall i :: 0 < i < |s.queue| ==> s.queue[i] == t.queue[i - 1];
      }
    }
  }

  lemma {:induction false} CompletionSentExactly(steps: seq<Step>)
    ensures CompletionSent(Execute(INITIAL, steps)) <==> exists i :: 0 <= i < |steps| && Completes(steps, i)
    decreases |steps|
  {
    if steps != [] {
      var n := |steps| - 1;
      var init := steps[..n];
      CompletionSentExactly(init);
      ExecuteKeepsInv(init);
      FinishedExactly(init);
      forall i | 0 <= i < n ensures Completes(init, i) <==> Completes(steps, i) {
        CompletesBefore(steps, n, i);
      }
      StepSendsCompletion(Execute(INITIAL, init), steps[n]);
      assert Completes(steps, n) <==>
             Happens(steps, n, SendFinal) && !Execute(INITIAL, init).closed && Execute(INITIAL, init).finished;
    }
  }

  /**
   * The first verdict a consumer reads is end of file exactly when the ZIP layer returned success,
   * nothing having been refused before, and the producer then queued its completion in an open
   * channel; in every other schedule the first verdict is an error.
   */
  lemma FirstVerdictExactly(steps: seq<Step>, at: nat)
    requires FirstVerdict(Execute(INITIAL, steps).seen, at)
    ensures var s := Execute(INITIAL, steps);
            && (s.seen[at] == End <==> exists i :: 0 <= i < |steps| && Completes(steps, i))
            && (s.seen[at] == Error <==> !exists i :: 0 <= i < |steps| && Completes(steps, i))
  {
    var s := Execute(INITIAL, steps);
    ExecuteKeepsInv(steps);
    CompletionSentExactly(steps);
    assert s.complete;
    if CompletionSent(s) {
      var k :| 0 <= k < |s.seen| && FirstVerdict(s.seen, k) && s.seen[k].End?;
      assert k == at;
    }
  }

  /** The ZIP layer returns at most once. */
  lemma {:induction false} ReturnsOnce(steps: seq<Step>, i: nat, k: nat, first: bool, second: bool)
    requires i < k && Happens(steps, i, Finish(first))
    ensures !Happens(steps, k, Finish(second))
  {
    if k < |steps| {
      AfterReturn(steps, i, k, first);
    }
  }

  lemma StaysReturned(s: State, step: Step)
    ensures s.phase.Finishing? || s.phase.Gone? || (step.Finish? && Enabled(s, step)) ==>
              Apply(s, step).phase.Finishing? || Apply(s, step).phase.Gone?
  {
  }

  lemma {:induction false} AfterReturn(steps: seq<Step>, i: nat, n: nat, ok: bool)
    requires i < n <= |steps| && Happens(steps, i, Finish(ok))
    ensures Execute(INITIAL, steps[..n]).phase.Finishing? || Execute(INITIAL, steps[..n]).phase.Gone?
    decreases n
  {
    var before := steps[..n - 1];
    assert steps[..n][..n - 1] == before;
    if i < n - 1 { AfterReturn(steps, i, n - 1, ok); }
    StaysReturned(Execute(INITIAL, before), steps[n - 1]);
  }

  /** So an error from the ZIP layer is never read as end of file. */
  lemma FailureIsNotEnd(steps: seq<Step>, at: nat, k: nat)
    requires FirstVerdict(Execute(INITIAL, steps).seen, at) && Happens(steps, k, Finish(false))
    ensures Execute(INITIAL, steps).seen[at] == Error
  {
    FirstVerdictExactly(steps, at);
    if i :| 0 <= i < |steps| && Completes(steps, i) {
      var j :| 0 <= j < i && Succeeds(steps[..i], j);
      HappensBefore(steps, i, j, Finish(true));
      if j < k { ReturnsOnce(steps, j, k, true, false); } else if k < j { ReturnsOnce(steps, k, j, false, true); }
    }
  }

  // ---- progress ----

  predicate Settled(s: State) { s.phase.Gone? && (s.cancelled || s.complete) }

  /** A step that moves bytes, an error or the verdict along. */
  predicate Productive(s: State, step: Step) {
    && Enabled(s, step)
    && match step
       case Write => !s.cancelled
       case Recv => !s.complete
       case GiveUp => true
       case Send => true
       case Finish(_) => true
       case SendFinal => true
       case _ => false
  }

  /** How many productive steps can remain while the ZIP layer asks for nothing more. */
  function Remaining(s: State): nat {
    (match s.phase
     case Idle => 3
     case Offering(rest) => 4 * |rest| + 5
     case Sending(chunk, rest) => 4 * (|chunk| + |rest|) + 4
     case Finishing(_) => 2
     case Gone => 0)
    + |s.queue| + (if s.complete then 0 else 1)
  }

  /** Cancelled with bytes still to offer: every further `write` is interrupted before it takes any. */
  predicate Trapped(s: State) { s.cancelled && s.phase.Offering? && s.phase.rest != [] }

  /** A productive step that a producer retrying interrupted writes takes too. */
  predicate Advances(s: State, step: Step) { Productive(s, step) && !step.GiveUp? }

  /**
   * Until the stream settles, or the producer is trapped, some such step is enabled: nothing
   * waits for ever on something that waits for it.
   */
  lemma NeverDeadlocks(s: State)
    requires Inv(s) && (s.cancelled ==> s.closed)
    ensures Settled(s) || Trapped(s) || exists step :: Advances(s, step)
  {
    match s.phase
    case Idle => assert Advances(s, Finish(true));
    case Offering(_) => assert Trapped(s) || Advances(s, Write);
    case Sending(_, _) => assert Advances(s, Send) || Advances(s, Recv);
    case Finishing(_) => assert Advances(s, SendFinal) || Advances(s, Recv);
    case Gone => assert s.cancelled || s.complete || Advances(s, Recv);
  }

  lemma SendProgresses(s: State)
    requires s.phase.Sending? && FairSize(s.phase.chunk)
    ensures Remaining(CompleteSend(s)) < Remaining(s)
  {
  }

  lemma WriteProgresses(s: State)
    requires s.phase.Offering? && !s.cancelled
    ensures Remaining(BeginWrite(s)) < Remaining(s)
  {
    var size := Min(|s.phase.rest|, CHUNK_BYTES);
    assert |s.phase.rest[..size]| + |s.phase.rest[size..]| == |s.phase.rest|;
  }

  lemma RecvProgresses(s: State)
    requires !s.complete && (s.queue != [] || s.phase.Gone?)
    ensures Remaining(Receive(s)) < Remaining(s)
  {
  }

  /** Every productive step uses up at least one, and no other step but a new request adds any. */
  lemma ProgressIsBounded(s: State, step: Step)
    requires ProducerInv(s) && !step.Request?
    ensures Remaining(Apply(s, step)) <= Remaining(s)
    ensures Productive(s, step) ==> Remaining(Apply(s, step)) < Remaining(s)
  {
    if Enabled(s, step) {
      match step
      case Send => SendProgresses(s);
      case Write => if !s.cancelled { WriteProgresses(s); }
      case Recv => if !s.complete { RecvProgresses(s); }
      case _ =>
    }
  }

  // ---- cancellation ----

  /** Steps of a producer that retries every interrupted write, with anything else around it. */
  predicate Retrying(steps: seq<Step>) { forall i :: 0 <= i < |steps| ==> !steps[i].GiveUp? && !steps[i].Vanish? }

  /** Trapped once, such a producer stays there for ever. */
  lemma {:induction false} CancelledWriteSpins(s: State, steps: seq<Step>)
    requires Trapped(s) && Retrying(steps)
    ensures Execute(s, steps).phase == s.phase && Trapped(Execute(s, steps))
    decreases |steps|
  {
    if steps != [] { CancelledWriteSpins(s, steps[..|steps| - 1]); }
  }

  lemma ExecuteOne(s: State, steps: seq<Step>, step: Step)
    ensures Execute(s, steps + [step]) == Apply(Execute(s, steps), step)
  {
    assert (steps + [step])[..|steps|] == steps;
  }

  lemma {:induction false} ExecuteConcat(s: State, a: seq<Step>, b: seq<Step>)
    ensures Execute(s, a + b) == Execute(Execute(s, a), b)
    decreases |b|
  {
    if b == [] {
      assert a + b == a;
    } else {
      assert (a + b)[..|a + b| - 1] == a + b[..|b| - 1];
      ExecuteConcat(s, a, b[..|b| - 1]);
    }
  }

  /** An idle or finishing producer exits once its ZIP layer returns. */
  lemma ReturnExits(s: State) returns (steps: seq<Step>)
    requires s.closed && (s.phase.Idle? || s.phase.Finishing?)
    ensures Retrying(steps) && Execute(s, steps).phase.Gone?
  {
    var finish := [Finish(false)];
    ExecuteOne(s, [], Finish(false));
    assert [] + finish == finish;
    ExecuteOne(s, finish, SendFinal);
    steps := finish + [SendFinal];
  }

  /** From any phase but offering it can exit: a blocked send fails, and an error returned is an exit. */
  lemma OtherwiseExits(s: State) returns (steps: seq<Step>)
    requires s.closed && !s.phase.Offering?
    ensures Retrying(steps) && Execute(s, steps).phase.Gone?
  {
    if s.phase.Gone? {
      steps := [];
    } else if s.phase.Sending? {
      var sent := Apply(s, Send);
      ExecuteOne(s, [], Send);
      assert [] + [Send] == [Send];
      var rest := ReturnExits(sent);
      ExecuteConcat(s, [Send], rest);
      steps := [Send] + rest;
    } else {
      steps := ReturnExits(s);
    }
  }

  /** `cancel` has run: both its effects are in place. */
  predicate Stopped(s: State) { s.cancelled && s.closed }

  ghost predicate CanExit(s: State) { exists steps :: Retrying(steps) && Execute(s, steps).phase.Gone? }

  lemma ExitsExactly(s: State)
    requires ProducerInv(s) && Stopped(s)
    ensures CanExit(s) <==> !Trapped(s)
  {
    if Trapped(s) {
      forall steps | Retrying(steps) ensures !Execute(s, steps).phase.Gone? {
        CancelledWriteSpins(s, steps);
      }
    } else {
      var steps := OtherwiseExits(s);
    }
  }

  /** Step `i` of the schedule asks for some bytes while the producer is free to offer them. */
  predicate AsksAt(s: State, steps: seq<Step>, i: nat)
    requires i < |steps|
  {
    steps[i].Request? && steps[i].bytes != [] && Execute(s, steps[..i]).phase.Idle?
  }

  /** No step of the schedule is a request for some bytes. */
  predicate Quiet(steps: seq<Step>) { forall i :: 0 <= i < |steps| ==> steps[i].Request? ==> steps[i].bytes == [] }

  /** After `cancel`, a step traps the producer exactly when it asks for some bytes. */
  lemma StepTraps(s: State, step: Step)
    requires ProducerInv(s) && Stopped(s) && !step.GiveUp? && !step.Vanish?
    ensures Stopped(Apply(s, step)) && ProducerInv(Apply(s, step))
    ensures Trapped(Apply(s, step)) <==> Trapped(s) || (step.Request? && step.bytes != [] && s.phase.Idle?)
  {
    assert s.produced + [] == s.produced && s.asked + [] == s.asked;
  }

  lemma {:induction false} ScheduleTraps(s: State, steps: seq<Step>)
    requires ProducerInv(s) && Stopped(s) && Retrying(steps)
    ensures Stopped(Execute(s, steps)) && ProducerInv(Execute(s, steps))
    ensures Trapped(Execute(s, steps)) <==> Trapped(s) || exists i :: 0 <= i < |steps| && AsksAt(s, steps, i)
    decreases |steps|
  {
    if steps != [] {
      var n := |steps| - 1;
      var init := steps[..n];
      ScheduleTraps(s, init);
      StepTraps(Execute(s, init), steps[n]);
      forall i | 0 <= i < n ensures AsksAt(s, init, i) <==> AsksAt(s, steps, i) {
        assert init[..i] == steps[..i];
      }
      assert AsksAt(s, steps, n) <==> steps[n].Request? && steps[n].bytes != [] && Execute(s, init).phase.Idle?;
    }
  }

  /**
   * `cancel` waits for the producer to exit. In every run, whatever a producer that retries
   * interrupted writes does after both effects of `cancel`, it can still exit if and only if it was
   * not offering bytes then and its ZIP layer has asked for none since.
   */
  lemma CancelledProducerExits(run: seq<Step>, steps: seq<Step>)
    requires Stopped(Execute(INITIAL, run)) && Retrying(steps)
    ensures var s := Execute(INITIAL, run);
            CanExit(Execute(s, steps)) <==>
            !Trapped(s) && forall i :: 0 <= i < |steps| ==> !AsksAt(s, steps, i)
  {
    var s := Execute(INITIAL, run);
    ExecuteKeepsInv(run);
    ScheduleTraps(s, steps);
    ExitsExactly(Execute(s, steps));
  }

  /** How many steps of a schedule are productive. */
  function ProductiveSteps(s: State, steps: seq<Step>): nat
    decreases |steps|
  {
    if steps == [] then 0
    else
      var init := steps[..|steps| - 1];
      ProductiveSteps(s, init) + (if Productive(Execute(s, init), steps[|steps| - 1]) then 1 else 0)
  }

  lemma QuietStepIsBounded(s: State, step: Step)
    requires ProducerInv(s) && (step.Request? ==> step.bytes == [])
    ensures Remaining(Apply(s, step)) + (if Productive(s, step) then 1 else 0) <= Remaining(s)
  {
    if !step.Request? { ProgressIsBounded(s, step); }
  }

  lemma {:induction false} QuietIsBounded(s: State, steps: seq<Step>)
    requires ProducerInv(s) && Stopped(s) && Retrying(steps) && Quiet(steps)
    ensures ProductiveSteps(s, steps) + Remaining(Execute(s, steps)) <= Remaining(s)
    decreases |steps|
  {
    if steps != [] {
      var init := steps[..|steps| - 1];
      QuietIsBounded(s, init);
      ScheduleTraps(s, init);
      QuietStepIsBounded(Execute(s, init), steps[|steps| - 1]);
    }
  }

  /**
   * Not offering bytes and asked for none, the producer exits: every schedule makes at most
   * `Remaining` productive steps, and until the producer has gone one is enabled.
   */
  lemma QuietProducerExits(run: seq<Step>, steps: seq<Step>)
    requires Stopped(Execute(INITIAL, run)) && !Trapped(Execute(INITIAL, run)) && Retrying(steps) && Quiet(steps)
    ensures var s := Execute(INITIAL, run);
            var t := Execute(s, steps);
            && ProductiveSteps(s, steps) <= Remaining(s)
            && (t.phase.Gone? || exists step :: Advances(t, step))
            && CanExit(t)
  {
    var s := Execute(INITIAL, run);
    var t := Execute(s, steps);
    ExecuteKeepsInv(run);
    QuietIsBounded(s, steps);
    CancelledProducerExits(run, steps);
    ScheduleTraps(s, steps);
    ExecuteKeepsInv(run + steps);
    ExecuteConcat(INITIAL, run, steps);
    NeverDeadlocks(t);
  }

  /** The failing case: cancelled after asking for one byte, the producer can never exit. */
  lemma CancelledProducerIsTrapped(b: bv8)
    ensures var s := Execute(INITIAL, [Request([b]), Cancel, Close]); Stopped(s) && Trapped(s) && !CanExit(s)
  {
    ExecuteThree(INITIAL, Request([b]), Cancel, Close);
    var s := Execute(INITIAL, [Request([b]), Cancel, Close]);
    ExecuteKeepsInv([Request([b]), Cancel, Close]);
    ExitsExactly(s);
  }

  /** One byte offered and accepted: the producer is idle again. */
  lemma ByteIsAccepted(b: bv8)
    ensures Execute(INITIAL, [Request([b]), Write, Send]) ==
            INITIAL.(asked := [b], queue := [Data([b])], produced := [b])
  {
    ExecuteThree(INITIAL, Request([b]), Write, Send);
    var asked := INITIAL.(phase := Offering([b]), asked := [b]);
    assert Apply(INITIAL, Request([b])) == asked by { assert [] + [b] == [b]; }
    var sending := asked.(phase := Sending([b], []));
    assert Apply(asked, Write) == sending;
  }

  /** The same byte accepted before: the producer exits, and its ZIP layer may even report success. */
  lemma AcceptedProducerIsFree(b: bv8)
    ensures var s := Execute(Execute(INITIAL, [Request([b]), Write, Send]), [Cancel, Close, Finish(true)]);
            Stopped(s) && !Trapped(s) && CanExit(s) && s.finished && s.asked == s.produced == [b]
  {
    ByteIsAccepted(b);
    var sent := INITIAL.(asked := [b], queue := [Data([b])], produced := [b]);
    ExecuteThree(sent, Cancel, Close, Finish(true));
    var steps := OtherwiseExits(Execute(sent, [Cancel, Close, Finish(true)]));
  }

  /** Receiving `n` more times. */
  function Drain(s: State, n: nat): State
    decreases n
  {
    if n == 0 then s else Drain(Receive(s), n - 1)
  }

  /** `d` has every byte of `s`, and its verdict is success exactly when the ZIP's completion was queued. */
  predicate Delivered(s: State, d: State) {
    && d.complete && SeenBytes(d.seen) == s.produced && d.seen != []
    && (d.seen[|d.seen| - 1].End? <==> s.queue != [] && s.queue[|s.queue| - 1].Complete?)
  }

  lemma DeliversNow(s: State)
    requires Inv(s) && s.phase.Gone? && !s.cancelled && !s.complete && Receive(s).complete
    ensures Delivered(s, Receive(s))
  {
    RecvKeepsInv(s);
    assert SeenBytes(Receive(s).seen) + [] == s.produced;
  }

  lemma DeliversLater(s: State, d: State)
    requires Inv(s) && s.phase.Gone? && !s.cancelled && !s.complete && !Receive(s).complete && Delivered(Receive(s), d)
    ensures Delivered(s, d)
  {
    var next := Receive(s);
    if next.queue != [] { assert next.queue[|next.queue| - 1] == s.queue[|s.queue| - 1]; }
  }

  /** A consumer that keeps receiving after the producer exits gets every queued byte, then the verdict. */
  lemma {:induction false} DrainDelivers(s: State) returns (n: nat)
    requires Inv(s) && s.phase.Gone? && !s.cancelled && !s.complete
    ensures n <= |s.queue| + 1 && Delivered(s, Drain(s, n))
    decreases |s.queue|
  {
    RecvKeepsInv(s);
    var next := Receive(s);
    if next.complete {
      n := 1;
      DeliversNow(s);
      assert Drain(next, 0) == next;
    } else {
      n := DrainDelivers(next);
      DeliversLater(s, Drain(next, n));
      n := n + 1;
    }
  }

  datatype WriteError = Interrupted | ConsumerClosed

  /** The shared channel as the producer's `ChannelWriter` and the consumer's stream update it. */
  class Channel {
    var phase: Phase
    var queue: seq<Item>
    var cancelled: bool
    var closed: bool
    var complete: bool
    ghost var asked: Bytes
    ghost var produced: Bytes
    ghost var failed: bool
    ghost var finished: bool
    ghost var seen: seq<Signal>

    ghost function View(): State
      reads this
    {
      State(phase, queue, cancelled, closed, complete, asked, produced, failed, finished, seen)
    }

    constructor ()
      ensures View() == INITIAL
    {
      phase, queue, cancelled, closed, complete := Idle, [], false, false, false;
      asked, produced, failed, finished, seen := [], [], false, false, [];
    }

    /** `write`: cancellation first, then one bounded chunk, waiting while the channel is full. */
    method Write() returns (result: Result<nat, WriteError>)
      requires phase.Offering? && (cancelled || closed || phase.rest == [] || |queue| < CAPACITY)
      modifies this
      ensures var begun := BeginWrite(old(View()));
              View() == if begun.phase.Sending? then CompleteSend(begun) else begun
      ensures result.Ok? ==>
                result.value <= |old(phase).rest| && produced == old(produced) + old(phase).rest[..result.value]
      ensures result == Err(Interrupted) <==> old(cancelled)
      ensures result == Err(ConsumerClosed) <==> !old(cancelled) && old(phase).rest != [] && old(closed)
    {
      if cancelled { return Err(Interrupted); }
      var bytes := phase.rest;
      var size := Min(|bytes|, CHUNK_BYTES);
      if size == 0 {
        phase := Idle;
        return Ok(0);
      }
      if closed {
        phase, failed := Idle, true;
        return Err(ConsumerClosed);
      }
      queue := queue + [Data(bytes[..size])];
      produced := produced + bytes[..size];
      phase := Offer(bytes[size..]);
      result := Ok(size);
    }

    /** `recv`, once a message is queued or the producer has gone. */
    method Recv() returns (signal: Signal)
      requires complete || queue != [] || phase.Gone?
      modifies this
      ensures View() == Receive(old(View())) && seen == old(seen) + [signal]
    {
      if complete {
        signal := End;
      } else if queue == [] {
        complete, signal := true, Error;
      } else {
        var item := queue[0];
        queue := queue[1..];
        match item
        case Data(bytes) => signal := Chunk(bytes);
        case Complete => complete, signal := true, End;
        case Failed => complete, signal := true, Error;
      }
      seen := seen + [signal];
    }

    /** `cancel`: a blocked or later write is refused from here on. */
    method CancelAndClose()
      modifies this
      ensures View() == Apply(Apply(old(View()), Step.Cancel), Close)
    {
      cancelled := true;
      closed := true;
    }
  }
}
