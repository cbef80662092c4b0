/** The asynchronous flush queue: producers, a stopper and one worker thread. Each
    step is what one thread does between two points where others can intervene. */
module ZapFlush {
  import opened Machine
  import ZapBuffer

  /** A BufferFlush object: its identity and its bytes. */
  datatype Chunk = Chunk(id: nat, bytes: seq<Byte>)

  /** Where the worker is: before its lock, draining under the lock, decided to wait
      but still holding the lock, waiting, or gone. */
  datatype Worker = Starting | Draining | GoingToWait | Waiting | Returned

  datatype State = State(queue: seq<Chunk>, exit: bool, worker: Worker,
                         accepted: seq<Chunk>, flushed: seq<Chunk>, refused: seq<Chunk>)

  datatype Step =
    | Offer(bytes: seq<Byte>)  // AsyncFlush with a new object
    | SetExit                  // StopFlush; it takes no lock
    | Lock                     // the worker enters its critical section
    | FlushOne                 // pops the newest chunk and writes it
    | Decide                   // queue empty: return if exit is set, else go to wait
    | Wait                     // releases the lock
    | Wake                     // notified, or a spurious wakeup

  const INIT := State([], false, Starting, [], [], [])

  predicate HoldsLock(w: Worker) { w == Draining || w == GoingToWait }

  /** Every offered chunk is an object of its own. */
  function NextId(s: State): nat { |s.accepted| + |s.refused| }

  /** One step, or None when it is not enabled. */
  function Apply(s: State, step: Step): Option<State> {
    match step
    case Offer(bytes) =>
      var c := Chunk(NextId(s), bytes);
      if HoldsLock(s.worker) then None
      else if s.exit then Some(s.(refused := s.refused + [c]))
      else Some(s.(queue := s.queue + [c], accepted := s.accepted + [c]))
    case SetExit => Some(s.(exit := true))
    case Lock => if s.worker == Starting then Some(s.(worker := Draining)) else None
    case FlushOne =>
      if s.worker != Draining || s.queue == [] then None
      else
        var n := |s.queue| - 1;
        Some(s.(queue := s.queue[..n], flushed := s.flushed + [s.queue[n]]))
    case Decide =>
      if s.worker != Draining || s.queue != [] then None
      else Some(s.(worker := if s.exit then Returned else GoingToWait))
    case Wait => if s.worker == GoingToWait then Some(s.(worker := Waiting)) else None
    case Wake => if s.worker == Waiting then Some(s.(worker := Starting)) else None
  }

  /** The state after an interleaving, or None when some step was not enabled. */
  function Run(steps: seq<Step>): Option<State> {
    if steps == [] then Some(INIT)
    else
      match Run(steps[..|steps| - 1])
      case None => None
      case Some(s) => Apply(s, steps[|steps| - 1])
  }

  lemma RunSnoc(steps: seq<Step>, step: Step)
    ensures Run(steps + [step])
         == (match Run(steps) case None => None case Some(s) => Apply(s, step))
  {
    assert (steps + [step])[..|steps|] == steps;
  }

  lemma {:induction false} PrefixRuns(steps: seq<Step>, i: nat)
    requires i <= |steps| && Run(steps).Some?
    ensures Run(steps[..i]).Some?
    decreases |steps| - i
  {
    if i == |steps| {
      assert steps[..i] == steps;
    } else {
      PrefixRuns(steps, i + 1);
      assert steps[..i + 1][..i] == steps[..i];
    }
  }

  /** Every accepted chunk is queued or was flushed, once; a worker that has
      returned left nothing behind. */
  predicate Safe(s: State) {
    multiset(s.accepted) == multiset(s.queue) + multiset(s.flushed)
    && (s.worker == Returned ==> s.exit && s.queue == [])
  }

  lemma LastTaken<T>(queue: seq<T>)
    requires queue != []
    ensures multiset(queue) == multiset(queue[..|queue| - 1]) + multiset{queue[|queue| - 1]}
  {
    assert queue == queue[..|queue| - 1] + [queue[|queue| - 1]];
  }

  lemma StepIsSafe(s: State, step: Step)
    requires Safe(s) && Apply(s, step).Some?
    ensures Safe(Apply(s, step).value)
  {
    if step.FlushOne? {
      LastTaken(s.queue);
    }
  }

  /** No chunk is stranded, in any interleaving. */
  lemma {:induction false} NoStrandedChunk(steps: seq<Step>)
    requires Run(steps).Some?
    ensures Safe(Run(steps).value)
    decreases |steps|
  {
    if steps != [] {
      NoStrandedChunk(steps[..|steps| - 1]);
      StepIsSafe(Run(steps[..|steps| - 1]).value, steps[|steps| - 1]);
    }
  }

  /** Once the worker has returned the queue is empty forever, and everything that
      was or ever will be accepted has been flushed. */
  lemma {:induction false} AfterReturn(steps: seq<Step>, i: nat)
    requires i <= |steps| && Run(steps).Some? && Run(steps[..i]).Some?
    requires Run(steps[..i]).value.worker == Returned
    ensures var s, t := Run(steps[..i]).value, Run(steps).value;
      t.worker == Returned && t.queue == [] && t.flushed == s.flushed && t.accepted == s.accepted
      && multiset(t.accepted) == multiset(s.flushed)
    decreases |steps|
  {
    NoStrandedChunk(steps[..i]);
    if i == |steps| {
      assert steps[..i] == steps;
    } else {
      var front := steps[..|steps| - 1];
      assert front[..i] == steps[..i];
      AfterReturn(front, i);
    }
  }

  // ------------------------------------------------------------ flush order

  /** Every chunk was flushed while it was alone in the queue. */
  predicate FlushedAlone(steps: seq<Step>)
    requires Run(steps).Some?
  {
    steps == [] ||
    (PrefixRuns(steps, |steps| - 1);
     var front, last := steps[..|steps| - 1], steps[|steps| - 1];
     FlushedAlone(front) && (last.FlushOne? ==> |Run(front).value.queue| == 1))
  }

  /** At every moment the chunks flushed so far are the first ones accepted. */
  predicate InOrder(steps: seq<Step>)
    requires Run(steps).Some?
  {
    Run(steps).value.flushed <= Run(steps).value.accepted &&
    (steps == [] || (PrefixRuns(steps, |steps| - 1); InOrder(steps[..|steps| - 1])))
  }

  predicate Different(cs: seq<Chunk>) { forall i, j :: 0 <= i < j < |cs| ==> cs[i] != cs[j] }

  lemma {:induction false} AcceptedDiffer(steps: seq<Step>)
    requires Run(steps).Some?
    ensures var s := Run(steps).value;
      Different(s.accepted) && forall i :: 0 <= i < |s.accepted| ==> s.accepted[i].id < NextId(s)
    decreases |steps|
  {
    if steps != [] {
      AcceptedDiffer(steps[..|steps| - 1]);
    }
  }

  lemma {:induction false} AloneKeepsOrder(steps: seq<Step>)
    requires Run(steps).Some? && FlushedAlone(steps)
    ensures Run(steps).value.flushed + Run(steps).value.queue == Run(steps).value.accepted
    ensures InOrder(steps)
    decreases |steps|
  {
    if steps != [] {
      var front, last := steps[..|steps| - 1], steps[|steps| - 1];
      AloneKeepsOrder(front);
      var s, t := Run(front).value, Run(steps).value;
      if last.FlushOne? {
        assert s.queue == [s.queue[0]] && s.queue[..0] == [];
      }
      assert t.flushed + t.queue == t.accepted;
    }
  }

  lemma {:induction false} AcceptedGrows(steps: seq<Step>, i: nat)
    requires i <= |steps| && Run(steps).Some? && Run(steps[..i]).Some?
    ensures Run(steps[..i]).value.accepted <= Run(steps).value.accepted
    decreases |steps|
  {
    if i == |steps| {
      assert steps[..i] == steps;
    } else {
      var front := steps[..|steps| - 1];
      assert front[..i] == steps[..i];
      AcceptedGrows(front, i);
    }
  }

  lemma {:induction false} OrderMeansAlone(steps: seq<Step>)
    requires Run(steps).Some? && InOrder(steps)
    ensures FlushedAlone(steps)
    decreases |steps|
  {
    if steps != [] {
      var front, last := steps[..|steps| - 1], steps[|steps| - 1];
      PrefixRuns(steps, |steps| - 1);
      AcceptedGrows(steps, |steps| - 1);
      AcceptedDiffer(steps);
      OrderMeansAlone(front);
      AloneKeepsOrder(front);
      var s, t := Run(front).value, Run(steps).value;
      if last.FlushOne? {
        var n := |s.queue| - 1;
        assert t.flushed[|s.flushed|] == s.queue[n];
        assert t.accepted[|s.flushed|] == (s.flushed + s.queue)[|s.flushed|] == s.queue[0];
        assert t.accepted[|s.flushed| + n] == (s.flushed + s.queue)[|s.flushed| + n] == s.queue[n];
      }
    }
  }

  /** The file keeps the order of the hand-offs exactly when the worker never finds
      two chunks waiting. */
  lemma OrderExactly(steps: seq<Step>)
    requires Run(steps).Some?
    ensures InOrder(steps) <==> FlushedAlone(steps)
  {
    if FlushedAlone(steps) {
      AloneKeepsOrder(steps);
    }
    if InOrder(steps) {
      OrderMeansAlone(steps);
    }
  }

  /** Two chunks in the queue are flushed newest first. */
  lemma NewestFirst(x: seq<Byte>, y: seq<Byte>)
    ensures var a, b := Chunk(0, x), Chunk(1, y);
      Run([Offer(x)] + [Offer(y)] + [Lock] + [FlushOne] + [FlushOne]) == Some(State([], false, Draining, [a, b], [b, a], []))
  {
    hide Run;
    var a, b := Chunk(0, x), Chunk(1, y);
    NothingRun();
    QueueOfTwo(a, b);
    RunSnoc([], Offer(x));
    assert [] + [Offer(x)] == [Offer(x)];
    RunSnoc([Offer(x)], Offer(y));
    RunSnoc([Offer(x)] + [Offer(y)], Lock);
    RunSnoc([Offer(x)] + [Offer(y)] + [Lock], FlushOne);
    RunSnoc([Offer(x)] + [Offer(y)] + [Lock] + [FlushOne], FlushOne);
  }

  lemma NothingRun()
    ensures Run([]) == Some(INIT)
  {
  }

  lemma QueueOfTwo(a: Chunk, b: Chunk)
    ensures var none: seq<Chunk> := [];
      none + [a] == [a] && [a] + [b] == [a, b] && [a, b][..1] == [a] && [a][..0] == none && none + [b] == [b] && [b] + [a] == [b, a]
  {
  }

  // ------------------------------------------------- buffer and queue together

  /** The contents of chunks, one after the other. */
  function Contents(cs: seq<Chunk>): seq<Byte> {
    if cs == [] then [] else Contents(cs[..|cs| - 1]) + cs[|cs| - 1].bytes
  }

  /** What the flushed chunks add to the log file; without an open file Flush writes
      nothing. */
  function FileOf(open: bool, flushed: seq<Chunk>): seq<Byte> { if open then Contents(flushed) else [] }

  lemma {:induction false} ContentsAppend(a: seq<Chunk>, b: seq<Chunk>)
    ensures Contents(a + b) == Contents(a) + Contents(b)
    decreases |b|
  {
    if b == [] {
      assert a + b == a;
      assert Contents(a) + [] == Contents(a);
    } else {
      var n := |b| - 1;
      ContentsAppend(a, b[..n]);
      assert (a + b)[..|a + b| - 1] == a + b[..n];
      assert (a + b)[|a + b| - 1] == b[n];
      assert Contents(a) + Contents(b[..n]) + b[n].bytes == Contents(a) + (Contents(b[..n]) + b[n].bytes);
    }
  }

  /** The chunks carry, in order, what the buffer handed off. */
  predicate Carry(cs: seq<Chunk>, chunks: seq<seq<Byte>>) {
    |cs| == |chunks| && forall i :: 0 <= i < |cs| ==> cs[i].bytes == chunks[i]
  }

  lemma {:induction false} CarryContents(cs: seq<Chunk>, chunks: seq<seq<Byte>>)
    requires Carry(cs, chunks)
    ensures Contents(cs) == ZapBuffer.Concat(chunks)
    decreases |cs|
  {
    if cs != [] {
      CarryContents(cs[..|cs| - 1], chunks[..|cs| - 1]);
    }
  }

  /** From write to file: while the worker keeps up, the file's bytes, then the queued
      chunks, then the live buffer are the messages in the order written, exactly if the
      log file is open or nothing was flushed yet. */
  lemma MessagesReachTheFile(area: nat, events: seq<ZapBuffer.Event>, steps: seq<Step>, open: bool)
    requires Run(steps).Some? && FlushedAlone(steps) && ZapBuffer.AllFit(area, events)
    requires Carry(Run(steps).value.accepted, ZapBuffer.Run(ZapBuffer.EMPTY, area, events).chunks)
    ensures var s := Run(steps).value;
      FileOf(open, s.flushed) + Contents(s.queue) + ZapBuffer.Run(ZapBuffer.EMPTY, area, events).live == ZapBuffer.Sent(events)
      <==> open || Contents(s.flushed) == []
  {
    var s, log := Run(steps).value, ZapBuffer.Run(ZapBuffer.EMPTY, area, events);
    AloneKeepsOrder(steps);
    ContentsAppend(s.flushed, s.queue);
    CarryContents(s.accepted, log.chunks);
    ZapBuffer.ConservationExactly(area, events);
    assert |FileOf(open, s.flushed) + Contents(s.queue) + log.live| == |FileOf(open, s.flushed)| + |Contents(s.queue)| + |log.live|;
  }

  // ----------------------------------------------------- the shared object

  /** The critical sections of AsyncFlush and of the worker's drain loop. */
  class FileFlush {
    var asyncBuffer: seq<Chunk>
    var exit: bool
    var flushed: seq<Chunk>
    const open: bool
    var file: seq<Byte>

    constructor (hasFile: bool)
      ensures asyncBuffer == [] && !exit && flushed == [] && file == [] && open == hasFile
    {
      open := hasFile;
      asyncBuffer, exit, flushed, file := [], false, [], [];
    }

    /** This object is a state of the machine, seen without its history. */
    predicate Shows(s: State)
      reads this
    {
      asyncBuffer == s.queue && exit == s.exit
    }

    /** The call is the Offer step of whatever state the object shows, as long as the
        worker does not hold the lock. */
    method AsyncFlush(c: Chunk, ghost s: State) returns (taken: bool)
      requires Shows(s) && !HoldsLock(s.worker) && c.id == NextId(s)
      modifies this`asyncBuffer
      ensures Apply(s, Offer(c.bytes)).Some? && Shows(Apply(s, Offer(c.bytes)).value)
      ensures taken <==> Apply(s, Offer(c.bytes)).value.accepted == s.accepted + [c]
      ensures !taken <==> Apply(s, Offer(c.bytes)).value.refused == s.refused + [c]
    {
      if exit {
        return false;
      }
      asyncBuffer := asyncBuffer + [c];
      taken := true;
    }

    /** Flush: a chunk with bytes goes to the file, if there is one. */
    method Flush(c: Chunk)
      modifies this`flushed, this`file
      ensures flushed == old(flushed) + [c] && file == old(file) + FileOf(open, [c])
    {
      assert [c][..0] == [] && Contents([c]) == [] + c.bytes == c.bytes;
      if open && |c.bytes| > 0 {
        file := file + c.bytes;
      } else {
        assert file + [] == file;
      }
      flushed := flushed + [c];
    }

    /** Pops from the back until the queue is empty: the queue is flushed in reverse,
        and the worker may return only if exit is set. */
    method Drain() returns (done: bool)
      modifies this`asyncBuffer, this`flushed, this`file
      ensures asyncBuffer == [] && done == exit
      ensures flushed == old(flushed) + Reversed(old(asyncBuffer))
      ensures file == old(file) + FileOf(open, Reversed(old(asyncBuffer)))
    {
      hide Contents;
      ghost var queue, out := asyncBuffer, [];
      NoContents();
      while asyncBuffer != []
        invariant out + Reversed(asyncBuffer) == Reversed(queue)
        invariant flushed == old(flushed) + out && file == old(file) + FileOf(open, out)
        decreases |asyncBuffer|
      {
        var n := |asyncBuffer| - 1;
        var data := asyncBuffer[n];
        assert out + ([data] + Reversed(asyncBuffer[..n])) == out + [data] + Reversed(asyncBuffer[..n]);
        asyncBuffer := asyncBuffer[..n];
        ContentsAppend(out, [data]);
        Flush(data);
        out := out + [data];
      }
      assert out + [] == out;
      done := exit;
    }
  }

  lemma NoContents()
    ensures Contents([]) == []
  {
  }

  function Reversed(cs: seq<Chunk>): seq<Chunk> {
    if cs == [] then [] else [cs[|cs| - 1]] + Reversed(cs[..|cs| - 1])
  }

  function FlushOnes(n: nat): seq<Step> {
    if n == 0 then [] else [FlushOne] + FlushOnes(n - 1)
  }

  /** The drain loop is one FlushOne step of the state machine per queued chunk. */
  lemma {:induction false} DrainIsFlushOnes(steps: seq<Step>)
    requires Run(steps).Some? && Run(steps).value.worker == Draining
    ensures var s := Run(steps).value;
      Run(steps + FlushOnes(|s.queue|)) == Some(s.(queue := [], flushed := s.flushed + Reversed(s.queue)))
    decreases |Run(steps).value.queue|
  {
    hide Run;
    var s := Run(steps).value;
    var n := |s.queue| - 1;
    if s.queue == [] {
      assert steps + [] == steps;
      assert s.flushed + [] == s.flushed;
    } else {
      RunSnoc(steps, FlushOne);
      var next := steps + [FlushOne];
      DrainIsFlushOnes(next);
      assert next + FlushOnes(n) == steps + FlushOnes(n + 1);
      assert s.flushed + [s.queue[n]] + Reversed(s.queue[..n]) == s.flushed + Reversed(s.queue);
    }
  }
}
