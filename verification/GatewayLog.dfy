/** The gateway's bounded, single-writer log: request tasks send records under
    one lock, one writer thread drains them, and a flush takes both ends of the
    channel and waits for the writer until a deadline. Every step below is one
    atomic action of one thread; counters are stepped apart from the channel, as
    the code does. */
module GatewayLog {
  import opened Sequences

  type Record = string
  type FlushId = nat

  datatype Writer =
    | Idle                      // waiting in the receiver
    | InHand(record: Record)    // taken from the queue, not yet finished
    | Exited                    // saw the channel closed and signalled
    | Dead(lost: seq<Record>)   // stopped without signalling

  datatype FlushPhase =
    | Waiting                        // took both halves
    | ReadQueued(queued: nat)        // deadline passed, first counter read
    | Done(outcome: Outcome)

  datatype Outcome = Drained | TimedOut(pendingAtDeadline: nat) | AlreadyStopped

  datatype State = State(
    capacity: nat,
    senderPresent: bool,
    receiverPresent: bool,           // the writer's end of the record channel
    stopReceiverPresent: bool,       // the flush's half of the stop signal
    queue: seq<Record>,
    writer: Writer,
    counting: bool,                  // a write holds the lock, its record sent but not counted
    queuedRecords: nat,
    writtenRecords: nat,
    droppedRecords: nat,
    dropsToCount: nat,               // refused writes that have left the lock
    flushes: map<FlushId, FlushPhase>,
    accepted: seq<Record>,           // history: accepted records in order
    finished: seq<Record>,           // history: records the writer finished, in order
    completedWrites: nat)            // history: writes that returned

  function Initial(capacity: nat): State {
    State(capacity, true, true, true, [], Idle, false, 0, 0, 0, 0, map[], [], [], 0)
  }

  datatype Event =
    | Send(record: Record)           // a write takes the lock and tries to send
    | CountQueued                    // the same write counts it and leaves the lock
    | CountDropped                   // a refused write counts its drop
    | Take                           // the writer takes the oldest record
    | Finish                         // the writer finishes it, written or failed
    | Exit                           // the queue is empty and the sender gone
    | Crash
    | FlushTake(id: FlushId)         // a flush takes both halves under the lock
    | FlushSignalled(id: FlushId)    // ... hears the writer stop
    | FlushDeadline(id: FlushId)     // ... gives up and reads the queued count
    | FlushReport(id: FlushId)       // ... reads the written count

  predicate LockFree(s: State) {
    !s.counting
  }

  predicate Enabled(s: State, e: Event) {
    match e
    case Send(_) => LockFree(s)
    case CountQueued => s.counting
    case CountDropped => s.dropsToCount > 0
    case Take => s.writer.Idle? && s.queue != []
    case Finish => s.writer.InHand?
    case Exit => s.writer.Idle? && s.queue == [] && !s.senderPresent
    case Crash => s.writer.Idle? || s.writer.InHand?
    case FlushTake(id) => LockFree(s) && id !in s.flushes
    case FlushSignalled(id) => id in s.flushes && s.flushes[id].Waiting? && s.writer.Exited?
    case FlushDeadline(id) => id in s.flushes && s.flushes[id].Waiting?
    case FlushReport(id) => id in s.flushes && s.flushes[id].ReadQueued?
  }

  function SaturatingSub(a: nat, b: nat): nat {
    if a >= b then a - b else 0
  }

  /** A write sends only while the sender is there, the writer alive and the
      queue not full; anything else refuses the record. */
  predicate Accepts(s: State) {
    s.senderPresent && s.receiverPresent && |s.queue| < s.capacity
  }

  function Apply(s: State, e: Event): State
    requires Enabled(s, e)
  {
    match e
    case Send(record) =>
      if Accepts(s) then s.(queue := s.queue + [record], accepted := s.accepted + [record], counting := true)
      else s.(dropsToCount := s.dropsToCount + 1)
    case CountQueued =>
      s.(queuedRecords := s.queuedRecords + 1, counting := false, completedWrites := s.completedWrites + 1)
    case CountDropped =>
      s.(droppedRecords := s.droppedRecords + 1, dropsToCount := s.dropsToCount - 1,
         completedWrites := s.completedWrites + 1)
    case Take => s.(writer := InHand(s.queue[0]), queue := s.queue[1..])
    case Finish =>
      s.(writer := Idle, writtenRecords := s.writtenRecords + 1, finished := s.finished + [s.writer.record])
    case Exit => s.(writer := Exited, receiverPresent := false)
    case Crash =>
      s.(writer := Dead((if s.writer.InHand? then [s.writer.record] else []) + s.queue),
         queue := [], receiverPresent := false)
    case FlushTake(id) =>
      if s.senderPresent && s.stopReceiverPresent
      then s.(senderPresent := false, stopReceiverPresent := false, flushes := s.flushes[id := Waiting])
      else s.(senderPresent := false, stopReceiverPresent := false, flushes := s.flushes[id := Done(AlreadyStopped)])
    case FlushSignalled(id) => s.(flushes := s.flushes[id := Done(Drained)])
    case FlushDeadline(id) => s.(flushes := s.flushes[id := ReadQueued(s.queuedRecords)])
    case FlushReport(id) =>
      s.(flushes := s.flushes[id := Done(TimedOut(SaturatingSub(s.flushes[id].queued, s.writtenRecords)))])
  }

  // ---------------------------------------------------------------- invariant

  function HeldBy(w: Writer): seq<Record> {
    match w
    case InHand(record) => [record]
    case Dead(lost) => lost
    case _ => []
  }

  /** No record is lost, added or reordered between acceptance and the file. */
  ghost predicate Conserved(s: State) {
    s.finished + HeldBy(s.writer) + s.queue == s.accepted
  }

  ghost predicate Counted(s: State) {
    && s.queuedRecords + (if s.counting then 1 else 0) == |s.accepted|
    && s.writtenRecords == |s.finished|
    && s.queuedRecords + s.droppedRecords == s.completedWrites
  }

  ghost predicate WriterSound(s: State) {
    && (s.writer.Exited? ==> !s.senderPresent && s.queue == [])
    && (s.writer.Dead? ==> s.queue == [])
    && (s.receiverPresent <==> s.writer.Idle? || s.writer.InHand?)
    && (s.counting ==> s.senderPresent)
  }

  /** The flush that took the channel: the one that did not find it taken. */
  predicate Owns(p: FlushPhase) {
    p != Done(AlreadyStopped)
  }

  ghost predicate FlushSound(s: State) {
    && s.senderPresent == s.stopReceiverPresent
    && (s.senderPresent <==> s.flushes == map[])
    && (s.flushes != map[] ==> exists id :: id in s.flushes && Owns(s.flushes[id]))
    && (forall a, b :: a in s.flushes && b in s.flushes && Owns(s.flushes[a]) && Owns(s.flushes[b]) ==> a == b)
    && (forall id :: id in s.flushes && s.flushes[id].ReadQueued? ==> s.flushes[id].queued == |s.accepted|)
    && (forall id :: id in s.flushes && s.flushes[id] == Done(Drained) ==> s.writer.Exited?)
  }

  ghost predicate Inv(s: State) {
    Conserved(s) && Counted(s) && WriterSound(s) && FlushSound(s)
  }

  lemma ConservedKept(s: State, e: Event)
    requires Conserved(s) && WriterSound(s) && Enabled(s, e)
    ensures Conserved(Apply(s, e))
  {
    var s' := Apply(s, e);
    match e
    case Send(record) => Regroup(s.finished + HeldBy(s.writer), s.queue, [record]);
    case Take =>
      Neutral(s.finished);
      assert HeldBy(s.writer) == [] && s.queue == HeldBy(s'.writer) + s'.queue;
      Regroup(s.finished, HeldBy(s'.writer), s'.queue);
    case Finish => assert s'.finished + HeldBy(s'.writer) == s.finished + HeldBy(s.writer);
    case Exit => assert HeldBy(s.writer) == HeldBy(s'.writer);
    case Crash =>
      assert HeldBy(s'.writer) == HeldBy(s.writer) + s.queue;
      Regroup(s.finished, HeldBy(s.writer), s.queue);
    case _ =>
  }

  lemma OthersKept(s: State, e: Event)
    requires Inv(s) && Enabled(s, e)
    ensures Counted(Apply(s, e)) && WriterSound(Apply(s, e))
  {
  }

  lemma FlushKept(s: State, e: Event)
    requires Inv(s) && Enabled(s, e)
    ensures FlushSound(Apply(s, e))
  {
    var s' := Apply(s, e);
    if e.FlushTake? {
      assert e.id in s'.flushes;
      if s.flushes != map[] {
        var owner :| owner in s.flushes && Owns(s.flushes[owner]);
        assert owner in s'.flushes && Owns(s'.flushes[owner]);
      }
    } else if e.FlushSignalled? || e.FlushDeadline? || e.FlushReport? {
      assert e.id in s.flushes && Owns(s.flushes[e.id]) && Owns(s'.flushes[e.id]);
    }
  }

  // --------------------------------------------------------------------- runs

  ghost predicate Reachable(s: State, capacity: nat, events: seq<Event>)
    decreases events
  {
    if events == [] then s == Initial(capacity)
    else
      var last := |events| - 1;
      exists before :: Reachable(before, capacity, events[..last]) && Enabled(before, events[last]) &&
                       s == Apply(before, events[last])
  }

  lemma {:induction false} ReachableInv(s: State, capacity: nat, events: seq<Event>)
    requires Reachable(s, capacity, events)
    ensures Inv(s)
    decreases events
  {
    if events != [] {
      var last := |events| - 1;
      var before :| Reachable(before, capacity, events[..last]) && Enabled(before, events[last]) &&
                    s == Apply(before, events[last]);
      ReachableInv(before, capacity, events[..last]);
      StepKept(before, events[last]);
    }
  }

  /** In every reachable state the finished, held and queued records are the
      accepted ones in order, and accepted plus dropped are the completed writes
      (plus the one write that is between sending and counting). */
  lemma RecordsAreConserved(s: State, capacity: nat, events: seq<Event>)
    requires Reachable(s, capacity, events)
    ensures s.finished + HeldBy(s.writer) + s.queue == s.accepted
    ensures |s.accepted| + s.droppedRecords == s.completedWrites + if s.counting then 1 else 0
  {
    ReachableInv(s, capacity, events);
  }

  /** Once any flush has taken the channel, exactly one flush is not told the log
      was already stopped. */
  lemma ExactlyOneFlushOwns(s: State, capacity: nat, events: seq<Event>)
    requires Reachable(s, capacity, events) && s.flushes != map[]
    ensures exists id :: id in s.flushes && Owns(s.flushes[id]) &&
              forall other :: other in s.flushes && other != id ==> s.flushes[other] == Done(AlreadyStopped)
  {
    ReachableInv(s, capacity, events);
    var id :| id in s.flushes && Owns(s.flushes[id]);
    forall other | other in s.flushes && other != id ensures s.flushes[other] == Done(AlreadyStopped) {
      assert !Owns(s.flushes[other]);
    }
  }

  /** `Drained` means every accepted record was finished, in order. */
  lemma DrainedMeansFinished(s: State, capacity: nat, events: seq<Event>, id: FlushId)
    requires Reachable(s, capacity, events) && id in s.flushes && s.flushes[id] == Done(Drained)
    ensures s.finished == s.accepted && s.queue == []
  {
    ReachableInv(s, capacity, events);
    AllFinished(s);
  }

  /** The pending count at the deadline is exact for the moment it is taken: the
      saturation never takes part, whatever the counters did before. */
  lemma PendingNeverUnderflows(s: State, capacity: nat, events: seq<Event>, id: FlushId)
    requires Reachable(s, capacity, events) && Enabled(s, FlushReport(id))
    ensures s.writtenRecords <= s.flushes[id].queued
    ensures Apply(s, FlushReport(id)).flushes[id] ==
            Done(TimedOut(|HeldBy(s.writer)| + |s.queue|))
  {
    ReachableInv(s, capacity, events);
    ReportIsExact(s, id);
  }

  lemma ReportIsExact(s: State, id: FlushId)
    requires Inv(s) && Enabled(s, FlushReport(id))
    ensures s.writtenRecords <= s.flushes[id].queued
    ensures Apply(s, FlushReport(id)).flushes[id] == Done(TimedOut(|HeldBy(s.writer)| + |s.queue|))
  {
    PendingIsUnfinished(s, id);
  }

  lemma PendingIsUnfinished(s: State, id: FlushId)
    requires Inv(s) && id in s.flushes && s.flushes[id].ReadQueued?
    ensures s.flushes[id].queued == s.writtenRecords + (|HeldBy(s.writer)| + |s.queue|)
  {
    assert s.flushes[id].queued == |s.accepted|;
    assert |s.finished + HeldBy(s.writer) + s.queue| == |s.accepted|;
  }

  /** A deadline's report bounds the records still unfinished. */
  ghost predicate ReportsBound(s: State) {
    forall id :: id in s.flushes && s.flushes[id].Done? && s.flushes[id].outcome.TimedOut? ==>
      |s.accepted| - |s.finished| <= s.flushes[id].outcome.pendingAtDeadline
  }

  lemma ReportsBoundKept(s: State, e: Event)
    requires Inv(s) && Enabled(s, e) && ReportsBound(s)
    ensures ReportsBound(Apply(s, e))
  {
  }

  /** In every state from a deadline's report on, however the writer went on or died,
      at most as many accepted records are unfinished as were reported. */
  lemma {:induction false} PendingBoundsTheLoss(s: State, capacity: nat, events: seq<Event>)
    requires Reachable(s, capacity, events)
    ensures ReportsBound(s)
    decreases events
  {
    if events != [] {
      var last := |events| - 1;
      var before :| Reachable(before, capacity, events[..last]) && Enabled(before, events[last]) &&
                    s == Apply(before, events[last]);
      ReachableInv(before, capacity, events[..last]);
      PendingBoundsTheLoss(before, capacity, events[..last]);
      ReportsBoundKept(before, events[last]);
    }
  }

  lemma QueueFitsKept(s: State, e: Event)
    requires Enabled(s, e) && |s.queue| <= s.capacity
    ensures Apply(s, e).capacity == s.capacity && |Apply(s, e).queue| <= s.capacity
  {
  }

  lemma {:induction false} QueueFits(s: State, capacity: nat, events: seq<Event>)
    requires Reachable(s, capacity, events)
    ensures s.capacity == capacity && |s.queue| <= capacity
    decreases events
  {
    if events != [] {
      var last := |events| - 1;
      var before :| Reachable(before, capacity, events[..last]) && Enabled(before, events[last]) &&
                    s == Apply(before, events[last]);
      QueueFits(before, capacity, events[..last]);
      QueueFitsKept(before, events[last]);
    }
  }

  /** A record is accepted exactly if no flush has begun, the writer runs and the queue
      has room; otherwise it is dropped, and nothing else changes but the count to come. */
  lemma AcceptedIff(s: State, capacity: nat, events: seq<Event>, record: Record)
    requires Reachable(s, capacity, events) && Enabled(s, Send(record))
    ensures var after := Apply(s, Send(record));
            if s.flushes == map[] && (s.writer.Idle? || s.writer.InHand?) && |s.queue| < capacity
            then after.accepted == s.accepted + [record] && after.queue == s.queue + [record] &&
                 after.dropsToCount == s.dropsToCount
            else after == s.(dropsToCount := s.dropsToCount + 1)
  {
    ReachableInv(s, capacity, events);
    QueueFits(s, capacity, events);
  }

  /** After a flush has taken the channel nothing more is accepted. */
  lemma NothingAcceptedAfterFlush(s: State, capacity: nat, events: seq<Event>, e: Event)
    requires Reachable(s, capacity, events) && s.flushes != map[] && Enabled(s, e)
    ensures Apply(s, e).accepted == s.accepted
  {
    ReachableInv(s, capacity, events);
  }

  /** The counters alone can disagree: the writer may finish a record before its
      sender has counted it. */
  lemma WrittenCanLeadQueued()
    ensures exists s, events :: Reachable(s, 1, events) && s.writtenRecords > s.queuedRecords
  {
    var s0 := Initial(1);
    var s1 := Apply(s0, Send(""));
    var s2 := Apply(s1, Take);
    var s3 := Apply(s2, Finish);
    var e0: seq<Event> := [];
    assert Reachable(s0, 1, e0);
    ReachableNext(s0, 1, e0, Send(""));
    ReachableNext(s1, 1, e0 + [Send("")], Take);
    ReachableNext(s2, 1, e0 + [Send("")] + [Take], Finish);
    assert Reachable(s3, 1, e0 + [Send("")] + [Take] + [Finish]);
  }

  lemma ReachableNext(s: State, capacity: nat, events: seq<Event>, e: Event)
    requires Reachable(s, capacity, events) && Enabled(s, e)
    ensures Reachable(Apply(s, e), capacity, events + [e])
  {
    var longer := events + [e];
    assert longer[..|longer| - 1] == events && longer[|longer| - 1] == e;
  }

  // --------------------------------------------------------------- the object

  /** The log itself; each method runs the steps its thread takes between two
      points where another thread may act. */
  class Log {
    const capacity: nat
    var senderPresent: bool
    var receiverPresent: bool
    var stopReceiverPresent: bool
    var queue: seq<Record>
    var writer: Writer
    var queuedRecords: nat
    var writtenRecords: nat
    var droppedRecords: nat
    var flushes: map<FlushId, FlushPhase>
    ghost var accepted: seq<Record>
    ghost var finished: seq<Record>
    ghost var completedWrites: nat

    constructor (capacity: nat)
      ensures Now() == Initial(capacity)
    {
      this.capacity := capacity;
      senderPresent, receiverPresent, stopReceiverPresent := true, true, true;
      queue, writer, flushes, accepted, finished := [], Idle, map[], [], [];
      queuedRecords, writtenRecords, droppedRecords, completedWrites := 0, 0, 0, 0;
    }

    /** The state between two lock holders. */
    ghost function Now(): State
      reads this
    {
      State(capacity, senderPresent, receiverPresent, stopReceiverPresent, queue, writer, false,
            queuedRecords, writtenRecords, droppedRecords, 0, flushes, accepted, finished, completedWrites)
    }

    method Write(record: Record) returns (sent: bool)
      modifies this
      ensures sent <==> Accepts(old(Now()))
      ensures Now() == Apply(Apply(old(Now()), Send(record)), if sent then CountQueued else CountDropped)
    {
      sent := false;
      if senderPresent {
        if receiverPresent && |queue| < capacity {
          queue := queue + [record];
          accepted := accepted + [record];
          queuedRecords := queuedRecords + 1;
          sent := true;
        }
      }
      if !sent {
        droppedRecords := droppedRecords + 1;
      }
      completedWrites := completedWrites + 1;
    }

    method TakeChannel(id: FlushId) returns (owner: bool)
      requires Enabled(Now(), FlushTake(id))
      modifies this
      ensures Now() == Apply(old(Now()), FlushTake(id))
      ensures owner <==> flushes[id].Waiting?
    {
      owner := senderPresent && stopReceiverPresent;
      senderPresent, stopReceiverPresent := false, false;
      flushes := flushes[id := if owner then Waiting else Done(AlreadyStopped)];
    }

    /** What the waiting flush reports, having heard the writer or not. */
    method AwaitWriter(id: FlushId, heard: bool) returns (outcome: Outcome)
      requires id in flushes && flushes[id].Waiting? && (heard ==> writer.Exited?)
      modifies this
      ensures Now() == if heard then Apply(old(Now()), FlushSignalled(id))
                       else Apply(Apply(old(Now()), FlushDeadline(id)), FlushReport(id))
      ensures flushes[id] == Done(outcome)
    {
      if heard {
        outcome := Drained;
      } else {
        outcome := TimedOut(SaturatingSub(queuedRecords, writtenRecords));
      }
      flushes := flushes[id := Done(outcome)];
    }

    method WriteNext()
      requires Enabled(Now(), Take)
      modifies this
      ensures Now() == Apply(Apply(old(Now()), Take), Finish)
    {
      var line := queue[0];
      queue := queue[1..];
      finished := finished + [line];
      writtenRecords := writtenRecords + 1;
    }

    method StopWriter()
      requires Enabled(Now(), Exit)
      modifies this
      ensures Now() == Apply(old(Now()), Exit)
    {
      writer, receiverPresent := Exited, false;
    }

    /** The writer's loop once the sender is gone: it finishes every record still
        queued before it sees the channel closed. */
    method DrainAndExit()
      requires Inv(Now()) && writer.Idle? && !senderPresent
      modifies this
      ensures Inv(Now()) && writer.Exited? && finished == accepted == old(accepted)
      ensures writtenRecords == queuedRecords == old(queuedRecords) && flushes == old(flushes)
    {
      while queue != []
        invariant Inv(Now()) && writer.Idle? && !senderPresent
        invariant accepted == old(accepted) && queuedRecords == old(queuedRecords) && flushes == old(flushes)
        decreases |queue|
      {
        StepKept(Now(), Take);
        StepKept(Apply(Now(), Take), Finish);
        WriteNext();
      }
      StepKept(Now(), Exit);
      StopWriter();
      AllFinished(Now());
    }
  }

  lemma AllFinished(s: State)
    requires Inv(s) && s.writer.Exited?
    ensures s.finished == s.accepted && s.writtenRecords == s.queuedRecords
  {
    assert s.finished + [] + [] == s.finished;
  }

  lemma StepKept(s: State, e: Event)
    requires Inv(s) && Enabled(s, e)
    ensures Inv(Apply(s, e))
  {
    ConservedKept(s, e);
    OthersKept(s, e);
    FlushKept(s, e);
  }
}
