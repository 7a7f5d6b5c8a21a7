/**
 * What the calls of the hybrid queue and its pump do when no one else moves meanwhile, and that everything accepted can come out:
 * the runs of `HybridQueue` are safe, these make progress.
 */
module HybridCalls {
  import opened Sequences
  import opened Bytes
  import opened HybridQueue

  /** The channel never holds more than its size, over any run. */
  lemma {:induction false} AlwaysFits(memSize: nat, s: State, moves: seq<Move>)
    requires |s.mem| <= memSize
    ensures |Execute(memSize, s, moves).mem| <= memSize
    decreases |moves|
  {
    if moves != [] {
      FitsNext(memSize, s, moves[0]);
      AlwaysFits(memSize, Next(memSize, s, moves[0]), moves[1..]);
    }
  }

  lemma FitsNext(memSize: nat, s: State, m: Move)
    requires |s.mem| <= memSize
    ensures |Next(memSize, s, m).mem| <= memSize
  {
  }

  ghost predicate LeadsTo(memSize: nat, s: State, t: State) { exists moves :: Execute(memSize, s, moves) == t }

  lemma Moves(memSize: nat, s: State, m: Move)
    ensures LeadsTo(memSize, s, Next(memSize, s, m))
  {
    assert [m][1..] == [];
    assert Execute(memSize, s, [m]) == Next(memSize, s, m);
  }

  lemma {:induction false} ExecuteAppend(memSize: nat, s: State, a: seq<Move>, b: seq<Move>)
    ensures Execute(memSize, s, a + b) == Execute(memSize, Execute(memSize, s, a), b)
    decreases |a|
  {
    if a == [] {
      assert a + b == b;
    } else {
      assert (a + b)[1..] == a[1..] + b;
      ExecuteAppend(memSize, Next(memSize, s, a[0]), a[1..], b);
    }
  }

  lemma Chain(memSize: nat, s: State, t: State, u: State)
    requires LeadsTo(memSize, s, t) && LeadsTo(memSize, t, u)
    ensures LeadsTo(memSize, s, u)
  {
    var a :| Execute(memSize, s, a) == t;
    var b :| Execute(memSize, t, b) == u;
    ExecuteAppend(memSize, s, a, b);
  }

  lemma Stays(memSize: nat, s: State)
    ensures LeadsTo(memSize, s, s)
  {
    assert Execute(memSize, s, []) == s;
  }

  /** No call is under way, and the pump rests. */
  ghost predicate Quiet(s: State) {
    (forall i :: 0 <= i < |s.callers| ==> s.callers[i] == Ready) && s.pump == Resting
  }

  lemma QuietCounts(s: State)
    requires Invariant(s) && Quiet(s)
    ensures s.disk.mutex.None? && s.disk.writer == [] && s.counters.depth == Queued(s) && s.counters.memCount == |s.mem|
    ensures s.counters.diskBytes == |s.disk.file| - s.disk.readOffset
  {
    SumZero(DepthOwed(), s.callers);
    SumZero(CountOwed(), s.callers);
    SumZero(BytesOwed(), s.callers);
  }

  // ---- Dequeue ------------------------------------------------------------------------------------------------

  /** After a dequeue: the oldest item has left the channel, and both counts are one less. */
  function Dequeued(s: State): State
    requires s.mem != []
  {
    State(s.mem[1..], s.disk, Counters(s.counters.depth - 1, s.counters.diskBytes, s.counters.memCount - 1), s.pump, s.callers,
          s.past.(out := s.past.out + [s.mem[0]]))
  }

  lemma DequeueAlone(memSize: nat, s: State, i: nat)
    requires Invariant(s) && i < |s.callers| && s.callers[i] == Ready && s.mem != []
    ensures LeadsTo(memSize, s, Dequeued(s)) && Invariant(Dequeued(s))
  {
    var s1 := Take(s, i);
    var s2 := Tally(s1, i, TookTwo, s1.counters.(depth := s.counters.depth - 1));
    var t := Dequeued(s);
    DequeueSteps(memSize, s, i);
    assert t.callers == s2.callers[i := Ready];
    BeginKeeps(memSize, s, i, Dequeue);
    ResumeKeeps(s1, i);
    ResumeKeeps(s2, i);
    Moves(memSize, s, Caller(i, Dequeue));
    Moves(memSize, s1, Caller(i, Proceed));
    Moves(memSize, s2, Caller(i, Proceed));
    Chain(memSize, s, s1, s2);
    Chain(memSize, s, s2, t);
  }

  lemma DequeueSteps(memSize: nat, s: State, i: nat)
    requires i < |s.callers| && s.callers[i] == Ready && s.mem != []
    ensures var s1 := Take(s, i);
            var s2 := Tally(s1, i, TookTwo, s1.counters.(depth := s.counters.depth - 1));
            && Next(memSize, s, Caller(i, Dequeue)) == s1 == Begin(memSize, s, i, Dequeue)
            && Next(memSize, s1, Caller(i, Proceed)) == s2 == Resume(s1, i)
            && Next(memSize, s2, Caller(i, Proceed)) == Resume(s2, i) == Dequeued(s)
  {
    assert s.callers[i := TookOne][i := TookTwo][i := Ready] == s.callers;
  }

  /** Nothing is taken from an empty channel. */
  lemma DequeueWaits(memSize: nat, s: State, i: nat)
    requires i < |s.callers| && s.callers[i] == Ready && s.mem == []
    ensures Next(memSize, s, Caller(i, Dequeue)) == s
  {
  }

  // ---- Enqueue ------------------------------------------------------------------------------------------------

  /** After an enqueue that finds room in the channel: the payload is its newest item. */
  function EnqueuedInMemory(s: State, data: Bytes): State {
    State(s.mem + [Item(data, false)], s.disk, Counters(s.counters.depth + 1, s.counters.diskBytes, s.counters.memCount + 1), s.pump, s.callers,
          s.past.(direct := s.past.direct + [data]))
  }

  /** After one that finds none: its record is at the end of the file, flushed. */
  function EnqueuedOnDisk(s: State, data: Bytes): State {
    State(s.mem, s.disk.(file := s.disk.file + Record(data)),
          Counters(s.counters.depth + 1, s.counters.diskBytes + |Record(data)|, s.counters.memCount), s.pump, s.callers,
          s.past.(spilled := s.past.spilled + [data], unread := s.past.unread + [data]))
  }

  /** Whether the payload goes to memory or to disk is decided by the room in the channel alone. */
  lemma EnqueueAlone(memSize: nat, s: State, i: nat, data: Bytes)
    requires i < |s.callers| && s.callers[i] == Ready && s.disk.mutex.None? && s.disk.writer == []
    ensures LeadsTo(memSize, s, if |s.mem| < memSize then EnqueuedInMemory(s, data) else EnqueuedOnDisk(s, data))
  {
    if |s.mem| < memSize {
      var s1 := Send(s, i, data);
      var s2 := Tally(s1, i, SentTwo, s1.counters.(depth := s.counters.depth + 1));
      SendSteps(memSize, s, i, data);
      Moves(memSize, s, Caller(i, Enqueue(data)));
      Moves(memSize, s1, Caller(i, Proceed));
      Moves(memSize, s2, Caller(i, Proceed));
      Chain(memSize, s, s1, s2);
      Chain(memSize, s, s2, EnqueuedInMemory(s, data));
    } else {
      SpillAlone(memSize, s, i, data);
    }
  }

  lemma SendSteps(memSize: nat, s: State, i: nat, data: Bytes)
    requires i < |s.callers| && s.callers[i] == Ready && |s.mem| < memSize
    ensures var s1 := Send(s, i, data);
            var s2 := Tally(s1, i, SentTwo, s1.counters.(depth := s.counters.depth + 1));
            && Next(memSize, s, Caller(i, Enqueue(data))) == s1
            && Next(memSize, s1, Caller(i, Proceed)) == s2
            && Next(memSize, s2, Caller(i, Proceed)) == EnqueuedInMemory(s, data)
  {
    assert s.callers[i := SentOne][i := SentTwo][i := Ready] == s.callers;
  }

  lemma SpillAlone(memSize: nat, s: State, i: nat, data: Bytes)
    requires i < |s.callers| && s.callers[i] == Ready && s.disk.mutex.None? && s.disk.writer == [] && |s.mem| >= memSize
    ensures LeadsTo(memSize, s, EnqueuedOnDisk(s, data))
  {
    var s1 := Tally(s, i, WantsDisk(data), s.counters);
    var s2 := Spill(s1, i, data);
    var s3 := Tally(s2, i, Counted(data), s2.counters.(depth := s.counters.depth + 1));
    var s4 := Tally(s3, i, Sized(data), s3.counters.(diskBytes := s.counters.diskBytes + |Record(data)|));
    SpillSteps(memSize, s, i, data);
    Moves(memSize, s, Caller(i, Enqueue(data)));
    Moves(memSize, s1, Caller(i, Proceed));
    Moves(memSize, s2, Caller(i, Proceed));
    Moves(memSize, s3, Caller(i, Proceed));
    Moves(memSize, s4, Caller(i, Proceed));
    Chain(memSize, s, s1, s2);
    Chain(memSize, s, s2, s3);
    Chain(memSize, s, s3, s4);
    Chain(memSize, s, s4, EnqueuedOnDisk(s, data));
  }

  lemma SpillSteps(memSize: nat, s: State, i: nat, data: Bytes)
    requires i < |s.callers| && s.callers[i] == Ready && s.disk.mutex.None? && s.disk.writer == [] && |s.mem| >= memSize
    ensures var s1 := Tally(s, i, WantsDisk(data), s.counters);
            var s2 := Spill(s1, i, data);
            var s3 := Tally(s2, i, Counted(data), s2.counters.(depth := s.counters.depth + 1));
            var s4 := Tally(s3, i, Sized(data), s3.counters.(diskBytes := s.counters.diskBytes + |Record(data)|));
            && Next(memSize, s, Caller(i, Enqueue(data))) == s1
            && Next(memSize, s1, Caller(i, Proceed)) == s2
            && Next(memSize, s2, Caller(i, Proceed)) == s3
            && Next(memSize, s3, Caller(i, Proceed)) == s4
            && Next(memSize, s4, Caller(i, Proceed)) == EnqueuedOnDisk(s, data)
  {
    assert [] + Record(data) == Record(data);
    assert s.callers[i := WantsDisk(data)][i := Written(data)][i := Counted(data)][i := Sized(data)][i := Ready] == s.callers;
  }

  // ---- The pump -----------------------------------------------------------------------------------------------

  /** After a round of the pump: the oldest payload on disk is the newest item in the channel. */
  function Pumped(s: State): State
    requires s.past.unread != []
  {
    var data := s.past.unread[0];
    State(s.mem + [Item(data, true)], s.disk.(readOffset := s.disk.readOffset + |Record(data)|),
          Counters(s.counters.depth, s.counters.diskBytes - |Record(data)|, s.counters.memCount + 1), Resting, s.callers,
          s.past.(unread := s.past.unread[1..]))
  }

  /** With room in the channel and data on disk, the pump delivers. */
  lemma PumpAlone(memSize: nat, s: State)
    requires Invariant(s) && Quiet(s) && s.past.unread != [] && |s.mem| < memSize
    ensures LeadsTo(memSize, s, Pumped(s)) && Invariant(Pumped(s))
  {
    var s1, s2, s3, s4 := s.(pump := HasRoom), s.(pump := Wanting), InPumpHand(s), Sent(s);
    PumpFinds(memSize, s);
    PumpReads(memSize, s);
    PumpSends(memSize, s);
    PumpCounts(memSize, s);
    PumpKeeps(memSize, s, PumpCheck);
    PumpKeeps(memSize, s1, PumpLook);
    PumpKeeps(memSize, s2, PumpRead);
    PumpKeeps(memSize, s3, PumpSend);
    PumpKeeps(memSize, s4, PumpCount);
    Chain(memSize, s, s1, s2);
    Chain(memSize, s, s2, s3);
    Chain(memSize, s, s3, s4);
    Chain(memSize, s, s4, Pumped(s));
  }

  /** It finds room in the channel and data on disk. */
  lemma PumpFinds(memSize: nat, s: State)
    requires Invariant(s) && Quiet(s) && s.past.unread != [] && |s.mem| < memSize
    ensures PumpStep(memSize, s, PumpCheck) == s.(pump := HasRoom)
    ensures PumpStep(memSize, s.(pump := HasRoom), PumpLook) == s.(pump := Wanting)
    ensures LeadsTo(memSize, s, s.(pump := HasRoom)) && LeadsTo(memSize, s.(pump := HasRoom), s.(pump := Wanting))
  {
    QuietCounts(s);
    PumpReadsOldest(s);
    Moves(memSize, s, PumpCheck);
    Moves(memSize, s.(pump := HasRoom), PumpLook);
  }

  /** The payload read, the channel as it was. */
  function InPumpHand(s: State): State
    requires s.past.unread != []
  {
    Pumped(s).(mem := s.mem, pump := Holding(s.past.unread[0]), counters := Pumped(s).counters.(memCount := s.counters.memCount))
  }

  /** The payload sent, but not counted. */
  function Sent(s: State): State
    requires s.past.unread != []
  {
    Pumped(s).(pump := Delivered, counters := Pumped(s).counters.(memCount := s.counters.memCount))
  }

  lemma PumpReads(memSize: nat, s: State)
    requires Invariant(s) && Quiet(s) && s.past.unread != []
    ensures PumpStep(memSize, s.(pump := Wanting), PumpRead) == InPumpHand(s) && LeadsTo(memSize, s.(pump := Wanting), InPumpHand(s))
  {
    QuietCounts(s);
    PumpReadsOldest(s);
    Moves(memSize, s.(pump := Wanting), PumpRead);
  }

  lemma PumpSends(memSize: nat, s: State)
    requires s.past.unread != [] && |s.mem| < memSize
    ensures PumpStep(memSize, InPumpHand(s), PumpSend) == Sent(s) && LeadsTo(memSize, InPumpHand(s), Sent(s))
  {
    Moves(memSize, InPumpHand(s), PumpSend);
  }

  lemma PumpCounts(memSize: nat, s: State)
    requires s.past.unread != []
    ensures PumpStep(memSize, Sent(s), PumpCount) == Pumped(s) && LeadsTo(memSize, Sent(s), Pumped(s))
  {
    Moves(memSize, Sent(s), PumpCount);
  }

  /** It rests while the channel is full or the disk is empty. */
  lemma PumpRests(memSize: nat, s: State)
    requires Invariant(s) && Quiet(s) && (s.past.unread == [] || |s.mem| >= memSize)
    ensures PumpStep(memSize, s, PumpCheck) == s || PumpStep(memSize, PumpStep(memSize, s, PumpCheck), PumpLook) == s
  {
    QuietCounts(s);
    PumpReadsOldest(s);
  }

  /** At a payload over 10 MiB it passes over the length prefix alone, delivers nothing and leaves the count of disk bytes: what it
      parses next are the bytes of the payload. */
  lemma PumpPassesPrefix(memSize: nat, s: State, before: Bytes, data: Bytes, after: Bytes)
    requires s.pump == Wanting && s.disk.mutex.None? && |data| % 0x1_0000_0000 > MAX_MESSAGE
    requires s.disk.file == before + Record(data) + after && s.disk.readOffset == |before|
    ensures var t := PumpStep(memSize, s, PumpRead);
            t == s.(pump := Resting, disk := s.disk.(readOffset := |before| + 4)) && t.disk.file[t.disk.readOffset..] == data + after
  {
    OversizedIsParsed(before, data, after);
  }

  // ---- Everything comes out -------------------------------------------------------------------------------------

  /** From any quiet state a run of dequeues and pump rounds empties the queue: every payload accepted is then dequeued, those that
      went through memory and those that went through disk each in the order they came. */
  lemma {:induction false} Drains(memSize: nat, s: State) returns (t: State)
    requires Invariant(s) && Quiet(s) && s.callers != [] && memSize >= 1
    ensures LeadsTo(memSize, s, t) && Invariant(t) && Quiet(t) && Queued(t) == 0
    ensures t.past.direct == s.past.direct && t.past.spilled == s.past.spilled
    ensures Via(false, t.past.out) == s.past.direct && Via(true, t.past.out) == s.past.spilled
    decreases Queued(s)
  {
    if s.mem == [] && s.past.unread == [] {
      t := s;
      Stays(memSize, s);
      AllOut(s);
    } else {
      DrainsOne(memSize, s);
      t := Drains(memSize, OneOut(s));
      Chain(memSize, s, OneOut(s), t);
    }
  }

  /** One payload less: from memory if there is one, and else from disk. */
  function OneOut(s: State): State
    requires s.mem != [] || s.past.unread != []
  {
    Dequeued(if s.mem != [] then s else Pumped(s))
  }

  lemma DrainsOne(memSize: nat, s: State)
    requires Invariant(s) && Quiet(s) && s.callers != [] && memSize >= 1 && (s.mem != [] || s.past.unread != [])
    ensures LeadsTo(memSize, s, OneOut(s)) && Invariant(OneOut(s)) && Quiet(OneOut(s)) && Queued(OneOut(s)) < Queued(s)
    ensures OneOut(s).callers == s.callers && OneOut(s).past.direct == s.past.direct && OneOut(s).past.spilled == s.past.spilled
  {
    if s.mem != [] {
      DequeueAlone(memSize, s, 0);
    } else {
      PumpAlone(memSize, s);
      DequeueAlone(memSize, Pumped(s), 0);
      Chain(memSize, s, Pumped(s), OneOut(s));
    }
  }

  lemma AllOut(s: State)
    requires Invariant(s) && Quiet(s) && s.mem == [] && s.past.unread == []
    ensures Via(false, s.past.out) == s.past.direct && Via(true, s.past.out) == s.past.spilled
  {
    var through := Via(true, s.past.out);
    assert through + [] + [] + [] == through && Via(false, s.past.out) + [] == Via(false, s.past.out);
  }
}
