/**
 * The hybrid queue: a bounded channel in memory with overflow to an append-only file, read back by a background pump.
 * Every operation on the channel, on a counter or under the disk mutex is one step; a run is any interleaving of any
 * number of producers and consumers with the pump, on an open queue with a fresh file and no I/O errors.
 */
module HybridQueue {
  import opened Sequences
  import opened Bytes

  // ---- Records in the overflow file ------------------------------------------------------------------------

  const MAX_MESSAGE := 10 * 1024 * 1024

  /** Length prefix and data; the length is cut to 32 bits. */
  function Record(data: Bytes): (r: Bytes)
    ensures |r| == 4 + |data|
  {
    Be32(|data| % 0x1_0000_0000) + data
  }

  function Records(messages: seq<Bytes>): Bytes {
    if messages == [] then [] else Record(messages[0]) + Records(messages[1..])
  }

  lemma {:induction false} RecordsAppend(a: seq<Bytes>, b: seq<Bytes>)
    ensures Records(a + b) == Records(a) + Records(b)
  {
    if a == [] {
      assert a + b == b;
    } else {
      assert (a + b)[1..] == a[1..] + b;
      RecordsAppend(a[1..], b);
      Associative(Record(a[0]), Records(a[1..]), Records(b));
    }
  }

  datatype ReadResult = Nothing | Corrupted(next: nat) | Message(data: Bytes, next: nat)

  /** What `readFromDisk` finds at `offset`. */
  function ReadRecord(file: Bytes, offset: nat): ReadResult {
    if offset + 4 > |file| then Nothing
    else
      var length := FromBe32(file[offset..offset + 4]);
      if length > MAX_MESSAGE then Corrupted(offset + 4)
      else if offset + 4 + length > |file| then Nothing
      else Message(file[offset + 4..offset + 4 + length], offset + 4 + length)
  }

  /** A record parses back to its message exactly when the message is at most 10 MiB, whatever surrounds it. */
  lemma RecordRoundTrip(before: Bytes, data: Bytes, after: Bytes)
    ensures ReadRecord(before + Record(data) + after, |before|) == Message(data, |before| + 4 + |data|)
            <==> |data| <= MAX_MESSAGE
  {
    var file := before + Record(data) + after;
    var n := |before|;
    var prefix := Be32(|data| % 0x1_0000_0000);
    assert file[n..n + 4] == prefix;
    assert FromBe32(file[n..n + 4]) == |data| % 0x1_0000_0000;
    if |data| <= MAX_MESSAGE {
      assert file[n + 4..n + 4 + |data|] == data;
    }
  }

  /** Over 10 MiB, as the length prefix has it, only the prefix is passed over: what is read next is parsed from the bytes
      of the payload itself, and so are the records behind it. */
  lemma OversizedIsParsed(before: Bytes, data: Bytes, after: Bytes)
    requires |data| % 0x1_0000_0000 > MAX_MESSAGE
    ensures var file := before + Record(data) + after;
            && ReadRecord(file, |before|) == Corrupted(|before| + 4)
            && file[|before| + 4..] == data + after
  {
    var file, n := before + Record(data) + after, |before|;
    assert file[n..n + 4] == Be32(|data| % 0x1_0000_0000);
    assert file[n + 4..] == data + after;
  }

  // ---- The protocol ----------------------------------------------------------------------------------------

  datatype Item = Item(data: Bytes, viaDisk: bool)

  /** What a producer or consumer does next. */
  datatype Pc =
    | Ready
    | SentOne                     // in the channel; depth is next
    | SentTwo                     // memory count is next
    | WantsDisk(data: Bytes)      // the channel was full
    | Written(data: Bytes)        // holds the disk mutex, record handed to the writer; depth is next
    | Counted(data: Bytes)        // disk bytes are next
    | Sized(data: Bytes)          // flush and unlock are next
    | TookOne                     // out of the channel; depth is next
    | TookTwo                     // memory count is next

  /** The pump looks at the memory count and at the disk bytes one after the other: both may change in between. */
  datatype Pump = Resting | HasRoom | Wanting | Holding(data: Bytes) | Delivered

  datatype Action = Enqueue(data: Bytes) | Dequeue | Proceed

  datatype Move = Caller(i: nat, action: Action) | PumpCheck | PumpLook | PumpRead | PumpSend | PumpCount

  datatype Disk = Disk(file: Bytes, writer: Bytes, readOffset: nat, mutex: Option<nat>)

  datatype Counters = Counters(depth: int, diskBytes: int, memCount: int)

  /** What has happened: `direct` and `spilled` are the payloads accepted into memory and onto disk, `out` the payloads
      dequeued, `unread` the spilled ones that the pump has not read. */
  datatype History = History(direct: seq<Bytes>, spilled: seq<Bytes>, unread: seq<Bytes>, out: seq<Item>)

  datatype State = State(mem: seq<Item>, disk: Disk, counters: Counters, pump: Pump, callers: seq<Pc>, past: History)

  function Initial(callers: nat): State {
    State([], Disk([], [], 0, None), Counters(0, 0, 0), Resting, seq(callers, _ => Ready), History([], [], [], []))
  }

  /** Into the channel. */
  function Send(s: State, i: nat, data: Bytes): State
    requires i < |s.callers|
  {
    State(s.mem + [Item(data, false)], s.disk, s.counters, s.pump, s.callers[i := SentOne],
          s.past.(direct := s.past.direct + [data]))
  }

  /** Out of the channel. */
  function Take(s: State, i: nat): State
    requires i < |s.callers| && s.mem != []
  {
    State(s.mem[1..], s.disk, s.counters, s.pump, s.callers[i := TookOne], s.past.(out := s.past.out + [s.mem[0]]))
  }

  /** Locks the disk mutex and hands the record to the file writer. */
  function Spill(s: State, i: nat, data: Bytes): State
    requires i < |s.callers|
  {
    State(s.mem, s.disk.(writer := s.disk.writer + Record(data), mutex := Some(i)), s.counters, s.pump,
          s.callers[i := Written(data)],
          s.past.(spilled := s.past.spilled + [data], unread := s.past.unread + [data]))
  }

  /** Flushes the writer and unlocks. */
  function Flush(s: State, i: nat): State
    requires i < |s.callers|
  {
    State(s.mem, Disk(s.disk.file + s.disk.writer, [], s.disk.readOffset, None), s.counters, s.pump, s.callers[i := Ready], s.past)
  }

  /** Changes counters only. */
  function Tally(s: State, i: nat, pc: Pc, counters: Counters): State
    requires i < |s.callers|
  {
    State(s.mem, s.disk, counters, s.pump, s.callers[i := pc], s.past)
  }

  /** A new `Enqueue` or `Dequeue`. */
  function Begin(memSize: nat, s: State, i: nat, action: Action): State
    requires i < |s.callers| && s.callers[i].Ready?
  {
    match action
    case Enqueue(data) => if |s.mem| < memSize then Send(s, i, data) else Tally(s, i, WantsDisk(data), s.counters)
    case Dequeue => if s.mem == [] then s else Take(s, i)
    case Proceed => s
  }

  /** The steps that pay a counter update. */
  function Pay(pc: Pc, c: Counters): (Pc, Counters) {
    match pc
    case SentOne => (SentTwo, c.(depth := c.depth + 1))
    case SentTwo => (Ready, c.(memCount := c.memCount + 1))
    case Written(data) => (Counted(data), c.(depth := c.depth + 1))
    case Counted(data) => (Sized(data), c.(diskBytes := c.diskBytes + |Record(data)|))
    case TookOne => (TookTwo, c.(depth := c.depth - 1))
    case TookTwo => (Ready, c.(memCount := c.memCount - 1))
    case _ => (pc, c)
  }

  /** The next step of a call that has begun. */
  function Resume(s: State, i: nat): State
    requires i < |s.callers|
  {
    var pc := s.callers[i];
    if pc.WantsDisk? then if s.disk.mutex.Some? then s else Spill(s, i, pc.data)
    else if pc.Sized? then Flush(s, i)
    else Tally(s, i, Pay(pc, s.counters).0, Pay(pc, s.counters).1)
  }

  predicate HasDiskData(s: State) { s.counters.diskBytes > 0 }

  /** `readFromDisk`, which runs under the mutex from end to end. */
  function ReadBack(s: State): State {
    match ReadRecord(s.disk.file, s.disk.readOffset)
    case Nothing => s.(pump := Resting)
    case Corrupted(next) => s.(pump := Resting, disk := s.disk.(readOffset := next))
    case Message(data, next) =>
      State(s.mem, s.disk.(readOffset := next),
            s.counters.(diskBytes := s.counters.diskBytes - (next - s.disk.readOffset)), Holding(data), s.callers,
            s.past.(unread := if s.past.unread == [] then [] else s.past.unread[1..]))
  }

  function PumpStep(memSize: nat, s: State, m: Move): State
    requires !m.Caller?
  {
    match (m, s.pump)
    case (PumpCheck, Resting) => if s.counters.memCount < memSize then s.(pump := HasRoom) else s
    case (PumpLook, HasRoom) => s.(pump := if HasDiskData(s) then Wanting else Resting)
    case (PumpRead, Wanting) => if s.disk.mutex.Some? then s else ReadBack(s)
    case (PumpSend, Holding(data)) =>
      if |s.mem| < memSize then s.(pump := Delivered, mem := s.mem + [Item(data, true)]) else s
    case (PumpCount, Delivered) =>
      s.(pump := Resting, counters := s.counters.(memCount := s.counters.memCount + 1))
    case _ => s
  }

  function Next(memSize: nat, s: State, m: Move): State {
    if !m.Caller? then PumpStep(memSize, s, m)
    else if m.i >= |s.callers| then s
    else if s.callers[m.i].Ready? then Begin(memSize, s, m.i, m.action)
    else Resume(s, m.i)
  }

  function Execute(memSize: nat, s: State, moves: seq<Move>): State
    decreases |moves|
  {
    if moves == [] then s else Execute(memSize, Next(memSize, s, moves[0]), moves[1..])
  }

  /** The move does not write a payload over 10 MiB to the file. */
  predicate SpillFits(s: State, m: Move) {
    m.Caller? && m.i < |s.callers| && s.callers[m.i].WantsDisk? && s.disk.mutex.None? ==> |s.callers[m.i].data| <= MAX_MESSAGE
  }

  /** No move of the run does. */
  predicate Moderate(memSize: nat, s: State, moves: seq<Move>)
    decreases |moves|
  {
    moves == [] || (SpillFits(s, moves[0]) && Moderate(memSize, Next(memSize, s, moves[0]), moves[1..]))
  }

  // ---- The invariant ---------------------------------------------------------------------------------------

  function Via(disk: bool, items: seq<Item>): seq<Bytes> {
    if items == [] then []
    else (if items[0].viaDisk == disk then [items[0].data] else []) + Via(disk, items[1..])
  }

  lemma {:induction false} ViaAppend(disk: bool, a: seq<Item>, b: seq<Item>)
    ensures Via(disk, a + b) == Via(disk, a) + Via(disk, b)
  {
    if a == [] {
      assert a + b == b;
    } else {
      assert (a + b)[1..] == a[1..] + b;
      ViaAppend(disk, a[1..], b);
      Associative(if a[0].viaDisk == disk then [a[0].data] else [], Via(disk, a[1..]), Via(disk, b));
    }
  }

  lemma ViaOne(disk: bool, x: Item)
    ensures Via(disk, [x]) == if x.viaDisk == disk then [x.data] else []
  {
    assert [x][1..] == [];
  }

  function InHand(s: State): seq<Bytes> { if s.pump.Holding? then [s.pump.data] else [] }

  /** Each of the two ways through the queue is a FIFO, and together they hold every accepted payload. */
  ghost predicate Conserved(s: State) {
    && s.past.direct == Via(false, s.past.out) + Via(false, s.mem)
    && s.past.spilled == Via(true, s.past.out) + Via(true, s.mem) + InHand(s) + s.past.unread
  }

  predicate InCriticalSection(pc: Pc) { pc.Written? || pc.Counted? || pc.Sized? }

  /** The mutex is held by the one writer, whose record is all that the file writer buffers. */
  ghost predicate MutexOk(s: State) {
    && (forall i :: 0 <= i < |s.callers| && InCriticalSection(s.callers[i]) ==> s.disk.mutex == Some(i))
    && (s.disk.mutex.None? ==> s.disk.writer == [])
    && (s.disk.mutex.Some? ==>
          && s.disk.mutex.value < |s.callers| && InCriticalSection(s.callers[s.disk.mutex.value])
          && s.disk.writer == Record(s.callers[s.disk.mutex.value].data))
  }

  /** What lies unread in the file and in the writer is a concatenation of whole records. */
  ghost predicate UnreadOk(d: Disk, unread: seq<Bytes>) {
    && d.readOffset <= |d.file|
    && d.file[d.readOffset..] + d.writer == Records(unread)
    && (forall m :: m in unread ==> |m| <= MAX_MESSAGE)
  }

  ghost predicate FileOk(s: State) { UnreadOk(s.disk, s.past.unread) }

  /** Counter updates that a caller still owes. */
  function DepthOwed(): Pc -> int {
    (pc: Pc) => if pc.SentOne? || pc.Written? then 1 else if pc.TookOne? then -1 else 0
  }

  function CountOwed(): Pc -> int {
    (pc: Pc) => if pc.SentOne? || pc.SentTwo? then 1 else if pc.TookOne? || pc.TookTwo? then -1 else 0
  }

  function BytesOwed(): Pc -> int { (pc: Pc) => if pc.Written? || pc.Counted? then |Record(pc.data)| else 0 }

  function Queued(s: State): nat { |s.mem| + |InHand(s)| + |s.past.unread| }

  ghost predicate CountersOk(s: State) {
    && s.counters.depth + Sum(DepthOwed(), s.callers) == Queued(s)
    && s.counters.memCount + Sum(CountOwed(), s.callers) + (if s.pump.Delivered? then 1 else 0) == |s.mem|
    && s.counters.diskBytes + Sum(BytesOwed(), s.callers) == |s.disk.file| + |s.disk.writer| - s.disk.readOffset
  }

  ghost predicate Invariant(s: State) { Conserved(s) && MutexOk(s) && FileOk(s) && CountersOk(s) }

  lemma OwedUpdate(callers: seq<Pc>, i: nat, pc: Pc)
    requires i < |callers|
    ensures Sum(DepthOwed(), callers[i := pc]) == Sum(DepthOwed(), callers) - DepthOwed()(callers[i]) + DepthOwed()(pc)
    ensures Sum(CountOwed(), callers[i := pc]) == Sum(CountOwed(), callers) - CountOwed()(callers[i]) + CountOwed()(pc)
    ensures Sum(BytesOwed(), callers[i := pc]) == Sum(BytesOwed(), callers) - BytesOwed()(callers[i]) + BytesOwed()(pc)
  {
    SumUpdate(DepthOwed(), callers, i, pc);
    SumUpdate(CountOwed(), callers, i, pc);
    SumUpdate(BytesOwed(), callers, i, pc);
  }

  /** A caller that stays out of the critical section leaves the disk alone. */
  lemma DiskUntouched(s: State, t: State, i: nat, pc: Pc)
    requires MutexOk(s) && FileOk(s) && t.disk == s.disk && t.past.unread == s.past.unread
    requires i < |s.callers| && t.callers == s.callers[i := pc]
    requires !InCriticalSection(pc) && !InCriticalSection(s.callers[i])
    ensures MutexOk(t) && FileOk(t)
  {
  }

  lemma SendKeeps(s: State, i: nat, data: Bytes)
    requires i < |s.callers| && s.callers[i].Ready? && Invariant(s)
    ensures Invariant(Send(s, i, data))
  {
    var t := Send(s, i, data);
    assert Conserved(t) by { AppendItem(s.mem, Item(data, false), s.past.out); }
    DiskUntouched(s, t, i, SentOne);
    assert CountersOk(t) by { OwedUpdate(s.callers, i, SentOne); }
  }

  lemma AppendItem(mem: seq<Item>, x: Item, out: seq<Item>)
    ensures Via(x.viaDisk, out) + Via(x.viaDisk, mem + [x]) == Via(x.viaDisk, out) + Via(x.viaDisk, mem) + [x.data]
    ensures Via(!x.viaDisk, mem + [x]) == Via(!x.viaDisk, mem)
  {
    ViaAppend(x.viaDisk, mem, [x]);
    ViaAppend(!x.viaDisk, mem, [x]);
    ViaOne(x.viaDisk, x);
    ViaOne(!x.viaDisk, x);
    Associative(Via(x.viaDisk, out), Via(x.viaDisk, mem), [x.data]);
  }

  /** Moving the oldest item out keeps both ways in order. */
  lemma TakeOldest(disk: bool, mem: seq<Item>, out: seq<Item>)
    requires mem != []
    ensures Via(disk, out + [mem[0]]) + Via(disk, mem[1..]) == Via(disk, out) + Via(disk, mem)
  {
    ViaAppend(disk, out, [mem[0]]);
    ViaOne(disk, mem[0]);
    Associative(Via(disk, out), Via(disk, [mem[0]]), Via(disk, mem[1..]));
  }

  lemma TakeKeeps(s: State, i: nat)
    requires i < |s.callers| && s.callers[i].Ready? && s.mem != [] && Invariant(s)
    ensures Invariant(Take(s, i))
  {
    var t := Take(s, i);
    assert Conserved(t) by { TakeConserves(s, i); }
    DiskUntouched(s, t, i, TookOne);
    TakeCounts(s, i);
  }

  lemma TakeCounts(s: State, i: nat)
    requires i < |s.callers| && s.callers[i].Ready? && s.mem != [] && CountersOk(s)
    ensures CountersOk(Take(s, i))
  {
    OwedUpdate(s.callers, i, TookOne);
  }

  lemma TakeConserves(s: State, i: nat)
    requires i < |s.callers| && s.mem != [] && Conserved(s)
    ensures Conserved(Take(s, i))
  {
    TakeOldest(false, s.mem, s.past.out);
    TakeOldest(true, s.mem, s.past.out);
  }

  lemma SpillKeeps(s: State, i: nat, data: Bytes)
    requires i < |s.callers| && s.callers[i] == WantsDisk(data) && s.disk.mutex.None? && Invariant(s) && |data| <= MAX_MESSAGE
    ensures Invariant(Spill(s, i, data))
  {
    var t := Spill(s, i, data);
    assert Conserved(t) by { Associative(Via(true, s.past.out) + Via(true, s.mem) + InHand(s), s.past.unread, [data]); }
    assert MutexOk(t) by { assert s.disk.writer + Record(data) == Record(data); }
    assert FileOk(t) by { SpillUnread(s.disk, s.past.unread, data, i); }
    assert CountersOk(t) by { OwedUpdate(s.callers, i, Written(data)); }
  }

  lemma FlushKeeps(s: State, i: nat)
    requires i < |s.callers| && s.callers[i].Sized? && Invariant(s)
    ensures Invariant(Flush(s, i))
  {
    var t := Flush(s, i);
    assert s.disk.mutex == Some(i);
    assert MutexOk(t);
    assert FileOk(t) by { FlushUnread(s.disk, s.past.unread); }
    assert CountersOk(t) by { OwedUpdate(s.callers, i, Ready); }
  }

  lemma FlushUnread(d: Disk, unread: seq<Bytes>)
    requires UnreadOk(d, unread)
    ensures UnreadOk(Disk(d.file + d.writer, [], d.readOffset, None), unread)
  {
    assert (d.file + d.writer)[d.readOffset..] + [] == d.file[d.readOffset..] + d.writer;
  }

  lemma SpillUnread(d: Disk, unread: seq<Bytes>, data: Bytes, i: nat)
    requires UnreadOk(d, unread) && |data| <= MAX_MESSAGE
    ensures UnreadOk(d.(writer := d.writer + Record(data), mutex := Some(i)), unread + [data])
  {
    RecordsAppend(unread, [data]);
    assert Records([data]) == Record(data) by { assert [data][1..] == []; }
    Associative(d.file[d.readOffset..], d.writer, Record(data));
  }

  /** The caller owes by the new program counter what it owed by the old one, less what it has just paid. */
  lemma TallyKeeps(s: State, i: nat, pc: Pc, c: Counters)
    requires i < |s.callers| && Invariant(s)
    requires InCriticalSection(pc) == InCriticalSection(s.callers[i])
    requires InCriticalSection(pc) ==> pc.data == s.callers[i].data
    requires c.depth - s.counters.depth == DepthOwed()(s.callers[i]) - DepthOwed()(pc)
    requires c.memCount - s.counters.memCount == CountOwed()(s.callers[i]) - CountOwed()(pc)
    requires c.diskBytes - s.counters.diskBytes == BytesOwed()(s.callers[i]) - BytesOwed()(pc)
    ensures Invariant(Tally(s, i, pc, c))
  {
    OwedUpdate(s.callers, i, pc);
  }

  /** When the mutex is free, what the pump reads is the oldest unread message, and there is nothing to read otherwise. */
  lemma PumpReadsOldest(s: State)
    requires MutexOk(s) && FileOk(s) && s.disk.mutex.None?
    ensures var d, unread := s.disk, s.past.unread;
            && (unread == [] ==> d.readOffset == |d.file| && ReadRecord(d.file, d.readOffset) == Nothing)
            && (unread != [] ==>
                  var next := d.readOffset + 4 + |unread[0]|;
                  && next <= |d.file|
                  && ReadRecord(d.file, d.readOffset) == Message(unread[0], next)
                  && d.file[next..] == Records(unread[1..]))
  {
    var d, unread := s.disk, s.past.unread;
    var head, tail := d.file[..d.readOffset], d.file[d.readOffset..];
    assert tail + [] == tail == Records(unread);
    if unread != [] {
      var rest := Records(unread[1..]);
      Associative(head, Record(unread[0]), rest);
      assert d.file == head + tail == head + Record(unread[0]) + rest;
      RecordRoundTrip(head, unread[0], rest);
      assert unread[0] in unread;
      assert d.file[d.readOffset + |Record(unread[0])|..] == rest;
    }
  }

  lemma ReadBackKeeps(s: State)
    requires Invariant(s) && s.pump.Wanting? && s.disk.mutex.None?
    ensures Invariant(ReadBack(s))
  {
    PumpReadsOldest(s);
    if s.past.unread != [] {
      ReadBackConserves(s);
      assert s.disk.writer == [];
    }
  }

  /** What is read passes from the unread payloads into the pump's hand. */
  lemma ReadBackConserves(s: State)
    requires Conserved(s) && s.pump.Wanting? && s.past.unread != []
    requires ReadRecord(s.disk.file, s.disk.readOffset).Message? && ReadRecord(s.disk.file, s.disk.readOffset).data == s.past.unread[0]
    ensures Conserved(ReadBack(s))
  {
    var before, first, rest := Via(true, s.past.out) + Via(true, s.mem), s.past.unread[0], s.past.unread[1..];
    assert s.past.unread == [first] + rest && before + [] == before;
    Associative(before, [first], rest);
  }

  lemma PumpSendKeeps(s: State)
    requires Invariant(s) && s.pump.Holding?
    ensures Invariant(s.(pump := Delivered, mem := s.mem + [Item(s.pump.data, true)]))
  {
    AppendItem(s.mem, Item(s.pump.data, true), s.past.out);
    var before := Via(true, s.past.out) + Via(true, s.mem) + [s.pump.data];
    assert before + [] == before;
  }

  lemma PumpKeeps(memSize: nat, s: State, m: Move)
    requires Invariant(s) && !m.Caller?
    ensures Invariant(PumpStep(memSize, s, m))
  {
    if m.PumpRead? && s.pump.Wanting? && s.disk.mutex.None? {
      ReadBackKeeps(s);
    } else if m.PumpSend? && s.pump.Holding? && |s.mem| < memSize {
      PumpSendKeeps(s);
    }
  }

  lemma BeginKeeps(memSize: nat, s: State, i: nat, action: Action)
    requires Invariant(s) && i < |s.callers| && s.callers[i].Ready?
    ensures Invariant(Begin(memSize, s, i, action))
  {
    match action {
      case Enqueue(data) =>
        if |s.mem| < memSize {
          SendKeeps(s, i, data);
        } else {
          TallyKeeps(s, i, WantsDisk(data), s.counters);
        }
      case Dequeue =>
        if s.mem != [] {
          TakeKeeps(s, i);
        }
      case Proceed =>
    }
  }

  lemma ResumeKeeps(s: State, i: nat)
    requires Invariant(s) && i < |s.callers| && SpillFits(s, Caller(i, Proceed))
    ensures Invariant(Resume(s, i))
  {
    var pc := s.callers[i];
    if pc.WantsDisk? {
      if s.disk.mutex.None? {
        SpillKeeps(s, i, pc.data);
      }
    } else if pc.Sized? {
      FlushKeeps(s, i);
    } else {
      PaysWhatIsOwed(pc, s.counters);
      TallyKeeps(s, i, Pay(pc, s.counters).0, Pay(pc, s.counters).1);
    }
  }

  lemma PaysWhatIsOwed(pc: Pc, c: Counters)
    requires !pc.WantsDisk? && !pc.Sized?
    ensures var (pc', c') := Pay(pc, c);
            && InCriticalSection(pc') == InCriticalSection(pc) && (InCriticalSection(pc) ==> pc'.data == pc.data)
            && c'.depth - c.depth == DepthOwed()(pc) - DepthOwed()(pc')
            && c'.memCount - c.memCount == CountOwed()(pc) - CountOwed()(pc')
            && c'.diskBytes - c.diskBytes == BytesOwed()(pc) - BytesOwed()(pc')
  {
  }

  lemma {:induction false} InvariantKept(memSize: nat, s: State, moves: seq<Move>)
    requires Invariant(s) && Moderate(memSize, s, moves)
    ensures Invariant(Execute(memSize, s, moves))
    decreases |moves|
  {
    if moves != [] {
      var m := moves[0];
      if !m.Caller? {
        PumpKeeps(memSize, s, m);
      } else if m.i < |s.callers| {
        if s.callers[m.i].Ready? {
          BeginKeeps(memSize, s, m.i, m.action);
        } else {
          ResumeKeeps(s, m.i);
        }
      }
      InvariantKept(memSize, Next(memSize, s, m), moves[1..]);
    }
  }

  // ---- Every run -------------------------------------------------------------------------------------------

  lemma AlwaysInvariant(memSize: nat, callers: nat, moves: seq<Move>)
    requires Moderate(memSize, Initial(callers), moves)
    ensures Invariant(Execute(memSize, Initial(callers), moves))
  {
    var s := Initial(callers);
    SumZero(DepthOwed(), s.callers);
    SumZero(CountOwed(), s.callers);
    SumZero(BytesOwed(), s.callers);
    InvariantKept(memSize, s, moves);
  }

  function Payloads(items: seq<Item>): (r: seq<Bytes>)
    ensures |r| == |items|
  {
    seq(|items|, i requires 0 <= i < |items| => items[i].data)
  }

  lemma {:induction false} PayloadsByWay(items: seq<Item>)
    ensures multiset(Payloads(items)) == multiset(Via(false, items)) + multiset(Via(true, items))
    decreases |items|
  {
    if items != [] {
      PayloadsByWay(items[1..]);
      assert Payloads(items) == [items[0].data] + Payloads(items[1..]);
      ViaFirst(items, false);
      ViaFirst(items, true);
    }
  }

  lemma ViaFirst(items: seq<Item>, disk: bool)
    requires items != []
    ensures multiset(Via(disk, items)) ==
            (if items[0].viaDisk == disk then multiset{items[0].data} else multiset{}) + multiset(Via(disk, items[1..]))
  {
  }

  /** Every accepted payload has been dequeued or is in memory, in the pump's hand or on disk, as often as it was
      accepted; and the two ways through the queue are each first in, first out. */
  ghost predicate Accounted(s: State) {
    && multiset(s.past.direct + s.past.spilled) ==
         multiset(Payloads(s.past.out)) + multiset(Payloads(s.mem)) + multiset(InHand(s)) + multiset(s.past.unread)
    && Via(true, s.past.out) <= s.past.spilled
    && Via(false, s.past.out) <= s.past.direct
  }

  lemma ConservedIsAccounted(s: State)
    requires Conserved(s)
    ensures Accounted(s)
  {
    PayloadsByWay(s.past.out);
    PayloadsByWay(s.mem);
    var d1, d2, m1, m2 := Via(false, s.past.out), Via(false, s.mem), Via(true, s.past.out), Via(true, s.mem);
    MultisetOfFour(m1, m2, InHand(s), s.past.unread);
    PrefixOfFour(m1, m2, InHand(s), s.past.unread);
    assert multiset(s.past.direct) == multiset(d1) + multiset(d2);
  }

  lemma MultisetOfFour<T>(a: seq<T>, b: seq<T>, c: seq<T>, d: seq<T>)
    ensures multiset(a + b + c + d) == multiset(a) + multiset(b) + multiset(c) + multiset(d)
  {
  }

  lemma PrefixOfFour<T>(a: seq<T>, b: seq<T>, c: seq<T>, d: seq<T>)
    ensures a <= a + b + c + d
  {
  }

  /** Nothing is lost, made up or doubled; and what went through disk comes out in the order it was written. */
  lemma NothingLost(memSize: nat, callers: nat, moves: seq<Move>)
    requires Moderate(memSize, Initial(callers), moves)
    ensures Accounted(Execute(memSize, Initial(callers), moves))
  {
    AlwaysInvariant(memSize, callers, moves);
    ConservedIsAccounted(Execute(memSize, Initial(callers), moves));
  }

  /** With no caller between its steps, `depth` is the number of queued payloads; and whenever the disk mutex is free,
      `diskBytes` is the unread length of the file and `HasDiskData` holds exactly when a record remains. */
  ghost predicate Settled(s: State) {
    && ((forall pc :: pc in s.callers ==> pc.Ready? || pc.WantsDisk?) ==> s.counters.depth == Queued(s))
    && (s.disk.mutex.None? ==>
          s.counters.diskBytes == |s.disk.file| - s.disk.readOffset && (HasDiskData(s) <==> s.past.unread != []))
  }

  lemma InvariantIsSettled(s: State)
    requires Invariant(s)
    ensures Settled(s)
  {
    if forall pc :: pc in s.callers ==> pc.Ready? || pc.WantsDisk? {
      SumZero(DepthOwed(), s.callers);
    }
    if s.disk.mutex.None? {
      forall pc | pc in s.callers ensures BytesOwed()(pc) == 0 {
        var i :| 0 <= i < |s.callers| && s.callers[i] == pc;
      }
      SumZero(BytesOwed(), s.callers);
      PumpReadsOldest(s);
    }
  }

  lemma CountersSettle(memSize: nat, callers: nat, moves: seq<Move>)
    requires Moderate(memSize, Initial(callers), moves)
    ensures Settled(Execute(memSize, Initial(callers), moves))
  {
    AlwaysInvariant(memSize, callers, moves);
    InvariantIsSettled(Execute(memSize, Initial(callers), moves));
  }
}
