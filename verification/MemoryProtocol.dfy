/**
 * The memory controller under concurrency: every atomic operation on the global counter, on a stream's counter object
 * or on the stream directory is one step, and each caller has a program counter. A run is any interleaving.
 */
module MemoryProtocol {
  import opened Sequences

  datatype Config = Config(maxMemory: nat, perStreamLimit: nat)

  /** What a caller does next. A counter is named by its index in `State.counters`: a caller may still hold the counter
      of a stream that has left the directory. `attempt` is 0 before, 1 after garbage collection, 2 after eviction. */
  datatype Pc =
    | Ready
    // RequestMemory
    | OverGlobal(stream: string, size: nat, attempt: nat)  // added to the global counter, found it over the limit
    | RolledBack(stream: string, size: nat, attempt: nat)  // took the size back
    | Evicting(stream: string, size: nat, victims: seq<string>, evicted: nat)
    | VictimFound(stream: string, size: nat, victims: seq<string>, evicted: nat, counter: nat)
    | VictimSwapped(stream: string, size: nat, victims: seq<string>, evicted: nat, amount: nat)
    | Reserved(stream: string, size: nat)                  // the global check has passed
    | Charging(size: nat, counter: nat)
    | OverStream(size: nat, counter: nat)                  // added to the stream counter, found it over the limit
    | UndoGlobal(size: nat)
    // ReleaseMemory and ResetStreamUsage
    | Releasing(size: nat, counter: nat)
    | Loaded(size: nat, counter: nat, seen: int)
    | Resetting(counter: nat)
    | Subtracting(amount: nat)

  /** A caller's choice where it has one; `Proceed` elsewhere. Eviction strategies are free to name any victims. */
  datatype Action =
    | Proceed
    | Request(stream: string, size: nat)
    | Release(stream: string, size: nat)
    | Reset(stream: string)
    | RetryAfterGc
    | Evict(victims: seq<string>)

  /** `erased` sums the negative balances that a swap to zero has wiped out. It is a history variable. */
  datatype State = State(usage: int, counters: seq<int>, directory: map<string, nat>, erased: nat, callers: seq<Pc>)

  /** The part of a state that a step changes, and the caller's next program counter. */
  datatype Effect = Effect(usage: int, counters: seq<int>, directory: map<string, nat>, erased: nat, pc: Pc)

  predicate HoldsCounter(pc: Pc) {
    pc.VictimFound? || pc.Charging? || pc.OverStream? || pc.Releasing? || pc.Loaded? || pc.Resetting?
  }

  /** Counters that are named exist. */
  predicate WellFormed(s: State) {
    && (forall id :: id in s.directory ==> s.directory[id] < |s.counters|)
    && (forall i :: 0 <= i < |s.callers| && HoldsCounter(s.callers[i]) ==> s.callers[i].counter < |s.counters|)
  }

  predicate HighPressure(cfg: Config, usage: int) { 5 * usage > 4 * cfg.maxMemory }

  function Stay(s: State, pc: Pc): Effect { Effect(s.usage, s.counters, s.directory, s.erased, pc) }

  function AddGlobal(cfg: Config, s: State, stream: string, size: nat, attempt: nat): Effect {
    Effect(s.usage + size, s.counters, s.directory, s.erased,
           if s.usage + size > cfg.maxMemory then OverGlobal(stream, size, attempt) else Reserved(stream, size))
  }

  function SwapToZero(s: State, counter: nat, pc: Pc): Effect
    requires counter < |s.counters|
  {
    var before := s.counters[counter];
    Effect(s.usage, s.counters[counter := 0], s.directory, s.erased + (if before < 0 then -before else 0), pc)
  }

  /** What every step keeps: counters are only added, and those that are named exist. */
  ghost predicate Sane(s: State, e: Effect) {
    && |s.counters| <= |e.counters|
    && (HoldsCounter(e.pc) ==> e.pc.counter < |e.counters|)
    && forall id :: id in e.directory ==> e.directory[id] < |e.counters|
  }

  /** One atomic operation of one caller; a choice that its program counter does not offer does nothing. */
  function StepOf(cfg: Config, s: State, pc: Pc, action: Action): (e: Effect)
    requires WellFormed(s) && (HoldsCounter(pc) ==> pc.counter < |s.counters|)
    ensures Sane(s, e)
  {
    if pc.Ready? then BeginStep(cfg, s, action)
    else if pc.Evicting? || pc.VictimFound? || pc.VictimSwapped? then EvictStep(cfg, s, pc, action)
    else if pc.Releasing? || pc.Loaded? || pc.Resetting? || pc.Subtracting? then ReleaseStep(s, pc, action)
    else RequestStep(cfg, s, pc, action)
  }

  function BeginStep(cfg: Config, s: State, action: Action): (e: Effect)
    requires WellFormed(s)
    ensures Sane(s, e)
  {
    match action
    case Request(stream, size) => AddGlobal(cfg, s, stream, size, 0)
    case Release(stream, size) =>
      if stream in s.directory then Stay(s, Releasing(size, s.directory[stream])) else Stay(s, Ready)
    case Reset(stream) =>
      if stream in s.directory
      then Effect(s.usage, s.counters, s.directory - {stream}, s.erased, Resetting(s.directory[stream]))
      else Stay(s, Ready)
    case _ => Stay(s, Ready)
  }

  function RequestStep(cfg: Config, s: State, pc: Pc, action: Action): (e: Effect)
    requires WellFormed(s) && (HoldsCounter(pc) ==> pc.counter < |s.counters|)
    ensures Sane(s, e)
  {
    match (pc, action)
    case (OverGlobal(stream, size, attempt), Proceed) =>
      Stay(s, RolledBack(stream, size, attempt)).(usage := s.usage - size)
    case (RolledBack(stream, size, attempt), RetryAfterGc) =>
      if attempt == 0 then AddGlobal(cfg, s, stream, size, 1) else Stay(s, pc)
    case (RolledBack(stream, size, attempt), Evict(victims)) =>
      if attempt < 2 && HighPressure(cfg, s.usage) then Stay(s, Evicting(stream, size, victims, 0)) else Stay(s, pc)
    case (RolledBack(_, _, attempt), Proceed) =>
      if attempt < 2 && HighPressure(cfg, s.usage) then Stay(s, pc) else Stay(s, Ready)
    case (Reserved(stream, size), Proceed) =>
      if stream in s.directory then Stay(s, Charging(size, s.directory[stream]))
      else Effect(s.usage, s.counters + [0], s.directory[stream := |s.counters|], s.erased, Charging(size, |s.counters|))
    case (Charging(size, counter), Proceed) =>
      var total := s.counters[counter] + size;
      Stay(s, if total > cfg.perStreamLimit then OverStream(size, counter) else Ready).(counters := s.counters[counter := total])
    case (OverStream(size, counter), Proceed) =>
      Stay(s, UndoGlobal(size)).(counters := s.counters[counter := s.counters[counter] - size])
    case (UndoGlobal(size), Proceed) => Stay(s, Ready).(usage := s.usage - size)
    case _ => Stay(s, pc)
  }

  function EvictStep(cfg: Config, s: State, pc: Pc, action: Action): (e: Effect)
    requires WellFormed(s) && (HoldsCounter(pc) ==> pc.counter < |s.counters|)
    ensures Sane(s, e)
  {
    match (pc, action)
    case (Evicting(stream, size, victims, evicted), Proceed) =>
      if victims == [] then
        if evicted > 0 then AddGlobal(cfg, s, stream, size, 2) else Stay(s, Ready)
      else if victims[0] in s.directory then Stay(s, VictimFound(stream, size, victims[1..], evicted, s.directory[victims[0]]))
      else Stay(s, Evicting(stream, size, victims[1..], evicted))
    case (VictimFound(stream, size, victims, evicted, counter), Proceed) =>
      var before := s.counters[counter];
      SwapToZero(s, counter, if before > 0 then VictimSwapped(stream, size, victims, evicted, before)
                             else Evicting(stream, size, victims, evicted))
    case (VictimSwapped(stream, size, victims, evicted, amount), Proceed) =>
      Stay(s, Evicting(stream, size, victims, evicted + amount)).(usage := s.usage - amount)
    case _ => Stay(s, pc)
  }

  function ReleaseStep(s: State, pc: Pc, action: Action): (e: Effect)
    requires WellFormed(s) && (HoldsCounter(pc) ==> pc.counter < |s.counters|)
    ensures Sane(s, e)
  {
    match (pc, action)
    case (Releasing(size, counter), Proceed) =>
      if s.counters[counter] <= 0 then Stay(s, Ready) else Stay(s, Loaded(size, counter, s.counters[counter]))
    case (Loaded(size, counter, seen), Proceed) =>
      if s.counters[counter] != seen || seen <= 0 then Stay(s, Releasing(size, counter))
      else
        var amount := if seen >= size then size else seen;
        Stay(s, Subtracting(amount)).(counters := s.counters[counter := seen - amount])
    case (Resetting(counter), Proceed) =>
      var before := s.counters[counter];
      SwapToZero(s, counter, if before > 0 then Subtracting(before) else Ready)
    case (Subtracting(amount), Proceed) => Stay(s, Ready).(usage := s.usage - amount)
    case _ => Stay(s, pc)
  }

  function Apply(s: State, i: nat, e: Effect): State
    requires i < |s.callers|
  {
    State(e.usage, e.counters, e.directory, e.erased, s.callers[i := e.pc])
  }

  datatype Move = Move(caller: nat, action: Action)

  function Next(cfg: Config, s: State, m: Move): (s': State)
    requires WellFormed(s)
    ensures WellFormed(s')
  {
    if m.caller < |s.callers| then Apply(s, m.caller, StepOf(cfg, s, s.callers[m.caller], m.action)) else s
  }

  function Execute(cfg: Config, s: State, moves: seq<Move>): (s': State)
    requires WellFormed(s)
    ensures WellFormed(s')
    decreases |moves|
  {
    if moves == [] then s else Execute(cfg, Next(cfg, s, moves[0]), moves[1..])
  }

  function Initial(callers: nat): State { State(0, [], map[], 0, seq(callers, _ => Ready)) }

  // ---- The invariant ------------------------------------------------------------------------------------------

  /** A reservation on the global counter that is already doomed to be rolled back. */
  function DoomedGlobally(): Pc -> int {
    (pc: Pc) => if pc.OverGlobal? || pc.OverStream? || pc.UndoGlobal? then pc.size else 0
  }

  /** An add to counter `c` that is already doomed to be rolled back. */
  function DoomedOn(c: nat): Pc -> int {
    (pc: Pc) => if pc.OverStream? && pc.counter == c then pc.size else 0
  }

  /** What a caller has put on the global counter without, or taken from a stream counter without yet, doing the other half. */
  function Pending(): Pc -> int {
    (pc: Pc) =>
      if pc.OverGlobal? || pc.Reserved? || pc.Charging? || pc.UndoGlobal? then pc.size
      else if pc.VictimSwapped? || pc.Subtracting? then pc.amount
      else 0
  }

  ghost predicate GlobalLimit(cfg: Config, s: State) {
    s.usage - Sum(DoomedGlobally(), s.callers) <= cfg.maxMemory
  }

  ghost predicate StreamLimit(cfg: Config, s: State) {
    forall c :: 0 <= c < |s.counters| ==> s.counters[c] - Sum(DoomedOn(c), s.callers) <= cfg.perStreamLimit
  }

  /** The global counter is the sum of all stream counters, of the half-done transfers, less what swaps have erased. */
  ghost predicate Ledger(s: State) {
    s.usage == Sum(Identity(), s.counters) + Sum(Pending(), s.callers) - s.erased
  }

  ghost predicate Invariant(cfg: Config, s: State)
    requires WellFormed(s)
  {
    GlobalLimit(cfg, s) && StreamLimit(cfg, s) && Ledger(s)
  }

  lemma GlobalLimitKept(cfg: Config, s: State, m: Move)
    requires WellFormed(s) && GlobalLimit(cfg, s)
    ensures GlobalLimit(cfg, Next(cfg, s, m))
  {
    if m.caller < |s.callers| {
      var pc := s.callers[m.caller];
      var e := StepOf(cfg, s, pc, m.action);
      SumUpdate(DoomedGlobally(), s.callers, m.caller, e.pc);
      SumNonNegative(DoomedGlobally(), s.callers[m.caller := e.pc]);
      GlobalStep(cfg, s, pc, m.action);
    }
  }

  /** A step leaves the global counter within the budget, or raises it by no more than what it dooms. */
  lemma GlobalStep(cfg: Config, s: State, pc: Pc, action: Action)
    requires WellFormed(s) && (HoldsCounter(pc) ==> pc.counter < |s.counters|)
    ensures var e := StepOf(cfg, s, pc, action);
            e.usage <= cfg.maxMemory || e.usage - s.usage <= DoomedGlobally()(e.pc) - DoomedGlobally()(pc)
  {
  }

  lemma StreamLimitKept(cfg: Config, s: State, m: Move)
    requires WellFormed(s) && StreamLimit(cfg, s)
    ensures StreamLimit(cfg, Next(cfg, s, m))
  {
    if m.caller < |s.callers| {
      var pc := s.callers[m.caller];
      var e := StepOf(cfg, s, pc, m.action);
      forall c | 0 <= c < |e.counters|
        ensures e.counters[c] - Sum(DoomedOn(c), s.callers[m.caller := e.pc]) <= cfg.perStreamLimit
      {
        SumUpdate(DoomedOn(c), s.callers, m.caller, e.pc);
        SumNonNegative(DoomedOn(c), s.callers[m.caller := e.pc]);
        StreamStep(cfg, s, pc, m.action, c);
      }
    }
  }

  /** A step leaves a counter within the limit, or raises it by no more than what it dooms. */
  lemma StreamStep(cfg: Config, s: State, pc: Pc, action: Action, c: nat)
    requires WellFormed(s) && (HoldsCounter(pc) ==> pc.counter < |s.counters|) && c < |StepOf(cfg, s, pc, action).counters|
    ensures var e := StepOf(cfg, s, pc, action);
            || e.counters[c] <= cfg.perStreamLimit
            || (c < |s.counters| && e.counters[c] - s.counters[c] <= DoomedOn(c)(e.pc) - DoomedOn(c)(pc))
  {
  }

  lemma LedgerKept(cfg: Config, s: State, m: Move)
    requires WellFormed(s) && Ledger(s)
    ensures Ledger(Next(cfg, s, m))
  {
    if m.caller < |s.callers| {
      var pc := s.callers[m.caller];
      var e := StepOf(cfg, s, pc, m.action);
      SumUpdate(Pending(), s.callers, m.caller, e.pc);
      CounterChange(cfg, s, pc, m.action);
    }
  }

  /** How far one step moves the sum of the stream counters. */
  lemma CounterChange(cfg: Config, s: State, pc: Pc, action: Action)
    requires WellFormed(s) && (HoldsCounter(pc) ==> pc.counter < |s.counters|)
    ensures var e := StepOf(cfg, s, pc, action);
            e.usage - s.usage == Sum(Identity(), e.counters) - Sum(Identity(), s.counters)
                                 + Pending()(e.pc) - Pending()(pc) - (e.erased - s.erased)
  {
    if HoldsCounter(pc) && action.Proceed? {
      HeldCounterChange(cfg, s, pc);
    } else if pc.Reserved? {
      NewCounterChange(cfg, s, pc, action);
    } else {
      OtherCounterChange(cfg, s, pc, action);
    }
  }

  lemma NewCounterChange(cfg: Config, s: State, pc: Pc, action: Action)
    requires WellFormed(s) && pc.Reserved?
    ensures var e := StepOf(cfg, s, pc, action);
            && Sum(Identity(), e.counters) == Sum(Identity(), s.counters) && e.usage == s.usage && e.erased == s.erased
            && Pending()(e.pc) == Pending()(pc)
  {
    ReservedStep(cfg, s, pc, action);
    SumAppend(Identity(), s.counters, [0]);
    assert Sum(Identity(), [0]) == Identity()(0) + Sum(Identity(), []);
  }

  lemma ReservedStep(cfg: Config, s: State, pc: Pc, action: Action)
    requires WellFormed(s) && pc.Reserved?
    ensures var e := StepOf(cfg, s, pc, action);
            && (e.counters == s.counters || e.counters == s.counters + [0]) && e.usage == s.usage && e.erased == s.erased
            && Pending()(e.pc) == Pending()(pc)
  {
  }

  lemma OtherCounterChange(cfg: Config, s: State, pc: Pc, action: Action)
    requires WellFormed(s) && (HoldsCounter(pc) ==> pc.counter < |s.counters| && !action.Proceed?) && !pc.Reserved?
    ensures var e := StepOf(cfg, s, pc, action);
            && e.counters == s.counters && e.erased == s.erased
            && e.usage - s.usage == Pending()(e.pc) - Pending()(pc)
  {
  }

  lemma HeldCounterChange(cfg: Config, s: State, pc: Pc)
    requires WellFormed(s) && HoldsCounter(pc) && pc.counter < |s.counters|
    ensures var e := StepOf(cfg, s, pc, Proceed);
            e.usage - s.usage == Sum(Identity(), e.counters) - Sum(Identity(), s.counters)
                                 + Pending()(e.pc) - Pending()(pc) - (e.erased - s.erased)
  {
    var e := StepOf(cfg, s, pc, Proceed);
    var c := pc.counter;
    SumUpdate(Identity(), s.counters, c, e.counters[c]);
    assert e.counters == s.counters[c := e.counters[c]];
    assert Identity()(e.counters[c]) == e.counters[c] && Identity()(s.counters[c]) == s.counters[c];
  }

  lemma InvariantInitially(cfg: Config, callers: nat)
    ensures Invariant(cfg, Initial(callers))
  {
    SumZero(DoomedGlobally(), Initial(callers).callers);
    SumZero(Pending(), Initial(callers).callers);
  }

  lemma {:induction false} InvariantKept(cfg: Config, s: State, moves: seq<Move>)
    requires WellFormed(s) && Invariant(cfg, s)
    ensures Invariant(cfg, Execute(cfg, s, moves))
    decreases |moves|
  {
    if moves != [] {
      GlobalLimitKept(cfg, s, moves[0]);
      StreamLimitKept(cfg, s, moves[0]);
      LedgerKept(cfg, s, moves[0]);
      InvariantKept(cfg, Next(cfg, s, moves[0]), moves[1..]);
    }
  }

  // ---- Every run --------------------------------------------------------------------------------------------

  /** The invariant holds after every interleaving of any number of callers. */
  lemma AlwaysWithinLimits(cfg: Config, callers: nat, moves: seq<Move>)
    ensures Invariant(cfg, Execute(cfg, Initial(callers), moves))
  {
    InvariantInitially(cfg, callers);
    InvariantKept(cfg, Initial(callers), moves);
  }

  /** The caller is inside `RequestMemory`. */
  predicate Requesting(pc: Pc) {
    pc.OverGlobal? || pc.RolledBack? || pc.Evicting? || pc.VictimFound? || pc.VictimSwapped? || pc.Reserved?
    || pc.Charging? || pc.OverStream? || pc.UndoGlobal?
  }

  /** Both limits hold whenever no request is in flight, and once every caller is idle the global counter is the sum of
      the stream counters less what swaps have erased. */
  lemma QuiescentLimits(cfg: Config, callers: nat, moves: seq<Move>)
    ensures var s := Execute(cfg, Initial(callers), moves);
            && ((forall pc :: pc in s.callers ==> !Requesting(pc)) ==>
                  s.usage <= cfg.maxMemory && forall c :: 0 <= c < |s.counters| ==> s.counters[c] <= cfg.perStreamLimit)
            && ((forall pc :: pc in s.callers ==> pc.Ready?) ==> s.usage == Sum(Identity(), s.counters) - s.erased)
  {
    var s := Execute(cfg, Initial(callers), moves);
    AlwaysWithinLimits(cfg, callers, moves);
    if forall pc :: pc in s.callers ==> !Requesting(pc) {
      SumZero(DoomedGlobally(), s.callers);
      forall c | 0 <= c < |s.counters| ensures s.counters[c] <= cfg.perStreamLimit {
        SumZero(DoomedOn(c), s.callers);
      }
    }
    if forall pc :: pc in s.callers ==> pc.Ready? {
      SumZero(Pending(), s.callers);
    }
  }

  // ---- What the limits do not give ---------------------------------------------------------------------------

  /** The counters of streams that are in the directory, or those of streams that have left it. */
  function Part(s: State, live: bool): seq<int> {
    seq(|s.counters|, c requires 0 <= c < |s.counters| => if (c in s.directory.Values) == live then s.counters[c] else 0)
  }

  lemma {:induction false} SumOfParts(a: seq<int>, b: seq<int>, total: seq<int>)
    requires |a| == |b| == |total|
    requires forall i :: 0 <= i < |total| ==> a[i] + b[i] == total[i]
    ensures Sum(Identity(), a) + Sum(Identity(), b) == Sum(Identity(), total)
  {
    if total != [] {
      SumOfParts(a[1..], b[1..], total[1..]);
    }
  }

  /** With every caller idle, the usage of the live streams is the global counter plus what was erased less the balance
      left on abandoned counters; so it may exceed `maxMemory` by just that much. */
  lemma LiveUsage(cfg: Config, callers: nat, moves: seq<Move>)
    requires var s := Execute(cfg, Initial(callers), moves); forall pc :: pc in s.callers ==> pc.Ready?
    ensures var s := Execute(cfg, Initial(callers), moves);
            Sum(Identity(), Part(s, true)) == s.usage + s.erased - Sum(Identity(), Part(s, false))
  {
    var s := Execute(cfg, Initial(callers), moves);
    QuiescentLimits(cfg, callers, moves);
    SumOfParts(Part(s, true), Part(s, false), s.counters);
  }
}
