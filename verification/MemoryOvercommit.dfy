/**
 * Whether the streams listed in the directory stay within the budget together: they do as long as no swap and no release
 * takes what a request is about to roll back, and once one does there is no bound at all.
 */
module MemoryOvercommit {
  import opened Sequences
  import opened MemoryProtocol

  // ---- Careful runs -------------------------------------------------------------------------------------------

  /** What a counter holds besides the adds that are doomed. */
  ghost function Balance(s: State, c: nat): int
    requires c < |s.counters|
  {
    s.counters[c] - Sum(DoomedOn(c), s.callers)
  }

  ghost predicate Honest(s: State) { s.erased == 0 && forall c :: 0 <= c < |s.counters| ==> Balance(s, c) >= 0 }

  /** The move swaps a counter to zero: an eviction or a reset. */
  predicate IsSwap(s: State, m: Move) {
    m.caller < |s.callers| && m.action.Proceed? && (s.callers[m.caller].VictimFound? || s.callers[m.caller].Resetting?)
  }

  /** The move takes an amount off a counter: a release whose compare-and-swap succeeds. */
  predicate IsTake(s: State, m: Move)
    requires WellFormed(s)
  {
    m.caller < |s.callers| && m.action.Proceed? && s.callers[m.caller].Loaded?
    && 0 < s.callers[m.caller].seen == s.counters[s.callers[m.caller].counter]
  }

  function TakenOff(pc: Pc): int
    requires pc.Loaded?
  {
    if pc.seen >= pc.size then pc.size else pc.seen
  }

  /** No swap of a counter with a doomed add on it, and no release of more than the balance. */
  ghost predicate Careful(s: State, m: Move)
    requires WellFormed(s)
  {
    && (IsSwap(s, m) ==> Sum(DoomedOn(s.callers[m.caller].counter), s.callers) == 0)
    && (IsTake(s, m) ==> TakenOff(s.callers[m.caller]) <= Balance(s, s.callers[m.caller].counter))
  }

  ghost predicate CarefulRun(cfg: Config, s: State, moves: seq<Move>)
    requires WellFormed(s)
    decreases |moves|
  {
    moves == [] || (Careful(s, moves[0]) && CarefulRun(cfg, Next(cfg, s, moves[0]), moves[1..]))
  }

  lemma NoneDoomed(s: State, c: nat)
    requires WellFormed(s) && c >= |s.counters|
    ensures Sum(DoomedOn(c), s.callers) == 0
  {
    forall pc | pc in s.callers ensures DoomedOn(c)(pc) == 0 {
      var i :| 0 <= i < |s.callers| && s.callers[i] == pc;
    }
    SumZero(DoomedOn(c), s.callers);
  }

  /** Any other move leaves every balance or, with an add that fits, raises it. */
  lemma OtherMove(cfg: Config, s: State, m: Move, c: nat)
    requires WellFormed(s) && !IsSwap(s, m) && !IsTake(s, m) && c < |Next(cfg, s, m).counters|
    ensures var t := Next(cfg, s, m);
            t.erased == s.erased && Balance(t, c) >= if c < |s.counters| then Balance(s, c) else 0
  {
    if m.caller < |s.callers| {
      var pc := s.callers[m.caller];
      var e := StepOf(cfg, s, pc, m.action);
      SumUpdate(DoomedOn(c), s.callers, m.caller, e.pc);
      OtherStep(cfg, s, pc, m.action, c);
      if c >= |s.counters| {
        NoneDoomed(s, c);
      }
    }
  }

  lemma OtherStep(cfg: Config, s: State, pc: Pc, action: Action, c: nat)
    requires WellFormed(s) && (HoldsCounter(pc) ==> pc.counter < |s.counters|)
    requires action.Proceed? ==> !pc.VictimFound? && !pc.Resetting? && !(pc.Loaded? && 0 < pc.seen == s.counters[pc.counter])
    requires c < |StepOf(cfg, s, pc, action).counters|
    ensures var e := StepOf(cfg, s, pc, action);
            && e.erased == s.erased
            && e.counters[c] - (if c < |s.counters| then s.counters[c] else 0) >= DoomedOn(c)(e.pc) - DoomedOn(c)(pc)
  {
  }

  lemma SwapMove(cfg: Config, s: State, m: Move, c: nat)
    requires WellFormed(s) && IsSwap(s, m) && c < |s.counters|
    ensures var t, k := Next(cfg, s, m), s.callers[m.caller].counter;
            && |t.counters| == |s.counters|
            && Balance(t, c) == (if c == k then -Sum(DoomedOn(k), s.callers) else Balance(s, c))
            && t.erased == s.erased + (if s.counters[k] < 0 then -s.counters[k] else 0)
  {
    SumUpdate(DoomedOn(c), s.callers, m.caller, StepOf(cfg, s, s.callers[m.caller], m.action).pc);
  }

  lemma TakeMove(cfg: Config, s: State, m: Move, c: nat)
    requires WellFormed(s) && IsTake(s, m) && c < |s.counters|
    ensures var t, pc := Next(cfg, s, m), s.callers[m.caller];
            && |t.counters| == |s.counters| && t.erased == s.erased
            && Balance(t, c) == Balance(s, c) - (if c == pc.counter then TakenOff(pc) else 0)
  {
    SumUpdate(DoomedOn(c), s.callers, m.caller, StepOf(cfg, s, s.callers[m.caller], m.action).pc);
  }

  lemma DoomedIsNonNegative(s: State, c: nat)
    ensures Sum(DoomedOn(c), s.callers) >= 0
  {
    SumNonNegative(DoomedOn(c), s.callers);
  }

  /** A careful move keeps every balance from falling below zero, and a move that is not careful makes one do so. */
  lemma HonestExactly(cfg: Config, s: State, m: Move)
    requires WellFormed(s) && Honest(s)
    ensures Honest(Next(cfg, s, m)) <==> Careful(s, m)
  {
    var t := Next(cfg, s, m);
    if IsSwap(s, m) {
      var k := s.callers[m.caller].counter;
      forall c | 0 <= c < |s.counters| ensures Balance(t, c) == if c == k then -Sum(DoomedOn(k), s.callers) else Balance(s, c) {
        SwapMove(cfg, s, m, c);
      }
      SwapMove(cfg, s, m, k);
      DoomedIsNonNegative(s, k);
      assert Balance(s, k) >= 0;
    } else if IsTake(s, m) {
      var pc := s.callers[m.caller];
      forall c | 0 <= c < |s.counters| ensures Balance(t, c) == Balance(s, c) - if c == pc.counter then TakenOff(pc) else 0 {
        TakeMove(cfg, s, m, c);
      }
      TakeMove(cfg, s, m, pc.counter);
    } else {
      forall c | 0 <= c < |t.counters| ensures Balance(t, c) >= 0 {
        OtherMove(cfg, s, m, c);
      }
      OtherErases(cfg, s, m);
    }
  }

  lemma OtherErases(cfg: Config, s: State, m: Move)
    requires WellFormed(s) && !IsSwap(s, m) && !IsTake(s, m)
    ensures Next(cfg, s, m).erased == s.erased
  {
  }

  lemma {:induction false} HonestRun(cfg: Config, s: State, moves: seq<Move>)
    requires WellFormed(s) && Honest(s) && CarefulRun(cfg, s, moves)
    ensures Honest(Execute(cfg, s, moves))
    decreases |moves|
  {
    if moves != [] {
      HonestExactly(cfg, s, moves[0]);
      HonestRun(cfg, Next(cfg, s, moves[0]), moves[1..]);
    }
  }

  /** What the streams in the directory hold: the counters above zero, as the statistics list them. */
  function Held(s: State): (held: seq<int>)
    ensures |held| == |s.counters|
  {
    seq(|s.counters|, c requires 0 <= c < |s.counters| => if c in s.directory.Values && s.counters[c] > 0 then s.counters[c] else 0)
  }

  function HeldInAll(s: State): int { Sum(Identity(), Held(s)) }

  lemma {:induction false} SumBelow(a: seq<int>, b: seq<int>)
    requires |a| == |b| && forall i :: 0 <= i < |a| ==> a[i] <= b[i]
    ensures Sum(Identity(), a) <= Sum(Identity(), b)
    decreases |a|
  {
    if a != [] {
      SumBelow(a[1..], b[1..]);
    }
  }

  /** After any careful run, whenever no request is in flight, the listed streams together hold no more than the budget. */
  lemma ListedWithinBudget(cfg: Config, callers: nat, moves: seq<Move>)
    requires CarefulRun(cfg, Initial(callers), moves)
    ensures var s := Execute(cfg, Initial(callers), moves);
            (forall pc :: pc in s.callers ==> !Requesting(pc)) ==> HeldInAll(s) <= cfg.maxMemory
  {
    var s := Execute(cfg, Initial(callers), moves);
    HonestRun(cfg, Initial(callers), moves);
    AlwaysWithinLimits(cfg, callers, moves);
    QuiescentLimits(cfg, callers, moves);
    if forall pc :: pc in s.callers ==> !Requesting(pc) {
      SumNonNegative(Pending(), s.callers);
      forall c | 0 <= c < |s.counters| ensures Held(s)[c] <= s.counters[c] {
        DoomedIsNonNegative(s, c);
        assert Balance(s, c) >= 0;
      }
      SumBelow(Held(s), s.counters);
    }
  }

  // ---- Runs that are not careful --------------------------------------------------------------------------------

  /** Some interleaving leads from one state to the other. */
  ghost predicate Reaches(cfg: Config, s: State, t: State)
    requires WellFormed(s)
  {
    exists moves :: Execute(cfg, s, moves) == t
  }

  lemma {:induction false} ExecuteAppend(cfg: Config, s: State, a: seq<Move>, b: seq<Move>)
    requires WellFormed(s)
    ensures Execute(cfg, s, a + b) == Execute(cfg, Execute(cfg, s, a), b)
    decreases |a|
  {
    if a == [] {
      assert a + b == b;
    } else {
      assert (a + b)[1..] == a[1..] + b;
      ExecuteAppend(cfg, Next(cfg, s, a[0]), a[1..], b);
    }
  }

  /** A relation that contains every single move and is transitive, as `Reaches` is. The lemmas below hold of any such
      relation. */
  ghost predicate Closed(cfg: Config, reaches: (State, State) -> bool) {
    && (forall s, m :: WellFormed(s) ==> reaches(s, Next(cfg, s, m)))
    && (forall s, t, u :: reaches(s, t) && reaches(t, u) ==> reaches(s, u))
  }

  /** A request for a new stream, made alone, up to the point where it is granted or its add is doomed. */
  lemma RequestAlone(cfg: Config, reaches: (State, State) -> bool, s: State, stream: string, size: nat)
    requires Closed(cfg, reaches)
    requires WellFormed(s) && s.callers != [] && s.callers[0] == Ready && stream !in s.directory
    requires s.usage + size <= cfg.maxMemory
    ensures var c := |s.counters|;
            reaches(s, State(s.usage + size, s.counters + [size], s.directory[stream := c], s.erased,
                             s.callers[0 := if size > cfg.perStreamLimit then OverStream(size, c) else Ready]))
  {
    var s1 := Next(cfg, s, Move(0, Request(stream, size)));
    var s2 := Next(cfg, s1, Move(0, Proceed));
    var s3 := Next(cfg, s2, Move(0, Proceed));
    assert reaches(s, s1) && reaches(s1, s2) && reaches(s2, s3);
    assert s3.counters == s.counters + [size];
    assert s3.callers == s.callers[0 := s3.callers[0]];
  }

  lemma ResetAlone(cfg: Config, reaches: (State, State) -> bool, s: State, stream: string)
    requires Closed(cfg, reaches)
    requires WellFormed(s) && |s.callers| >= 2 && s.callers[1] == Ready
    requires stream in s.directory && s.counters[s.directory[stream]] > 0
    ensures var c := s.directory[stream];
            reaches(s, State(s.usage - s.counters[c], s.counters[c := 0], s.directory - {stream}, s.erased, s.callers))
  {
    var s1 := Next(cfg, s, Move(1, Reset(stream)));
    var s2 := Next(cfg, s1, Move(1, Proceed));
    var s3 := Next(cfg, s2, Move(1, Proceed));
    assert reaches(s, s1) && reaches(s1, s2) && reaches(s2, s3);
    assert s3.callers == s.callers;
  }

  lemma RollBackAlone(cfg: Config, reaches: (State, State) -> bool, s: State)
    requires Closed(cfg, reaches)
    requires WellFormed(s) && s.callers != [] && s.callers[0].OverStream?
    ensures var OverStream(size, c) := s.callers[0];
            reaches(s, State(s.usage - size, s.counters[c := s.counters[c] - size], s.directory, s.erased, s.callers[0 := Ready]))
  {
    var s1 := Next(cfg, s, Move(0, Proceed));
    var s2 := Next(cfg, s1, Move(0, Proceed));
    assert reaches(s, s1) && reaches(s1, s2);
    assert s2.callers == s.callers[0 := Ready];
  }

  function Charged(s: State, stream: string, size: nat): State {
    State(s.usage + size, s.counters + [size], s.directory[stream := |s.counters|], s.erased, s.callers)
  }

  lemma GrantedAlone(cfg: Config, reaches: (State, State) -> bool, s: State, stream: string, size: nat)
    requires Closed(cfg, reaches)
    requires WellFormed(s) && s.callers != [] && s.callers[0] == Ready && stream !in s.directory
    requires s.usage + size <= cfg.maxMemory && size <= cfg.perStreamLimit
    ensures WellFormed(Charged(s, stream, size)) && reaches(s, Charged(s, stream, size))
  {
    RequestAlone(cfg, reaches, s, stream, size);
    assert s.callers[0 := Ready] == s.callers;
  }

  lemma ReachesIsClosed(cfg: Config)
    ensures Closed(cfg, (s, t) => WellFormed(s) && WellFormed(t) && Reaches(cfg, s, t))
  {
    forall s, m | WellFormed(s) ensures Reaches(cfg, s, Next(cfg, s, m)) {
      assert Execute(cfg, s, [m]) == Next(cfg, s, m);
    }
    forall s, t, u | WellFormed(s) && WellFormed(t) && Reaches(cfg, s, t) && Reaches(cfg, t, u) ensures Reaches(cfg, s, u) {
      var a :| Execute(cfg, s, a) == t;
      var b :| Execute(cfg, t, b) == u;
      ExecuteAppend(cfg, s, a, b);
    }
  }

  lemma ReleaseAlone(cfg: Config, reaches: (State, State) -> bool, s: State, stream: string)
    requires Closed(cfg, reaches)
    requires WellFormed(s) && |s.callers| >= 2 && s.callers[1] == Ready
    requires stream in s.directory && s.counters[s.directory[stream]] > 0
    ensures var c := s.directory[stream];
            reaches(s, State(s.usage - s.counters[c], s.counters[c := 0], s.directory, s.erased, s.callers))
  {
    var s1 := Next(cfg, s, Move(1, Release(stream, s.counters[s.directory[stream]])));
    var s2 := Next(cfg, s1, Move(1, Proceed));
    var s3 := Next(cfg, s2, Move(1, Proceed));
    var s4 := Next(cfg, s3, Move(1, Proceed));
    assert reaches(s, s1) && reaches(s1, s2) && reaches(s2, s3) && reaches(s3, s4);
    assert s4.callers == s.callers;
  }

  /** A request that does not fit evicts the stream, in the state where it has just found its victim. */
  lemma EvictionFinds(cfg: Config, reaches: (State, State) -> bool, s: State, stream: string, victim: string, size: nat)
    requires Closed(cfg, reaches)
    requires WellFormed(s) && |s.callers| >= 2 && s.callers[1] == Ready && victim in s.directory
    requires s.usage + size > cfg.maxMemory && HighPressure(cfg, s.usage)
    ensures reaches(s, s.(callers := s.callers[1 := VictimFound(stream, size, [], 0, s.directory[victim])]))
  {
    var s1 := Next(cfg, s, Move(1, Request(stream, size)));
    var s2 := Next(cfg, s1, Move(1, Proceed));
    var s3 := Next(cfg, s2, Move(1, Evict([victim])));
    var s4 := Next(cfg, s3, Move(1, Proceed));
    assert reaches(s, s1) && reaches(s1, s2) && reaches(s2, s3) && reaches(s3, s4);
    assert [victim][1..] == [];
    assert s4.callers == s.callers[1 := VictimFound(stream, size, [], 0, s.directory[victim])];
  }

  lemma EvictionZeroes(cfg: Config, reaches: (State, State) -> bool, s: State, stream: string, size: nat, c: nat)
    requires Closed(cfg, reaches)
    requires WellFormed(s) && |s.callers| >= 2 && s.callers[1] == VictimFound(stream, size, [], 0, c) && s.counters[c] > 0
    requires s.usage - s.counters[c] + size <= cfg.maxMemory
    ensures reaches(s, State(s.usage - s.counters[c] + size, s.counters[c := 0], s.directory, s.erased, s.callers[1 := Reserved(stream, size)]))
  {
    var s1 := Next(cfg, s, Move(1, Proceed));
    var s2 := Next(cfg, s1, Move(1, Proceed));
    var s3 := Next(cfg, s2, Move(1, Proceed));
    assert reaches(s, s1) && reaches(s1, s2) && reaches(s2, s3);
    assert s3.callers == s.callers[1 := Reserved(stream, size)];
  }

  lemma ReservedIsGranted(cfg: Config, reaches: (State, State) -> bool, s: State, stream: string, size: nat)
    requires Closed(cfg, reaches)
    requires WellFormed(s) && |s.callers| >= 2 && s.callers[1] == Reserved(stream, size) && stream !in s.directory
    requires size <= cfg.perStreamLimit
    ensures reaches(s, State(s.usage, s.counters + [size], s.directory[stream := |s.counters|], s.erased, s.callers[1 := Ready]))
  {
    var s1 := Next(cfg, s, Move(1, Proceed));
    var s2 := Next(cfg, s1, Move(1, Proceed));
    assert reaches(s, s1) && reaches(s1, s2);
    assert s2.counters == s.counters + [size];
    assert s2.callers == s.callers[1 := Ready];
  }

  /** The three ways of taking a doomed add off a counter before its request does. */
  datatype Slip = ByReset | ByRelease | ByEviction

  /** Two callers, both idle, and a global counter that has not risen above zero. */
  ghost predicate Idle(s: State) { WellFormed(s) && s.callers == [Ready, Ready] && s.usage <= 0 }

  ghost predicate SmallLimit(cfg: Config) { 1 <= cfg.perStreamLimit < cfg.maxMemory }

  /** How large the doomed request is. */
  function LostSize(cfg: Config, slip: Slip, s: State): int {
    if slip.ByEviction? then cfg.maxMemory - s.usage else cfg.perStreamLimit + 1
  }

  /** After one slip: a counter far below zero, and a new stream that holds its full limit. */
  function AfterRound(cfg: Config, slip: Slip, s: State, lost: string, b: string): State {
    var n, limit := LostSize(cfg, slip, s), cfg.perStreamLimit;
    State(s.usage - n + limit, s.counters + [0 - n, limit],
          (if slip.ByReset? then s.directory else s.directory[lost := |s.counters|])[b := |s.counters| + 1], s.erased, s.callers)
  }

  /** A request of the lost size, doomed by the stream's limit. */
  function DoomedState(s: State, lost: string, size: nat): State
    requires |s.callers| >= 1
  {
    State(s.usage + size, s.counters + [size], s.directory[lost := |s.counters|], s.erased, s.callers[0 := OverStream(size, |s.counters|)])
  }

  /** The same after the slip, and after the rollback. */
  function SlippedState(slip: Slip, s: State, lost: string, size: nat): State
    requires |s.callers| >= 1
  {
    State(s.usage, s.counters + [0], if slip.ByReset? then s.directory else s.directory[lost := |s.counters|], s.erased,
          s.callers[0 := OverStream(size, |s.counters|)])
  }

  function LostState(slip: Slip, s: State, lost: string, size: nat): State {
    State(s.usage - size, s.counters + [0 - size], if slip.ByReset? then s.directory else s.directory[lost := |s.counters|], s.erased, s.callers)
  }

  /** A reset or a release that meets the doomed add subtracts its size, and the rollback subtracts it again. */
  lemma Drift(cfg: Config, reaches: (State, State) -> bool, slip: Slip, s: State, lost: string, size: nat)
    requires Closed(cfg, reaches) && !slip.ByEviction?
    requires WellFormed(s) && s.callers == [Ready, Ready] && lost !in s.directory
    requires cfg.perStreamLimit < size && s.usage + size <= cfg.maxMemory
    ensures reaches(s, LostState(slip, s, lost, size))
  {
    var c := |s.counters|;
    var s1, s2, s3 := DoomedState(s, lost, size), SlippedState(slip, s, lost, size), LostState(slip, s, lost, size);
    RequestAlone(cfg, reaches, s, lost, size);
    assert s1.counters[c := 0] == s2.counters;
    assert reaches(s1, s2) by {
      if slip.ByReset? {
        ResetAlone(cfg, reaches, s1, lost);
        assert s1.directory - {lost} == s2.directory;
      } else {
        ReleaseAlone(cfg, reaches, s1, lost);
      }
    }
    assert reaches(s2, s3) by {
      RollBackAlone(cfg, reaches, s2);
      assert s2.counters[c := 0 - size] == s3.counters && s2.callers[0 := Ready] == s3.callers;
    }
  }

  /** With the doomed add in place, another request finds the stream and evicts it. */
  lemma EvictionTakes(cfg: Config, reaches: (State, State) -> bool, s: State, lost: string, b: string)
    requires Closed(cfg, reaches) && SmallLimit(cfg) && Idle(s) && lost !in s.directory && b !in s.directory && lost != b
    ensures var size, limit, c := cfg.maxMemory - s.usage, cfg.perStreamLimit, |s.counters|;
            reaches(DoomedState(s, lost, size),
                    State(s.usage + limit, s.counters + [0], s.directory[lost := c], s.erased, [OverStream(size, c), Reserved(b, limit)]))
  {
    var size, limit, c := cfg.maxMemory - s.usage, cfg.perStreamLimit, |s.counters|;
    var s1 := DoomedState(s, lost, size);
    var s2 := s1.(callers := s1.callers[1 := VictimFound(b, limit, [], 0, c)]);
    EvictionFinds(cfg, reaches, s1, b, lost, limit);
    EvictionZeroes(cfg, reaches, s2, b, limit, c);
    assert s2.counters[c := 0] == s.counters + [0];
    assert s2.callers[1 := Reserved(b, limit)] == [OverStream(size, c), Reserved(b, limit)];
  }

  /** The same of an eviction, made by the request that then gets the limit of a new stream. */
  lemma EvictionRound(cfg: Config, reaches: (State, State) -> bool, s: State, lost: string, b: string)
    requires Closed(cfg, reaches) && SmallLimit(cfg) && Idle(s) && lost !in s.directory && b !in s.directory && lost != b
    ensures reaches(s, AfterRound(cfg, ByEviction, s, lost, b))
  {
    var size, limit, c := cfg.maxMemory - s.usage, cfg.perStreamLimit, |s.counters|;
    var s1 := DoomedState(s, lost, size);
    var s3 := State(s.usage + limit, s.counters + [0], s1.directory, s.erased, [OverStream(size, c), Reserved(b, limit)]);
    var s4 := State(s3.usage, s3.counters + [limit], s3.directory[b := c + 1], s.erased, s.callers[0 := OverStream(size, c)]);
    RequestAlone(cfg, reaches, s, lost, size);
    EvictionTakes(cfg, reaches, s, lost, b);
    assert reaches(s, s3);
    assert reaches(s3, s4) by {
      ReservedIsGranted(cfg, reaches, s3, b, limit);
      assert s3.callers[1 := Ready] == s4.callers;
    }
    assert reaches(s, s4);
    EvictionEnds(cfg, reaches, s, s4, lost, b);
  }

  /** The rollback at last. */
  lemma EvictionEnds(cfg: Config, reaches: (State, State) -> bool, s: State, s4: State, lost: string, b: string)
    requires Closed(cfg, reaches) && SmallLimit(cfg) && Idle(s) && lost != b
    requires var size, limit, c := cfg.maxMemory - s.usage, cfg.perStreamLimit, |s.counters|;
             s4 == State(s.usage + limit, s.counters + [0] + [limit], s.directory[lost := c][b := c + 1], s.erased, s.callers[0 := OverStream(size, c)])
    ensures reaches(s4, AfterRound(cfg, ByEviction, s, lost, b))
  {
    var size, c, t := cfg.maxMemory - s.usage, |s.counters|, AfterRound(cfg, ByEviction, s, lost, b);
    RollBackAlone(cfg, reaches, s4);
    assert s4.counters[c := s4.counters[c] - size] == t.counters && s4.callers[0 := Ready] == t.callers;
  }

  lemma Round(cfg: Config, reaches: (State, State) -> bool, slip: Slip, s: State, lost: string, b: string)
    requires Closed(cfg, reaches) && SmallLimit(cfg) && Idle(s) && lost !in s.directory && b !in s.directory && lost != b
    ensures reaches(s, AfterRound(cfg, slip, s, lost, b))
  {
    if slip.ByEviction? {
      EvictionRound(cfg, reaches, s, lost, b);
    } else {
      var size, limit := cfg.perStreamLimit + 1, cfg.perStreamLimit;
      var s1 := LostState(slip, s, lost, size);
      Drift(cfg, reaches, slip, s, lost, size);
      GrantedAlone(cfg, reaches, s1, b, limit);
      assert Charged(s1, b, limit).counters == AfterRound(cfg, slip, s, lost, b).counters;
    }
  }

  /** A round leaves the global counter no higher than zero, and the streams holding one limit more. */
  lemma RoundGains(cfg: Config, slip: Slip, s: State, lost: string, b: string)
    requires SmallLimit(cfg) && Idle(s) && lost !in s.directory && b !in s.directory && lost != b
    ensures var t := AfterRound(cfg, slip, s, lost, b);
            Idle(t) && HeldInAll(t) == HeldInAll(s) + cfg.perStreamLimit
  {
    var t := AfterRound(cfg, slip, s, lost, b);
    var limit := cfg.perStreamLimit;
    ListedAfter(cfg, slip, s, lost, b);
    assert Held(t) == Held(s) + [0, limit];
    SumAppend(Identity(), Held(s), [0, limit]);
    assert [0, limit][1..] == [limit] && [limit][1..] == [];
    assert Sum(Identity(), [0, limit]) == Identity()(0) + Sum(Identity(), [limit]);
    assert Sum(Identity(), [limit]) == Identity()(limit) + Sum(Identity(), []);
  }

  /** Which counters are listed after a round. */
  lemma ListedAfter(cfg: Config, slip: Slip, s: State, lost: string, b: string)
    requires SmallLimit(cfg) && Idle(s) && lost !in s.directory && b !in s.directory && lost != b
    ensures var t, c := AfterRound(cfg, slip, s, lost, b), |s.counters|;
            && WellFormed(t) && c + 1 in t.directory.Values
            && forall i :: 0 <= i < c ==> (i in t.directory.Values <==> i in s.directory.Values)
  {
    var t, c := AfterRound(cfg, slip, s, lost, b), |s.counters|;
    assert t.directory[b] == c + 1;
    forall i | 0 <= i < c ensures i in t.directory.Values <==> i in s.directory.Values {
      if i in s.directory.Values {
        var id :| id in s.directory && s.directory[id] == i;
        assert t.directory[id] == i;
      }
    }
  }

  /** A name for every number. */
  function Name(n: nat): (id: string)
    ensures |id| == n
  {
    seq(n, _ => 'x')
  }

  /** Round after round. */
  lemma {:induction false} Rounds(cfg: Config, reaches: (State, State) -> bool, slip: Slip, n: nat) returns (s: State)
    requires Closed(cfg, reaches) && SmallLimit(cfg)
    ensures reaches(Initial(2), s) && Idle(s) && HeldInAll(s) == n * cfg.perStreamLimit
    ensures forall id :: id in s.directory ==> |id| < 2 * n
    decreases n
  {
    if n == 0 {
      s := Initial(2);
      assert Next(cfg, s, Move(2, Proceed)) == s;
      assert s.callers == [Ready, Ready];
      assert Held(s) == [];
    } else {
      var before := Rounds(cfg, reaches, slip, n - 1);
      var lost, b := Name(2 * n - 2), Name(2 * n - 1);
      Round(cfg, reaches, slip, before, lost, b);
      RoundGains(cfg, slip, before, lost, b);
      s := AfterRound(cfg, slip, before, lost, b);
      assert n * cfg.perStreamLimit == (n - 1) * cfg.perStreamLimit + cfg.perStreamLimit;
    }
  }

  /** With a per-stream limit below the budget, two callers on a fresh controller can bring the listed streams to hold any
      multiple of that limit, with both callers idle and the global counter at or below zero: by a reset, by a release or
      by an eviction that meets a doomed add. */
  lemma HeldIsUnbounded(cfg: Config, slip: Slip, n: nat) returns (moves: seq<Move>)
    requires SmallLimit(cfg)
    ensures var s := Execute(cfg, Initial(2), moves);
            Idle(s) && HeldInAll(s) == n * cfg.perStreamLimit
  {
    ReachesIsClosed(cfg);
    var s := Rounds(cfg, (s, t) => WellFormed(s) && WellFormed(t) && Reaches(cfg, s, t), slip, n);
    moves :| Execute(cfg, Initial(2), moves) == s;
  }

  /** So the budget is exceeded. */
  lemma BudgetExceeded(cfg: Config, slip: Slip) returns (moves: seq<Move>)
    requires SmallLimit(cfg)
    ensures var s := Execute(cfg, Initial(2), moves);
            Idle(s) && HeldInAll(s) > cfg.maxMemory
  {
    moves := HeldIsUnbounded(cfg, slip, cfg.maxMemory + 1);
    Multiple(cfg.maxMemory + 1, cfg.perStreamLimit);
  }

  lemma Multiple(n: nat, limit: nat)
    requires limit >= 1
    ensures n * limit >= n
  {
  }

  // ---- Which limits rule it out -----------------------------------------------------------------------------------

  ghost predicate NoRequest(s: State) { forall pc :: pc in s.callers ==> !Requesting(pc) }

  /** After every run, whenever no request is in flight, the listed streams together hold no more than the budget. */
  ghost predicate AlwaysWithinBudget(cfg: Config) {
    forall callers: nat, moves: seq<Move> ::
      var s := Execute(cfg, Initial(callers), moves);
      NoRequest(s) ==> HeldInAll(s) <= cfg.maxMemory
  }

  predicate Refused(pc: Pc) { pc.OverStream? || pc.UndoGlobal? }

  /** No add is refused by a stream's limit, and nothing has gone below zero. */
  ghost predicate NoneRefused(s: State) {
    && (forall i :: 0 <= i < |s.callers| ==> !Refused(s.callers[i]))
    && NothingBelowZero(s.counters, s.erased)
  }

  lemma {:induction false} SumAtMost<T>(f: T -> int, g: T -> int, s: seq<T>, i: nat)
    requires i < |s| && forall x :: x in s ==> f(x) <= g(x)
    ensures Sum(g, s) - Sum(f, s) >= g(s[i]) - f(s[i])
    decreases |s|
  {
    if i > 0 {
      SumAtMost(f, g, s[1..], i - 1);
    } else if |s| > 1 {
      SumAtMost(f, g, s[1..], 0);
      assert s[1..][0] in s;
    }
  }

  /** What a caller is about to charge fits the budget on top of what the counter holds. */
  lemma ChargeFits(cfg: Config, s: State, i: nat)
    requires WellFormed(s) && Invariant(cfg, s) && NoneRefused(s) && i < |s.callers| && s.callers[i].Charging?
    ensures s.counters[s.callers[i].counter] + s.callers[i].size <= cfg.maxMemory
  {
    forall pc | pc in s.callers ensures DoomedGlobally()(pc) <= Pending()(pc) {
    }
    SumAtMost(DoomedGlobally(), Pending(), s.callers, i);
    assert DoomedGlobally()(s.callers[i]) == 0 && Pending()(s.callers[i]) == s.callers[i].size;
    forall x | x in s.counters ensures Identity()(x) >= 0 {
    }
    SumNonNegative(Identity(), s.counters);
    assert Identity()(s.counters[s.callers[i].counter]) <= Sum(Identity(), s.counters);
  }

  /** With a per-stream limit of at least the budget, no add that has passed the global check is refused. */
  lemma NoneRefusedKept(cfg: Config, s: State, m: Move)
    requires WellFormed(s) && Invariant(cfg, s) && NoneRefused(s) && cfg.perStreamLimit >= cfg.maxMemory
    ensures NoneRefused(Next(cfg, s, m))
  {
    if m.caller < |s.callers| {
      var pc := s.callers[m.caller];
      if pc.Charging? {
        ChargeFits(cfg, s, m.caller);
      }
      StepRefusesNone(cfg, s, pc, m.action);
    }
  }

  ghost predicate NothingBelowZero(counters: seq<int>, erased: nat) {
    erased == 0 && forall c :: 0 <= c < |counters| ==> counters[c] >= 0
  }

  lemma StepRefusesNone(cfg: Config, s: State, pc: Pc, action: Action)
    requires WellFormed(s) && (HoldsCounter(pc) ==> pc.counter < |s.counters|) && !Refused(pc) && NothingBelowZero(s.counters, s.erased)
    requires pc.Charging? ==> s.counters[pc.counter] + pc.size <= cfg.perStreamLimit
    ensures var e := StepOf(cfg, s, pc, action); !Refused(e.pc) && NothingBelowZero(e.counters, e.erased)
  {
    if pc.Evicting? || pc.VictimFound? || pc.VictimSwapped? {
      EvictRefusesNone(cfg, s, pc, action);
    } else if pc.Releasing? || pc.Loaded? || pc.Resetting? || pc.Subtracting? {
      ReleaseRefusesNone(s, pc, action);
    } else if !pc.Ready? {
      RequestRefusesNone(cfg, s, pc, action);
    }
  }

  lemma EvictRefusesNone(cfg: Config, s: State, pc: Pc, action: Action)
    requires WellFormed(s) && (HoldsCounter(pc) ==> pc.counter < |s.counters|) && !Refused(pc) && NothingBelowZero(s.counters, s.erased)
    ensures var e := EvictStep(cfg, s, pc, action); !Refused(e.pc) && NothingBelowZero(e.counters, e.erased)
  {
  }

  lemma ReleaseRefusesNone(s: State, pc: Pc, action: Action)
    requires WellFormed(s) && (HoldsCounter(pc) ==> pc.counter < |s.counters|) && !Refused(pc) && NothingBelowZero(s.counters, s.erased)
    ensures var e := ReleaseStep(s, pc, action); !Refused(e.pc) && NothingBelowZero(e.counters, e.erased)
  {
  }

  lemma RequestRefusesNone(cfg: Config, s: State, pc: Pc, action: Action)
    requires WellFormed(s) && (HoldsCounter(pc) ==> pc.counter < |s.counters|) && !Refused(pc) && NothingBelowZero(s.counters, s.erased)
    requires pc.Charging? ==> s.counters[pc.counter] + pc.size <= cfg.perStreamLimit
    ensures var e := RequestStep(cfg, s, pc, action); !Refused(e.pc) && NothingBelowZero(e.counters, e.erased)
  {
  }

  lemma {:induction false} NoneRefusedRun(cfg: Config, s: State, moves: seq<Move>)
    requires WellFormed(s) && Invariant(cfg, s) && NoneRefused(s) && cfg.perStreamLimit >= cfg.maxMemory
    ensures NoneRefused(Execute(cfg, s, moves))
    decreases |moves|
  {
    if moves != [] {
      NoneRefusedKept(cfg, s, moves[0]);
      InvariantKept(cfg, s, [moves[0]]);
      assert Execute(cfg, s, [moves[0]]) == Next(cfg, s, moves[0]);
      NoneRefusedRun(cfg, Next(cfg, s, moves[0]), moves[1..]);
    }
  }

  lemma LargeLimit(cfg: Config, callers: nat, moves: seq<Move>)
    requires cfg.perStreamLimit >= cfg.maxMemory && NoRequest(Execute(cfg, Initial(callers), moves))
    ensures HeldInAll(Execute(cfg, Initial(callers), moves)) <= cfg.maxMemory
  {
    var s := Execute(cfg, Initial(callers), moves);
    InvariantInitially(cfg, callers);
    NoneRefusedRun(cfg, Initial(callers), moves);
    AlwaysWithinLimits(cfg, callers, moves);
    QuiescentLimits(cfg, callers, moves);
    SumNonNegative(Pending(), s.callers);
    SumBelow(Held(s), s.counters);
  }

  lemma ZeroLimit(cfg: Config, callers: nat, moves: seq<Move>)
    requires cfg.perStreamLimit == 0 && NoRequest(Execute(cfg, Initial(callers), moves))
    ensures HeldInAll(Execute(cfg, Initial(callers), moves)) == 0
  {
    var s := Execute(cfg, Initial(callers), moves);
    QuiescentLimits(cfg, callers, moves);
    SumZero(Identity(), Held(s));
  }

  /** The budget bounds what the listed streams hold after every run exactly if the two limits of the constructor leave no
      room for a slip: the per-stream limit is zero, or at least the budget. */
  lemma WithinBudgetExactly(cfg: Config)
    ensures AlwaysWithinBudget(cfg) <==> cfg.perStreamLimit == 0 || cfg.perStreamLimit >= cfg.maxMemory
  {
    if SmallLimit(cfg) {
      var moves := BudgetExceeded(cfg, ByReset);
      assert NoRequest(Execute(cfg, Initial(2), moves));
    } else {
      forall callers: nat, moves: seq<Move> | NoRequest(Execute(cfg, Initial(callers), moves))
        ensures HeldInAll(Execute(cfg, Initial(callers), moves)) <= cfg.maxMemory
      {
        if cfg.perStreamLimit == 0 {
          ZeroLimit(cfg, callers, moves);
        } else {
          LargeLimit(cfg, callers, moves);
        }
      }
    }
  }
}
