/**
 * What a call does in the protocol when no other caller moves meanwhile: the same as the sequential controller. And what no step
 * of any caller undoes: a stream keeps its counter.
 */
module MemoryCalls {
  import opened Sequences
  import opened MemoryProtocol
  import MemoryController

  // ---- Streams and counters ---------------------------------------------------------------------------------

  /** No two streams share a counter. */
  ghost predicate OwnCounters(s: State) {
    forall a, b :: a in s.directory && b in s.directory && s.directory[a] == s.directory[b] ==> a == b
  }

  /** A listed stream keeps its counter as long as it is listed. It leaves the directory only by a reset of its own, and enters
      it only with a counter that no one has used. */
  lemma CounterKept(cfg: Config, s: State, m: Move, id: string)
    requires WellFormed(s)
    ensures var t := Next(cfg, s, m);
            && (id in s.directory && id in t.directory ==> t.directory[id] == s.directory[id])
            && (id in s.directory && id !in t.directory ==> m.caller < |s.callers| && s.callers[m.caller].Ready? && m.action == Reset(id))
            && (id !in s.directory && id in t.directory ==>
                  t.directory[id] == |s.counters| && t.counters == s.counters + [0] && s.callers[m.caller].Reserved? && s.callers[m.caller].stream == id)
  {
  }

  lemma OwnCountersKept(cfg: Config, s: State, m: Move)
    requires WellFormed(s) && OwnCounters(s)
    ensures OwnCounters(Next(cfg, s, m))
  {
    var t := Next(cfg, s, m);
    forall a, b | a in t.directory && b in t.directory && t.directory[a] == t.directory[b] ensures a == b {
      CounterKept(cfg, s, m, a);
      CounterKept(cfg, s, m, b);
      OneEnters(cfg, s, m, a, b);
    }
  }

  lemma OneEnters(cfg: Config, s: State, m: Move, a: string, b: string)
    requires WellFormed(s)
    ensures var t := Next(cfg, s, m); a in t.directory && b in t.directory && a !in s.directory && b !in s.directory ==> a == b
  {
    CounterKept(cfg, s, m, a);
    CounterKept(cfg, s, m, b);
  }

  /** After every run each listed stream has a counter of its own. */
  lemma {:induction false} AlwaysOwnCounters(cfg: Config, s: State, moves: seq<Move>)
    requires WellFormed(s) && OwnCounters(s)
    ensures OwnCounters(Execute(cfg, s, moves))
    decreases |moves|
  {
    if moves != [] {
      OwnCountersKept(cfg, s, moves[0]);
      AlwaysOwnCounters(cfg, Next(cfg, s, moves[0]), moves[1..]);
    }
  }

  // ---- One caller alone -------------------------------------------------------------------------------------

  /** What a caller alone sees and changes: the shared state, and its own program counter. */
  predicate Sound(e: Effect) {
    && (forall id :: id in e.directory ==> e.directory[id] < |e.counters|)
    && (HoldsCounter(e.pc) ==> e.pc.counter < |e.counters|)
  }

  function Shared(e: Effect): State { State(e.usage, e.counters, e.directory, e.erased, []) }

  function Act(cfg: Config, e: Effect, action: Action): (r: Effect)
    requires Sound(e)
    ensures Sound(r)
  {
    StepOf(cfg, Shared(e), e.pc, action)
  }

  /** A move of the caller is such a step, whatever the others are doing. */
  lemma MoveIsAct(cfg: Config, s: State, i: nat, e: Effect, action: Action)
    requires i < |s.callers| && Sound(e) && WellFormed(Apply(s, i, e))
    ensures Next(cfg, Apply(s, i, e), Move(i, action)) == Apply(s, i, Act(cfg, e, action))
  {
    SameStep(cfg, Apply(s, i, e), Shared(e), e.pc, action);
    assert Apply(s, i, e).callers[i := Act(cfg, e, action).pc] == s.callers[i := Act(cfg, e, action).pc];
  }

  /** A step does not look at the other callers. */
  lemma SameStep(cfg: Config, s: State, t: State, pc: Pc, action: Action)
    requires WellFormed(s) && WellFormed(t) && (HoldsCounter(pc) ==> pc.counter < |s.counters|)
    requires s.usage == t.usage && s.counters == t.counters && s.directory == t.directory && s.erased == t.erased
    ensures StepOf(cfg, s, pc, action) == StepOf(cfg, t, pc, action)
  {
    if pc.Evicting? || pc.VictimFound? || pc.VictimSwapped? {
      assert EvictStep(cfg, s, pc, action) == EvictStep(cfg, t, pc, action);
    } else if pc.Releasing? || pc.Loaded? || pc.Resetting? || pc.Subtracting? {
      assert ReleaseStep(s, pc, action) == ReleaseStep(t, pc, action);
    } else if pc.Ready? {
      assert BeginStep(cfg, s, action) == BeginStep(cfg, t, action);
    } else {
      assert RequestStep(cfg, s, pc, action) == RequestStep(cfg, t, pc, action);
    }
  }

  /** The call under way goes on by these actions and does not begin another. */
  ghost predicate Continues(cfg: Config, e: Effect, actions: seq<Action>, r: Effect)
    requires Sound(e)
    decreases |actions|
  {
    if actions == [] then e == r
    else !e.pc.Ready? && Continues(cfg, Act(cfg, e, actions[0]), actions[1..], r)
  }

  ghost predicate LeadsTo(cfg: Config, e: Effect, r: Effect) { Sound(e) && exists actions :: Continues(cfg, e, actions, r) }

  lemma Stays(cfg: Config, e: Effect)
    requires Sound(e)
    ensures LeadsTo(cfg, e, e)
  {
    assert Continues(cfg, e, [], e);
  }

  lemma Acts(cfg: Config, e: Effect, action: Action)
    requires Sound(e) && !e.pc.Ready?
    ensures LeadsTo(cfg, e, Act(cfg, e, action))
  {
    assert [action][1..] == [];
    assert Continues(cfg, e, [action], Act(cfg, e, action));
  }

  lemma {:induction false} ContinuesThen(cfg: Config, e: Effect, a: seq<Action>, f: Effect, b: seq<Action>, r: Effect)
    requires Sound(e) && Sound(f) && Continues(cfg, e, a, f) && Continues(cfg, f, b, r)
    ensures Continues(cfg, e, a + b, r)
    decreases |a|
  {
    if a == [] {
      assert a + b == b;
    } else {
      assert (a + b)[1..] == a[1..] + b;
      ContinuesThen(cfg, Act(cfg, e, a[0]), a[1..], f, b, r);
    }
  }

  lemma Chain(cfg: Config, e: Effect, f: Effect, r: Effect)
    requires LeadsTo(cfg, e, f) && LeadsTo(cfg, f, r)
    ensures LeadsTo(cfg, e, r)
  {
    var a :| Continues(cfg, e, a, f);
    var b :| Continues(cfg, f, b, r);
    ContinuesThen(cfg, e, a, f, b, r);
  }

  function EffectOf(s: State, pc: Pc): Effect { Effect(s.usage, s.counters, s.directory, s.erased, pc) }

  /** The call `begin` of an idle caller, made alone, can end in `t`. */
  ghost predicate Ends(cfg: Config, s: State, i: nat, begin: Action, t: State) {
    && WellFormed(s) && WellFormed(t) && i < |s.callers| && s.callers[i] == Ready && t.callers == s.callers
    && LeadsTo(cfg, StepOf(cfg, s, Ready, begin), EffectOf(t, Ready))
  }

  /** That is a run of the protocol in which only this caller moves, and begins only this call. */
  lemma EndsIsRun(cfg: Config, s: State, i: nat, begin: Action, t: State) returns (moves: seq<Move>)
    requires Ends(cfg, s, i, begin, t)
    ensures moves != [] && moves[0] == Move(i, begin) && (forall m :: m in moves ==> m.caller == i) && Execute(cfg, s, moves) == t
  {
    var e := StepOf(cfg, s, Ready, begin);
    var actions :| Continues(cfg, e, actions, EffectOf(t, Ready));
    var more := ContinuesIsRun(cfg, s, i, e, actions, EffectOf(t, Ready));
    moves := [Move(i, begin)] + more;
    assert moves[1..] == more && Next(cfg, s, Move(i, begin)) == Apply(s, i, e);
    assert t.callers == s.callers[i := Ready];
  }

  lemma {:induction false} ContinuesIsRun(cfg: Config, s: State, i: nat, e: Effect, actions: seq<Action>, r: Effect) returns (moves: seq<Move>)
    requires i < |s.callers| && Sound(e) && WellFormed(Apply(s, i, e)) && Continues(cfg, e, actions, r)
    ensures (forall m :: m in moves ==> m.caller == i) && Execute(cfg, Apply(s, i, e), moves) == Apply(s, i, r)
    decreases |actions|
  {
    moves := [];
    if actions != [] {
      MoveIsAct(cfg, s, i, e, actions[0]);
      var more := ContinuesIsRun(cfg, s, i, Act(cfg, e, actions[0]), actions[1..], r);
      moves := [Move(i, actions[0])] + more;
      assert moves[1..] == more;
    }
  }

  // ---- What the streams hold ----------------------------------------------------------------------------------

  /** What the listed streams hold, by name: the view of the sequential controller. */
  function StreamUsage(s: State): map<string, int>
    requires WellFormed(s)
  {
    map id | id in s.directory :: s.counters[s.directory[id]]
  }

  lemma SameUsage(s: State, t: State)
    requires WellFormed(s) && WellFormed(t) && s.directory == t.directory && s.counters == t.counters
    ensures StreamUsage(t) == StreamUsage(s) && OwnCounters(t) == OwnCounters(s)
  {
  }

  /** A counter changes, and with it what its stream holds. */
  lemma UsageUpdate(s: State, t: State, id: string, v: int)
    requires WellFormed(s) && WellFormed(t) && OwnCounters(s) && id in s.directory
    requires t.directory == s.directory && t.counters == s.counters[s.directory[id] := v]
    ensures StreamUsage(t) == StreamUsage(s)[id := v]
  {
    forall other | other in s.directory ensures StreamUsage(t)[other] == StreamUsage(s)[id := v][other] {
    }
  }

  /** A stream is listed with a new counter. */
  lemma UsageAdded(s: State, t: State, id: string, v: int)
    requires WellFormed(s) && WellFormed(t) && id !in s.directory
    requires t.directory == s.directory[id := |s.counters|] && t.counters == s.counters + [v]
    ensures StreamUsage(t) == StreamUsage(s)[id := v]
  {
    forall other | other in t.directory ensures StreamUsage(t)[other] == StreamUsage(s)[id := v][other] {
    }
  }

  /** A stream is no longer listed. */
  lemma UsageRemoved(s: State, t: State, id: string)
    requires WellFormed(s) && WellFormed(t) && OwnCounters(s) && id in s.directory
    requires t.directory == s.directory - {id} && t.counters == s.counters[s.directory[id] := 0]
    ensures StreamUsage(t) == StreamUsage(s) - {id}
  {
    forall other | other in t.directory ensures StreamUsage(t)[other] == StreamUsage(s)[other] {
    }
  }

  // ---- Charging a stream --------------------------------------------------------------------------------------

  /** What a request makes of the streams once it has passed the global check: the sequential controller's charge. */
  function ChargedMap(cfg: Config, before: map<string, int>, stream: string, size: nat): map<string, int> {
    var charged := MemoryController.Usage(before, stream) + size;
    before[stream := if charged <= cfg.perStreamLimit then charged else MemoryController.Usage(before, stream)]
  }

  function GrantedSize(cfg: Config, before: map<string, int>, stream: string, size: nat): nat {
    if MemoryController.Usage(before, stream) + size <= cfg.perStreamLimit then size else 0
  }

  /** The stream listed, with a new counter if need be. */
  function Listed(s: State, stream: string): State {
    if stream in s.directory then s else s.(counters := s.counters + [0], directory := s.directory[stream := |s.counters|])
  }

  /** After the charge. */
  function Settled(cfg: Config, s: State, stream: string, size: nat): State
    requires WellFormed(s)
  {
    var l := Listed(s, stream);
    var c := l.directory[stream];
    var granted := if l.counters[c] + size <= cfg.perStreamLimit then size else 0;
    State(s.usage - size + granted, l.counters[c := l.counters[c] + granted], l.directory, s.erased, s.callers)
  }

  lemma SettledUsage(cfg: Config, s: State, stream: string, size: nat)
    requires WellFormed(s) && OwnCounters(s)
    ensures var t := Settled(cfg, s, stream, size);
            && WellFormed(t) && StreamUsage(t) == ChargedMap(cfg, StreamUsage(s), stream, size)
            && t.usage == s.usage - size + GrantedSize(cfg, StreamUsage(s), stream, size)
  {
    var t := Settled(cfg, s, stream, size);
    if stream in s.directory {
      UsageUpdate(s, t, stream, t.counters[s.directory[stream]]);
    } else {
      UsageAdded(s, t, stream, t.counters[|s.counters|]);
    }
  }

  /** The same with the size put on the global counter first. */
  lemma SettledOver(cfg: Config, s: State, stream: string, size: nat)
    requires WellFormed(s) && OwnCounters(s)
    ensures var t := Settled(cfg, s.(usage := s.usage + size), stream, size);
            && WellFormed(t) && t.callers == s.callers && StreamUsage(t) == ChargedMap(cfg, StreamUsage(s), stream, size)
            && t.usage == s.usage + GrantedSize(cfg, StreamUsage(s), stream, size)
  {
    SameUsage(s, s.(usage := s.usage + size));
    SettledUsage(cfg, s.(usage := s.usage + size), stream, size);
  }

  lemma LooksUp(cfg: Config, s: State, stream: string, size: nat)
    requires WellFormed(s)
    ensures var l := Listed(s, stream);
            LeadsTo(cfg, EffectOf(s, Reserved(stream, size)), EffectOf(l, Charging(size, l.directory[stream])))
  {
    Acts(cfg, EffectOf(s, Reserved(stream, size)), Proceed);
  }

  lemma Adds(cfg: Config, s: State, size: nat, c: nat)
    requires WellFormed(s) && c < |s.counters|
    ensures var total := s.counters[c] + size;
            LeadsTo(cfg, EffectOf(s, Charging(size, c)),
                    EffectOf(s.(counters := s.counters[c := total]), if total > cfg.perStreamLimit then OverStream(size, c) else Ready))
  {
    Acts(cfg, EffectOf(s, Charging(size, c)), Proceed);
  }

  /** Over the stream's limit: the size comes off both counters again. */
  lemma TakesBack(cfg: Config, s: State, size: nat, c: nat)
    requires WellFormed(s) && c < |s.counters|
    ensures LeadsTo(cfg, EffectOf(s, OverStream(size, c)),
                    EffectOf(s.(usage := s.usage - size, counters := s.counters[c := s.counters[c] - size]), Ready))
  {
    var e := EffectOf(s, OverStream(size, c));
    var f := EffectOf(s.(counters := s.counters[c := s.counters[c] - size]), UndoGlobal(size));
    Acts(cfg, e, Proceed);
    Acts(cfg, f, Proceed);
    Chain(cfg, e, f, EffectOf(s.(usage := s.usage - size, counters := s.counters[c := s.counters[c] - size]), Ready));
  }

  lemma ChargeAlone(cfg: Config, s: State, stream: string, size: nat)
    requires WellFormed(s)
    ensures LeadsTo(cfg, EffectOf(s, Reserved(stream, size)), EffectOf(Settled(cfg, s, stream, size), Ready))
  {
    var l := Listed(s, stream);
    var c := l.directory[stream];
    LooksUp(cfg, s, stream, size);
    AddsOrNot(cfg, l, size, c);
    SettledIs(cfg, s, stream, size);
    Chain(cfg, EffectOf(s, Reserved(stream, size)), EffectOf(l, Charging(size, c)), EffectOf(Settled(cfg, s, stream, size), Ready));
  }

  lemma SettledIs(cfg: Config, s: State, stream: string, size: nat)
    requires WellFormed(s)
    ensures var l := Listed(s, stream);
            EffectOf(Settled(cfg, s, stream, size), Ready) == EffectOf(AfterAdd(cfg, l, size, l.directory[stream]), Ready)
  {
  }

  /** The size on the counter if that fits the limit, and off the global counter otherwise. */
  function AfterAdd(cfg: Config, s: State, size: nat, c: nat): State
    requires c < |s.counters|
  {
    if s.counters[c] + size <= cfg.perStreamLimit then s.(counters := s.counters[c := s.counters[c] + size])
    else s.(usage := s.usage - size)
  }

  lemma AddsOrNot(cfg: Config, s: State, size: nat, c: nat)
    requires WellFormed(s) && c < |s.counters|
    ensures LeadsTo(cfg, EffectOf(s, Charging(size, c)), EffectOf(AfterAdd(cfg, s, size, c), Ready))
  {
    Adds(cfg, s, size, c);
    if s.counters[c] + size > cfg.perStreamLimit {
      var added := s.(counters := s.counters[c := s.counters[c] + size]);
      TakesBack(cfg, added, size, c);
      assert added.counters[c := added.counters[c] - size] == s.counters;
      assert added.(usage := s.usage - size, counters := s.counters) == AfterAdd(cfg, s, size, c);
      Chain(cfg, EffectOf(s, Charging(size, c)), EffectOf(added, OverStream(size, c)), EffectOf(AfterAdd(cfg, s, size, c), Ready));
    }
  }

  /** A request that fits the budget: charged to the stream's counter, listed or new, if that fits the stream's limit, and
      otherwise undone on both counters. */
  lemma RequestAlone(cfg: Config, s: State, i: nat, stream: string, size: nat) returns (t: State)
    requires WellFormed(s) && OwnCounters(s) && i < |s.callers| && s.callers[i] == Ready && s.usage + size <= cfg.maxMemory
    ensures Ends(cfg, s, i, Request(stream, size), t) && StreamUsage(t) == ChargedMap(cfg, StreamUsage(s), stream, size)
    ensures t.usage == s.usage + GrantedSize(cfg, StreamUsage(s), stream, size)
  {
    ChargeAlone(cfg, s.(usage := s.usage + size), stream, size);
    SettledOver(cfg, s, stream, size);
    t := Settled(cfg, s.(usage := s.usage + size), stream, size);
  }

  // ---- Requests that do not fit -----------------------------------------------------------------------------

  /** An attempt over the budget is undone, and leads to where the caller may try again. */
  lemma AttemptUndone(cfg: Config, s: State, stream: string, size: nat, attempt: nat)
    requires WellFormed(s) && s.usage + size > cfg.maxMemory
    ensures LeadsTo(cfg, AddGlobal(cfg, s, stream, size, attempt), EffectOf(s, RolledBack(stream, size, attempt)))
  {
    Acts(cfg, AddGlobal(cfg, s, stream, size, attempt), Proceed);
  }

  lemma GivesUp(cfg: Config, s: State, stream: string, size: nat, attempt: nat)
    requires WellFormed(s) && (attempt >= 2 || !HighPressure(cfg, s.usage))
    ensures LeadsTo(cfg, EffectOf(s, RolledBack(stream, size, attempt)), EffectOf(s, Ready))
  {
    Acts(cfg, EffectOf(s, RolledBack(stream, size, attempt)), Proceed);
  }

  /** Garbage collection, which frees nothing here, is followed by one more attempt, and no other of the kind. */
  lemma CollectsOnce(cfg: Config, s: State, stream: string, size: nat)
    requires WellFormed(s) && s.usage + size > cfg.maxMemory
    ensures LeadsTo(cfg, EffectOf(s, RolledBack(stream, size, 0)), EffectOf(s, RolledBack(stream, size, 1)))
    ensures forall attempt: nat :: attempt > 0 ==>
              Act(cfg, EffectOf(s, RolledBack(stream, size, attempt)), RetryAfterGc) == EffectOf(s, RolledBack(stream, size, attempt))
  {
    Acts(cfg, EffectOf(s, RolledBack(stream, size, 0)), RetryAfterGc);
    AttemptUndone(cfg, s, stream, size, 1);
    Chain(cfg, EffectOf(s, RolledBack(stream, size, 0)), AddGlobal(cfg, s, stream, size, 1), EffectOf(s, RolledBack(stream, size, 1)));
  }

  /** A request over the budget that finds no high pressure changes nothing. */
  lemma RequestRefused(cfg: Config, s: State, i: nat, stream: string, size: nat)
    requires WellFormed(s) && i < |s.callers| && s.callers[i] == Ready
    requires s.usage + size > cfg.maxMemory && !HighPressure(cfg, s.usage)
    ensures Ends(cfg, s, i, Request(stream, size), s)
  {
    AttemptUndone(cfg, s, stream, size, 0);
    GivesUp(cfg, s, stream, size, 0);
    Chain(cfg, AddGlobal(cfg, s, stream, size, 0), EffectOf(s, RolledBack(stream, size, 0)), EffectOf(s, Ready));
  }

  /** High pressure is more than 80% of the budget in use. */
  lemma PressureIsEighty(cfg: Config, usage: int)
    ensures HighPressure(cfg, usage) <==> usage as real > 0.8 * cfg.maxMemory as real
  {
    assert (5 * usage) as real == 5.0 * usage as real && (4 * cfg.maxMemory) as real == 4.0 * cfg.maxMemory as real;
  }

  /** After the attempt that follows an eviction there is no other, and without high pressure there is no eviction: whatever the
      caller chooses, it gives up or stays where it is. */
  lemma NoOtherAttempt(cfg: Config, s: State, stream: string, size: nat, attempt: nat, action: Action)
    requires WellFormed(s) && (attempt >= 2 || (!HighPressure(cfg, s.usage) && !action.RetryAfterGc?))
    ensures var e := EffectOf(s, RolledBack(stream, size, attempt));
            Act(cfg, e, action) == e || Act(cfg, e, action) == EffectOf(s, Ready)
  {
  }

  // ---- Eviction ---------------------------------------------------------------------------------------------

  /** The streams with the victims zeroed. */
  function Zeroed(before: map<string, int>, victims: seq<string>): map<string, int> {
    map id | id in before :: if id in victims then 0 else before[id]
  }

  function Above(n: int): nat { if n > 0 then n else 0 }

  /** What the victims give back; one that is named twice gives only once. */
  function Given(before: map<string, int>, victims: seq<string>): nat
    decreases |victims|
  {
    if victims == [] then 0
    else if victims[0] in before then Above(before[victims[0]]) + Given(before[victims[0] := 0], victims[1..])
    else Given(before, victims[1..])
  }

  /** After one victim. */
  function Taken(s: State, victim: string): State
    requires WellFormed(s)
  {
    if victim in s.directory then
      var held := s.counters[s.directory[victim]];
      State(s.usage - Above(held), s.counters[s.directory[victim] := 0], s.directory, s.erased + Above(-held), s.callers)
    else s
  }

  function HeldBy(s: State, victim: string): nat
    requires WellFormed(s)
  {
    if victim in s.directory then Above(s.counters[s.directory[victim]]) else 0
  }

  lemma TakenUsage(s: State, victim: string)
    requires WellFormed(s) && OwnCounters(s)
    ensures var t, before := Taken(s, victim), StreamUsage(s);
            && WellFormed(t) && OwnCounters(t) && StreamUsage(t) == (if victim in before then before[victim := 0] else before)
            && t.usage == s.usage - HeldBy(s, victim)
  {
    if victim in s.directory {
      UsageUpdate(s, Taken(s, victim), victim, 0);
    }
  }

  lemma VictimAlone(cfg: Config, s: State, stream: string, size: nat, victims: seq<string>, evicted: nat)
    requires WellFormed(s) && victims != []
    ensures LeadsTo(cfg, EffectOf(s, Evicting(stream, size, victims, evicted)),
                    EffectOf(Taken(s, victims[0]), Evicting(stream, size, victims[1..], evicted + HeldBy(s, victims[0]))))
  {
    Acts(cfg, EffectOf(s, Evicting(stream, size, victims, evicted)), Proceed);
    if victims[0] in s.directory {
      var c := s.directory[victims[0]];
      SwapAlone(cfg, s, stream, size, victims[1..], evicted, c);
      Chain(cfg, EffectOf(s, Evicting(stream, size, victims, evicted)), EffectOf(s, VictimFound(stream, size, victims[1..], evicted, c)),
            EffectOf(Taken(s, victims[0]), Evicting(stream, size, victims[1..], evicted + HeldBy(s, victims[0]))));
    }
  }

  lemma SwapAlone(cfg: Config, s: State, stream: string, size: nat, victims: seq<string>, evicted: nat, c: nat)
    requires WellFormed(s) && c < |s.counters|
    ensures var held := s.counters[c];
            LeadsTo(cfg, EffectOf(s, VictimFound(stream, size, victims, evicted, c)),
                    Effect(s.usage - Above(held), s.counters[c := 0], s.directory, s.erased + Above(-held),
                           Evicting(stream, size, victims, evicted + Above(held))))
  {
    var held, zero := s.counters[c], s.(counters := s.counters[c := 0]);
    Acts(cfg, EffectOf(s, VictimFound(stream, size, victims, evicted, c)), Proceed);
    if held > 0 {
      GivesBack(cfg, zero, stream, size, victims, evicted, held);
      Chain(cfg, EffectOf(s, VictimFound(stream, size, victims, evicted, c)), EffectOf(zero, VictimSwapped(stream, size, victims, evicted, held)),
            EffectOf(zero.(usage := s.usage - held), Evicting(stream, size, victims, evicted + held)));
    }
  }

  lemma GivesBack(cfg: Config, s: State, stream: string, size: nat, victims: seq<string>, evicted: nat, amount: nat)
    requires WellFormed(s)
    ensures LeadsTo(cfg, EffectOf(s, VictimSwapped(stream, size, victims, evicted, amount)),
                    EffectOf(s.(usage := s.usage - amount), Evicting(stream, size, victims, evicted + amount)))
  {
    Acts(cfg, EffectOf(s, VictimSwapped(stream, size, victims, evicted, amount)), Proceed);
  }

  lemma HeldIs(s: State, victim: string)
    requires WellFormed(s)
    ensures HeldBy(s, victim) == if victim in StreamUsage(s) then Above(StreamUsage(s)[victim]) else 0
  {
  }

  /** After all victims, and what they gave back. */
  function AllTaken(s: State, victims: seq<string>): (t: State)
    requires WellFormed(s)
    ensures WellFormed(t)
    decreases |victims|
  {
    if victims == [] then s else AllTaken(Taken(s, victims[0]), victims[1..])
  }

  function AllHeld(s: State, victims: seq<string>): nat
    requires WellFormed(s)
    decreases |victims|
  {
    if victims == [] then 0 else HeldBy(s, victims[0]) + AllHeld(Taken(s, victims[0]), victims[1..])
  }

  /** Each listed victim is zeroed, and nothing else. */
  lemma {:induction false} AllTakenUsage(s: State, victims: seq<string>)
    requires WellFormed(s) && OwnCounters(s)
    ensures var t := AllTaken(s, victims);
            && OwnCounters(t) && t.callers == s.callers && StreamUsage(t) == Zeroed(StreamUsage(s), victims)
            && AllHeld(s, victims) == Given(StreamUsage(s), victims) && t.usage == s.usage - AllHeld(s, victims)
    decreases |victims|
  {
    if victims == [] {
      assert Zeroed(StreamUsage(s), []) == StreamUsage(s);
    } else {
      TakenUsage(s, victims[0]);
      HeldIs(s, victims[0]);
      AllTakenUsage(Taken(s, victims[0]), victims[1..]);
      ZeroedNext(StreamUsage(s), victims);
    }
  }

  lemma {:induction false} EvictAlone(cfg: Config, s: State, stream: string, size: nat, victims: seq<string>, evicted: nat)
    requires WellFormed(s)
    ensures LeadsTo(cfg, EffectOf(s, Evicting(stream, size, victims, evicted)),
                    EffectOf(AllTaken(s, victims), Evicting(stream, size, [], evicted + AllHeld(s, victims))))
    decreases |victims|
  {
    if victims == [] {
      Stays(cfg, EffectOf(s, Evicting(stream, size, victims, evicted)));
    } else {
      EvictAlone(cfg, Taken(s, victims[0]), stream, size, victims[1..], evicted + HeldBy(s, victims[0]));
      EvictMore(cfg, s, stream, size, victims, evicted,
                EffectOf(AllTaken(s, victims), Evicting(stream, size, [], evicted + AllHeld(s, victims))));
    }
  }

  lemma EvictMore(cfg: Config, s: State, stream: string, size: nat, victims: seq<string>, evicted: nat, r: Effect)
    requires WellFormed(s) && victims != []
    requires LeadsTo(cfg, EffectOf(Taken(s, victims[0]), Evicting(stream, size, victims[1..], evicted + HeldBy(s, victims[0]))), r)
    ensures LeadsTo(cfg, EffectOf(s, Evicting(stream, size, victims, evicted)), r)
  {
    VictimAlone(cfg, s, stream, size, victims, evicted);
    Chain(cfg, EffectOf(s, Evicting(stream, size, victims, evicted)),
          EffectOf(Taken(s, victims[0]), Evicting(stream, size, victims[1..], evicted + HeldBy(s, victims[0]))), r);
  }

  lemma ZeroedNext(before: map<string, int>, victims: seq<string>)
    requires victims != []
    ensures var next := if victims[0] in before then before[victims[0] := 0] else before;
            && Zeroed(before, victims) == Zeroed(next, victims[1..])
            && Given(before, victims) == (if victims[0] in before then Above(before[victims[0]]) else 0) + Given(next, victims[1..])
  {
  }

  /** After the eviction: one last attempt, if anything was given back. */
  function AfterEviction(cfg: Config, s: State, stream: string, size: nat, evicted: nat): State
    requires WellFormed(s)
  {
    if evicted > 0 && s.usage + size <= cfg.maxMemory then Settled(cfg, s.(usage := s.usage + size), stream, size) else s
  }

  lemma LastAttempt(cfg: Config, s: State, stream: string, size: nat, evicted: nat)
    requires WellFormed(s)
    ensures LeadsTo(cfg, EffectOf(s, Evicting(stream, size, [], evicted)), EffectOf(AfterEviction(cfg, s, stream, size, evicted), Ready))
  {
    TriesAgain(cfg, s, stream, size, evicted);
    if evicted > 0 {
      var f, r := AddGlobal(cfg, s, stream, size, 2), EffectOf(AfterEviction(cfg, s, stream, size, evicted), Ready);
      if s.usage + size <= cfg.maxMemory {
        ChargeAlone(cfg, s.(usage := s.usage + size), stream, size);
      } else {
        FailsAgain(cfg, s, stream, size);
      }
      Chain(cfg, EffectOf(s, Evicting(stream, size, [], evicted)), f, r);
    }
  }

  lemma TriesAgain(cfg: Config, s: State, stream: string, size: nat, evicted: nat)
    requires WellFormed(s)
    ensures LeadsTo(cfg, EffectOf(s, Evicting(stream, size, [], evicted)), if evicted > 0 then AddGlobal(cfg, s, stream, size, 2) else EffectOf(s, Ready))
  {
    Acts(cfg, EffectOf(s, Evicting(stream, size, [], evicted)), Proceed);
  }

  lemma FailsAgain(cfg: Config, s: State, stream: string, size: nat)
    requires WellFormed(s) && s.usage + size > cfg.maxMemory
    ensures LeadsTo(cfg, AddGlobal(cfg, s, stream, size, 2), EffectOf(s, Ready))
  {
    AttemptUndone(cfg, s, stream, size, 2);
    GivesUp(cfg, s, stream, size, 2);
    Chain(cfg, AddGlobal(cfg, s, stream, size, 2), EffectOf(s, RolledBack(stream, size, 2)), EffectOf(s, Ready));
  }

  lemma AfterEvictionUsage(cfg: Config, s: State, stream: string, size: nat, evicted: nat)
    requires WellFormed(s) && OwnCounters(s)
    ensures var t := AfterEviction(cfg, s, stream, size, evicted);
            && WellFormed(t) && t.callers == s.callers
            && (if evicted > 0 && s.usage + size <= cfg.maxMemory
                then StreamUsage(t) == ChargedMap(cfg, StreamUsage(s), stream, size) && t.usage == s.usage + GrantedSize(cfg, StreamUsage(s), stream, size)
                else t == s)
  {
    if evicted > 0 && s.usage + size <= cfg.maxMemory {
      SettledOver(cfg, s, stream, size);
    }
  }

  /** A request over the budget that finds the pressure high: the victims are zeroed, and then the request is charged on what is
      left if they gave anything back and it now fits, and otherwise leaves that as it is. */
  lemma RequestEvicts(cfg: Config, s: State, i: nat, stream: string, size: nat, victims: seq<string>) returns (t: State)
    requires WellFormed(s) && OwnCounters(s) && i < |s.callers| && s.callers[i] == Ready
    requires s.usage + size > cfg.maxMemory && HighPressure(cfg, s.usage)
    ensures Ends(cfg, s, i, Request(stream, size), t)
    ensures var before := StreamUsage(s);
            var given, kept := Given(before, victims), Zeroed(before, victims);
            if given > 0 && s.usage - given + size <= cfg.maxMemory
            then StreamUsage(t) == ChargedMap(cfg, kept, stream, size) && t.usage == s.usage - given + GrantedSize(cfg, kept, stream, size)
            else StreamUsage(t) == kept && t.usage == s.usage - given
  {
    AllTakenUsage(s, victims);
    AfterEvictionUsage(cfg, AllTaken(s, victims), stream, size, AllHeld(s, victims));
    EvictPath(cfg, s, stream, size, victims);
    t := AfterEviction(cfg, AllTaken(s, victims), stream, size, AllHeld(s, victims));
  }

  lemma EvictPath(cfg: Config, s: State, stream: string, size: nat, victims: seq<string>)
    requires WellFormed(s) && s.usage + size > cfg.maxMemory && HighPressure(cfg, s.usage)
    ensures LeadsTo(cfg, AddGlobal(cfg, s, stream, size, 0),
                    EffectOf(AfterEviction(cfg, AllTaken(s, victims), stream, size, AllHeld(s, victims)), Ready))
  {
    var kept, given := AllTaken(s, victims), AllHeld(s, victims);
    var begun, chosen, done := AddGlobal(cfg, s, stream, size, 0), EffectOf(s, Evicting(stream, size, victims, 0)), EffectOf(kept, Evicting(stream, size, [], given));
    ChoosesVictims(cfg, s, stream, size, victims);
    EvictAlone(cfg, s, stream, size, victims, 0);
    Chain(cfg, begun, chosen, done);
    LastAttempt(cfg, kept, stream, size, given);
    Chain(cfg, begun, done, EffectOf(AfterEviction(cfg, kept, stream, size, given), Ready));
  }

  lemma ChoosesVictims(cfg: Config, s: State, stream: string, size: nat, victims: seq<string>)
    requires WellFormed(s) && s.usage + size > cfg.maxMemory && HighPressure(cfg, s.usage)
    ensures LeadsTo(cfg, AddGlobal(cfg, s, stream, size, 0), EffectOf(s, Evicting(stream, size, victims, 0)))
  {
    AttemptUndone(cfg, s, stream, size, 0);
    Chooses(cfg, s, stream, size, victims);
    Chain(cfg, AddGlobal(cfg, s, stream, size, 0), EffectOf(s, RolledBack(stream, size, 0)), EffectOf(s, Evicting(stream, size, victims, 0)));
  }

  lemma Chooses(cfg: Config, s: State, stream: string, size: nat, victims: seq<string>)
    requires WellFormed(s) && HighPressure(cfg, s.usage)
    ensures LeadsTo(cfg, EffectOf(s, RolledBack(stream, size, 0)), EffectOf(s, Evicting(stream, size, victims, 0)))
  {
    Acts(cfg, EffectOf(s, RolledBack(stream, size, 0)), Evict(victims));
  }

  // ---- Releases and resets ------------------------------------------------------------------------------------

  /** What a release takes: the size, or what there is, whichever is less; nothing from a stream that holds nothing. */
  function Amount(held: int, size: nat): nat { if held <= 0 then 0 else if held >= size then size else held }

  /** A release takes that off both counters, and nothing if the stream is not listed. */
  lemma ReleaseAlone(cfg: Config, s: State, i: nat, stream: string, size: nat) returns (t: State)
    requires WellFormed(s) && OwnCounters(s) && i < |s.callers| && s.callers[i] == Ready
    ensures Ends(cfg, s, i, Release(stream, size), t)
    ensures var before := StreamUsage(s);
            if stream in before
            then StreamUsage(t) == before[stream := before[stream] - Amount(before[stream], size)] && t.usage == s.usage - Amount(before[stream], size)
            else StreamUsage(t) == before && t.usage == s.usage
  {
    if stream in s.directory {
      t := ReleasedState(s, stream, size);
      TakeAlone(cfg, s, size, s.directory[stream]);
      ReleasedUsage(s, stream, size);
    } else {
      t := s;
      Stays(cfg, EffectOf(s, Ready));
    }
  }

  function ReleasedState(s: State, stream: string, size: nat): State
    requires WellFormed(s) && stream in s.directory
  {
    var c := s.directory[stream];
    var amount := Amount(s.counters[c], size);
    s.(usage := s.usage - amount, counters := s.counters[c := s.counters[c] - amount])
  }

  lemma ReleasedUsage(s: State, stream: string, size: nat)
    requires WellFormed(s) && OwnCounters(s) && stream in s.directory
    ensures var t, before := ReleasedState(s, stream, size), StreamUsage(s);
            && WellFormed(t) && stream in before && t.usage == s.usage - Amount(before[stream], size)
            && StreamUsage(t) == before[stream := before[stream] - Amount(before[stream], size)]
  {
    var c := s.directory[stream];
    UsageUpdate(s, ReleasedState(s, stream, size), stream, s.counters[c] - Amount(s.counters[c], size));
  }

  lemma TakeAlone(cfg: Config, s: State, size: nat, c: nat)
    requires WellFormed(s) && c < |s.counters|
    ensures var amount := Amount(s.counters[c], size);
            LeadsTo(cfg, EffectOf(s, Releasing(size, c)),
                    EffectOf(s.(usage := s.usage - amount, counters := s.counters[c := s.counters[c] - amount]), Ready))
  {
    var held, amount := s.counters[c], Amount(s.counters[c], size);
    Loads(cfg, s, size, c);
    if held <= 0 {
      assert s.counters[c := held - amount] == s.counters;
    } else {
      var taken := s.(counters := s.counters[c := held - amount]);
      Swaps(cfg, s, size, c);
      Subtracts(cfg, taken, amount);
      Chain(cfg, EffectOf(s, Releasing(size, c)), EffectOf(s, Loaded(size, c, held)), EffectOf(taken, Subtracting(amount)));
      Chain(cfg, EffectOf(s, Releasing(size, c)), EffectOf(taken, Subtracting(amount)), EffectOf(taken.(usage := s.usage - amount), Ready));
    }
  }

  lemma Loads(cfg: Config, s: State, size: nat, c: nat)
    requires WellFormed(s) && c < |s.counters|
    ensures LeadsTo(cfg, EffectOf(s, Releasing(size, c)), EffectOf(s, if s.counters[c] <= 0 then Ready else Loaded(size, c, s.counters[c])))
  {
    Acts(cfg, EffectOf(s, Releasing(size, c)), Proceed);
  }

  lemma Swaps(cfg: Config, s: State, size: nat, c: nat)
    requires WellFormed(s) && c < |s.counters| && s.counters[c] > 0
    ensures var amount := Amount(s.counters[c], size);
            LeadsTo(cfg, EffectOf(s, Loaded(size, c, s.counters[c])), EffectOf(s.(counters := s.counters[c := s.counters[c] - amount]), Subtracting(amount)))
  {
    Acts(cfg, EffectOf(s, Loaded(size, c, s.counters[c])), Proceed);
  }

  lemma Subtracts(cfg: Config, s: State, amount: nat)
    requires WellFormed(s)
    ensures LeadsTo(cfg, EffectOf(s, Subtracting(amount)), EffectOf(s.(usage := s.usage - amount), Ready))
  {
    Acts(cfg, EffectOf(s, Subtracting(amount)), Proceed);
  }

  /** A reset takes the stream out of the directory, and what it held off the global counter. */
  lemma ResetAlone(cfg: Config, s: State, i: nat, stream: string) returns (t: State)
    requires WellFormed(s) && OwnCounters(s) && i < |s.callers| && s.callers[i] == Ready
    ensures Ends(cfg, s, i, Reset(stream), t) && StreamUsage(t) == StreamUsage(s) - {stream}
    ensures t.usage == s.usage - if stream in StreamUsage(s) then Above(StreamUsage(s)[stream]) else 0
  {
    if stream in s.directory {
      var c := s.directory[stream];
      t := State(s.usage - Above(s.counters[c]), s.counters[c := 0], s.directory - {stream}, s.erased + Above(-s.counters[c]), s.callers);
      ZeroAlone(cfg, s.(directory := s.directory - {stream}), c);
      UsageRemoved(s, t, stream);
    } else {
      t := s;
      Stays(cfg, EffectOf(s, Ready));
      assert StreamUsage(s) - {stream} == StreamUsage(s);
    }
  }

  lemma ZeroAlone(cfg: Config, s: State, c: nat)
    requires WellFormed(s) && c < |s.counters|
    ensures var held := s.counters[c];
            LeadsTo(cfg, EffectOf(s, Resetting(c)), Effect(s.usage - Above(held), s.counters[c := 0], s.directory, s.erased + Above(-held), Ready))
  {
    var e, held := EffectOf(s, Resetting(c)), s.counters[c];
    Acts(cfg, e, Proceed);
    if held > 0 {
      var f := Effect(s.usage, s.counters[c := 0], s.directory, s.erased, Subtracting(held));
      Acts(cfg, f, Proceed);
      Chain(cfg, e, f, Effect(s.usage - held, s.counters[c := 0], s.directory, s.erased, Ready));
    }
  }
}
