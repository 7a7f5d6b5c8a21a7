/** The memory controller as one caller at a time sees it: an exact ledger, and eviction that always makes room. */
module MemoryController {
  import opened Sequences
  import opened Eviction

  datatype Result = Granted | GlobalLimitExceeded | StreamLimitExceeded

  datatype Tracked = Tracked(lastAccess: int, priority: int, active: bool)

  // ---- Sums over a map -----------------------------------------------------------------------------------------

  ghost function TotalOver(keys: set<string>, m: map<string, int>): int
    requires keys <= m.Keys
  {
    if keys == {} then 0 else var k :| k in keys; m[k] + TotalOver(keys - {k}, m)
  }

  /** Any key may be taken out first. */
  lemma {:induction false} TotalWithout(keys: set<string>, m: map<string, int>, k: string)
    requires k in keys && keys <= m.Keys
    ensures TotalOver(keys, m) == m[k] + TotalOver(keys - {k}, m)
    decreases keys
  {
    var first :| first in keys && TotalOver(keys, m) == m[first] + TotalOver(keys - {first}, m);
    if first != k {
      TotalWithout(keys - {first}, m, k);
      TotalWithout(keys - {k}, m, first);
      assert keys - {first} - {k} == keys - {k} - {first};
    }
  }

  lemma {:induction false} TotalSame(keys: set<string>, m: map<string, int>, n: map<string, int>)
    requires keys <= m.Keys && keys <= n.Keys && forall k :: k in keys ==> m[k] == n[k]
    ensures TotalOver(keys, m) == TotalOver(keys, n)
    decreases keys
  {
    if keys != {} {
      var k :| k in keys;
      TotalWithout(keys, m, k);
      TotalWithout(keys, n, k);
      TotalSame(keys - {k}, m, n);
    }
  }

  ghost function MapTotal(m: map<string, int>): int { TotalOver(m.Keys, m) }

  function Usage(m: map<string, int>, id: string): int { if id in m then m[id] else 0 }

  lemma TotalUpdate(m: map<string, int>, id: string, v: int)
    ensures MapTotal(m[id := v]) == MapTotal(m) - Usage(m, id) + v
  {
    var n := m[id := v];
    var others := m.Keys - {id};
    TotalWithout(n.Keys, n, id);
    assert n.Keys - {id} == others;
    TotalSame(others, m, n);
    if id in m {
      TotalWithout(m.Keys, m, id);
    } else {
      assert others == m.Keys;
    }
  }

  lemma TotalRemove(m: map<string, int>, id: string)
    requires id in m
    ensures MapTotal(m - {id}) == MapTotal(m) - m[id]
  {
    TotalWithout(m.Keys, m, id);
    assert (m - {id}).Keys == m.Keys - {id};
    TotalSame(m.Keys - {id}, m, m - {id});
  }

  lemma {:induction false} TotalBounds(keys: set<string>, m: map<string, int>)
    requires keys <= m.Keys && forall k :: k in keys ==> m[k] >= 0
    ensures TotalOver(keys, m) >= 0
    ensures forall k :: k in keys ==> m[k] <= TotalOver(keys, m)
    decreases keys
  {
    if keys != {} {
      var k :| k in keys;
      TotalWithout(keys, m, k);
      TotalBounds(keys - {k}, m);
    }
  }

  // ---- The controller ------------------------------------------------------------------------------------------

  /** Which streams an eviction zeroes: distinct streams that held memory, freeing at least the target or everything. */
  ghost predicate EvictedFor(before: map<string, int>, after: map<string, int>, target: int) {
    && after.Keys == before.Keys
    && (forall id :: id in before ==> after[id] == before[id] || (after[id] == 0 && before[id] > 0))
    && (MapTotal(before) - MapTotal(after) >= target || MapTotal(after) == 0)
  }

  function TrackedAs(tracker: map<string, Tracked>, id: string, now: int): Tracked {
    if id in tracker then tracker[id] else Tracked(now, 5, true)
  }

  /** A stream that is not tracked counts as active. */
  predicate IsActive(tracker: map<string, Tracked>, id: string) { id in tracker ==> tracker[id].active }

  ghost function Inactive(usages: map<string, int>, tracker: map<string, Tracked>): set<string> {
    set id | id in usages && !IsActive(tracker, id)
  }

  /** An active stream loses its memory only together with all inactive ones, when those hold less than the target. */
  ghost predicate ActiveSpared(before: map<string, int>, after: map<string, int>, tracker: map<string, Tracked>, target: int) {
    forall id :: id in before && id in after && after[id] != before[id] && IsActive(tracker, id) ==>
      && (forall other :: other in before && other in after && !IsActive(tracker, other) ==> after[other] <= 0)
      && TotalOver(Inactive(before, tracker), before) < target
  }

  /** The strategy tells active streams from others, and no weight, age or priority is negative. */
  ghost predicate SparingTracked(strategy: Strategy, tracker: map<string, Tracked>, now: int) {
    strategy.Lru? ||
    (strategy.Hybrid? && strategy.weights.age >= 0.0 && strategy.weights.size >= 0.0 && strategy.weights.priority >= 0.0 &&
     forall id :: id in tracker ==> tracker[id].lastAccess <= now && tracker[id].priority >= 0)
  }

  /** The victims are chosen among the streams that hold memory, as the strategy would, and are zeroed, and no other stream is. */
  ghost predicate ChosenFrom(strategy: Strategy, before: map<string, int>, after: map<string, int>, tracker: map<string, Tracked>, target: int, now: int,
                             streams: seq<StreamInfo>, victims: seq<Keyed>, rest: seq<Keyed>) {
    && Candidates(streams, before, tracker, now)
    && Chosen(KeyAll(KeyOf(strategy, streams, now), streams), target, victims, rest) && RightOnes(strategy, streams, now, victims, rest)
    && after.Keys == before.Keys && forall id :: id in before ==> after[id] == if id in Ids(victims) then 0 else before[id]
  }

  /** The streams zeroed are the fewest that free the target, or all, and those the strategy puts first. */
  ghost predicate EvictedBy(strategy: Strategy, before: map<string, int>, after: map<string, int>, tracker: map<string, Tracked>, target: int, now: int) {
    exists streams, victims, rest :: ChosenFrom(strategy, before, after, tracker, target, now, streams, victims, rest)
  }

  lemma NothingToEvict(strategy: Strategy, usages: map<string, int>, tracker: map<string, Tracked>, target: int, now: int)
    requires Candidates([], usages, tracker, now)
    ensures EvictedBy(strategy, usages, usages, tracker, target, now)
  {
    assert ChosenFrom(strategy, usages, usages, tracker, target, now, [], [], []);
  }

  class Controller {
    const maxMemory: nat
    const perStreamLimit: nat
    var usage: int
    var streamUsage: map<string, int>
    var tracker: map<string, Tracked>
    var evictionCallback: bool  // whether a callback is set
    var evictionStrategy: Strategy

    /** The exact ledger: the global counter is the sum of the stream counters, none is negative, and both limits hold. */
    ghost predicate Valid()
      reads this
    {
      && usage == MapTotal(streamUsage) <= maxMemory
      && forall id :: id in streamUsage ==> 0 <= streamUsage[id] <= perStreamLimit
    }

    constructor (maxMemory: nat, perStreamLimit: nat)
      ensures Valid() && usage == 0 && streamUsage == map[] && !evictionCallback
      ensures this.maxMemory == maxMemory && this.perStreamLimit == perStreamLimit
    {
      this.maxMemory, this.perStreamLimit := maxMemory, perStreamLimit;
      usage, streamUsage, tracker := 0, map[], map[];
      evictionCallback, evictionStrategy := false, Hybrid(Weights(0.4, 0.4, 0.2));
    }

    /** The condition under which eviction is tried: more than 80% in use, and a callback set. */
    ghost predicate TriesEviction(size: int)
      reads this
    {
      usage + size > maxMemory && 5 * usage > 4 * maxMemory && evictionCallback
    }

    /** `gcDue` is whether the last garbage collection was more than ten seconds ago; collecting frees nothing here. */
    method RequestMemory(stream: string, size: nat, gcDue: bool, now: int) returns (r: Result)
      requires Valid()
      modifies this`usage, this`streamUsage
      ensures Valid()
      // Without eviction, nothing is taken from any stream.
      ensures !old(TriesEviction(size)) && old(usage) + size > maxMemory ==>
                r == GlobalLimitExceeded && streamUsage == old(streamUsage)
      // Eviction suffices exactly when the size is within the budget; a larger one zeroes every stream and then fails.
      ensures old(TriesEviction(size)) ==> (r == GlobalLimitExceeded <==> size > maxMemory)
      ensures old(TriesEviction(size)) && size > maxMemory ==>
                EvictedFor(old(streamUsage), streamUsage, size) && usage == 0 && forall id :: id in streamUsage ==> streamUsage[id] == 0
      ensures old(usage) + size <= maxMemory ==> r != GlobalLimitExceeded
      // The charge, on top of what eviction has left.
      ensures r != GlobalLimitExceeded ==>
                exists kept :: Charged(kept, streamUsage, stream, size, r) &&
                  if old(usage) + size <= maxMemory then kept == old(streamUsage)
                  else EvictedFor(old(streamUsage), kept, size) && FairlyEvicted(old(streamUsage), kept, size, now)
    {
      var newUsage := usage + size;
      usage := newUsage;
      if newUsage > maxMemory {
        usage := usage - size;
        if gcDue {
          newUsage := usage + size;
          usage := newUsage;
          if newUsage <= maxMemory {
            // A collection does not change the counters, so the retry cannot succeed.
            assert false;
          }
          usage := usage - size;
        }
        if 5 * usage > 4 * maxMemory {
          r := EvictAndRetry(stream, size, now);
          return;
        }
        return GlobalLimitExceeded;
      }
      r := ChargeStream(stream, size);
      assert Charged(old(streamUsage), streamUsage, stream, size, r);
    }

    /** The last attempt. */
    method EvictAndRetry(stream: string, size: nat, now: int) returns (r: Result)
      requires Valid() && usage + size > maxMemory && usage > 0
      modifies this`usage, this`streamUsage
      ensures Valid()
      ensures !evictionCallback ==> r == GlobalLimitExceeded && streamUsage == old(streamUsage)
      ensures evictionCallback ==> (r == GlobalLimitExceeded <==> size > maxMemory)
      ensures evictionCallback && size > maxMemory ==>
                EvictedFor(old(streamUsage), streamUsage, size) && usage == 0 && forall id :: id in streamUsage ==> streamUsage[id] == 0
      ensures r != GlobalLimitExceeded ==>
                exists kept :: EvictedFor(old(streamUsage), kept, size) && FairlyEvicted(old(streamUsage), kept, size, now) &&
                               Charged(kept, streamUsage, stream, size, r)
    {
      var evicted := EvictMemory(size, now);
      TotalBounds(streamUsage.Keys, streamUsage);
      if evicted > 0 {
        var newUsage := usage + size;
        usage := newUsage;
        if newUsage <= maxMemory {
          ghost var kept := streamUsage;
          r := ChargeStream(stream, size);
          assert Charged(kept, streamUsage, stream, size, r);
          return;
        }
        usage := usage - size;
      }
      return GlobalLimitExceeded;
    }

    /** The streams zeroed are those that the strategy chooses, and no more than needed; and where the strategy tells active streams
        from others, the active ones are spared. */
    ghost predicate FairlyEvicted(before: map<string, int>, after: map<string, int>, target: int, now: int)
      reads this`evictionStrategy, this`tracker
    {
      && EvictedBy(evictionStrategy, before, after, tracker, target, now)
      && (SparingTracked(evictionStrategy, tracker, now) ==> ActiveSpared(before, after, tracker, target))
    }

    /** The stream is charged if that fits its limit, and otherwise only listed. */
    ghost predicate Charged(before: map<string, int>, after: map<string, int>, stream: string, size: nat, r: Result) {
      var charged := Usage(before, stream) + size;
      && (r == Granted <==> charged <= perStreamLimit)
      && after == before[stream := if r == Granted then charged else Usage(before, stream)]
    }

    /** The per-stream check, reached with the size already on the global counter. */
    method ChargeStream(stream: string, size: nat) returns (r: Result)
      requires usage == MapTotal(streamUsage) + size <= maxMemory
      requires forall id :: id in streamUsage ==> 0 <= streamUsage[id] <= perStreamLimit
      modifies this`usage, this`streamUsage
      ensures Valid() && r != GlobalLimitExceeded
      ensures Charged(old(streamUsage), streamUsage, stream, size, r)
    {
      if stream !in streamUsage {
        TotalUpdate(streamUsage, stream, 0);
        streamUsage := streamUsage[stream := 0];
      }
      var before := streamUsage[stream];
      TotalUpdate(streamUsage, stream, before + size);
      if before + size > perStreamLimit {
        usage := usage - size;
        return StreamLimitExceeded;
      }
      streamUsage := streamUsage[stream := before + size];
      return Granted;
    }

    method ReleaseMemory(stream: string, size: nat)
      requires Valid()
      modifies this`usage, this`streamUsage
      ensures Valid()
      ensures streamUsage == if stream in old(streamUsage)
                             then old(streamUsage)[stream := if old(streamUsage)[stream] >= size then old(streamUsage)[stream] - size else 0]
                             else old(streamUsage)
    {
      if stream in streamUsage {
        var oldUsage := streamUsage[stream];
        if oldUsage <= 0 {
          assert streamUsage[stream := 0] == streamUsage;
          return;
        }
        var amount := if oldUsage >= size then size else oldUsage;
        TotalUpdate(streamUsage, stream, oldUsage - amount);
        streamUsage := streamUsage[stream := oldUsage - amount];
        TotalBounds(streamUsage.Keys, streamUsage);
        usage := usage - amount;
      }
    }

    method ResetStreamUsage(stream: string)
      requires Valid()
      modifies this`usage, this`streamUsage, this`tracker
      ensures Valid() && streamUsage == old(streamUsage) - {stream} && tracker == old(tracker) - {stream}
    {
      if stream in streamUsage {
        TotalRemove(streamUsage, stream);
        var remaining := streamUsage[stream];
        streamUsage := streamUsage - {stream};
        if remaining > 0 {
          usage := usage - remaining;
        }
      } else {
        assert streamUsage - {stream} == streamUsage;
      }
      tracker := tracker - {stream};
    }

    method EvictMemory(target: nat, now: int) returns (evicted: int)
      requires Valid() && target > 0
      modifies this`usage, this`streamUsage
      ensures Valid() && evicted == old(usage) - usage
      ensures !evictionCallback ==> streamUsage == old(streamUsage)
      ensures evictionCallback ==> EvictedFor(old(streamUsage), streamUsage, target) && FairlyEvicted(old(streamUsage), streamUsage, target, now)
      ensures evictionCallback && old(usage) > 0 ==> evicted > 0
    {
      if !evictionCallback {
        return 0;
      }
      var streams := CollectStreams(now);
      if |streams| == 0 {
        NothingToEvict(evictionStrategy, streamUsage, tracker, target, now);
        return 0;
      }
      evicted := EvictFrom(streams, target, now);
    }

    /** Chooses victims among the streams that hold memory, and zeroes them. */
    method EvictFrom(streams: seq<StreamInfo>, target: nat, now: int) returns (evicted: int)
      requires Valid() && target > 0 && Candidates(streams, streamUsage, tracker, now)
      modifies this`usage, this`streamUsage
      ensures Valid() && evicted == old(usage) - usage && EvictedFor(old(streamUsage), streamUsage, target)
      ensures old(usage) > 0 ==> evicted > 0
      ensures FairlyEvicted(old(streamUsage), streamUsage, target, now)
    {
      ghost var victims, rest;
      var selected: seq<string>;
      selected, victims, rest := Select(evictionStrategy, streams, target, now);
      ghost var key, before := KeyOf(evictionStrategy, streams, now), streamUsage;
      VictimsOfCollected(key, streams, target, victims, rest, before, tracker, now);
      evicted := ZeroStreams(selected, victims);
      EvictionIsFair(evictionStrategy, streams, target, victims, rest, before, streamUsage, tracker, now);
      assert ChosenFrom(evictionStrategy, before, streamUsage, tracker, target, now, streams, victims, rest);
    }

    /** Swaps each selected counter to zero and takes what it held off the global counter. */
    method ZeroStreams(selected: seq<string>, ghost victims: seq<Keyed>) returns (evicted: int)
      requires Valid() && selected == Ids(victims) && Distinct(victims)
      requires forall v :: v in victims ==> v.info.id in streamUsage && v.info.usage == streamUsage[v.info.id] > 0
      modifies this`usage, this`streamUsage
      ensures Valid() && evicted == old(usage) - usage == Total(victims)
      ensures streamUsage.Keys == old(streamUsage).Keys
      ensures forall id :: id in streamUsage ==> streamUsage[id] == if id in selected then 0 else old(streamUsage)[id]
    {
      ghost var before := streamUsage;
      evicted := 0;
      for i := 0 to |selected|
        invariant usage == MapTotal(streamUsage) && evicted == old(usage) - usage == Total(victims[..i])
        invariant streamUsage.Keys == before.Keys
        invariant forall id :: id in before ==> streamUsage[id] == if id in Ids(victims[..i]) then 0 else before[id]
      {
        var id := selected[i];
        assert victims[i] in victims;
        NotYetSelected(victims, i);
        assert victims[..i + 1] == victims[..i] + [victims[i]];
        assert Ids(victims[..i + 1]) == Ids(victims[..i]) + [id];
        TotalSnoc(victims[..i], victims[i]);
        var usageBefore := streamUsage[id];
        TotalUpdate(streamUsage, id, 0);
        streamUsage := streamUsage[id := 0];
        if usageBefore > 0 {
          usage := usage - usageBefore;
          evicted := evicted + usageBefore;
        }
      }
      assert victims[..|victims|] == victims;
      TotalBounds(streamUsage.Keys, streamUsage);
      SumNonNegative(UsageOf(), victims);
    }

    /** The streams that hold memory, each once. */
    method CollectStreams(now: int) returns (streams: seq<StreamInfo>)
      requires Valid()
      ensures Candidates(streams, streamUsage, tracker, now)
    {
      streams := [];
      var remaining := streamUsage.Keys;
      assert remaining * Inactive(streamUsage, tracker) == Inactive(streamUsage, tracker);
      while remaining != {}
        invariant Collecting(streams, remaining, streamUsage, tracker, now)
        decreases remaining
      {
        var id :| id in remaining;
        CollectingNext(streams, remaining, streamUsage, tracker, now, id);
        var u := streamUsage[id];
        if u > 0 {
          var t := TrackedAs(tracker, id, now);
          streams := streams + [StreamInfo(id, u, t.lastAccess, t.priority, t.active)];
        }
        remaining := remaining - {id};
      }
    }
  }

  function InfoUsage(): StreamInfo -> int { (s: StreamInfo) => s.usage }

  function InactiveInfoUsage(): StreamInfo -> int { (s: StreamInfo) => if s.active then 0 else s.usage }

  /** A candidate for eviction is a stream that holds memory, as the tracker knows it. */
  ghost predicate Collected(s: StreamInfo, usages: map<string, int>, tracker: map<string, Tracked>, now: int) {
    && s.id in usages && s.usage == usages[s.id] > 0
    && var t := TrackedAs(tracker, s.id, now);
       s.active == t.active && s.lastAccess == t.lastAccess && s.priority == t.priority
  }

  /** The candidates are the streams that hold memory, each once; they account for all that is held, and the inactive ones for
      all that inactive streams hold. */
  ghost predicate Candidates(streams: seq<StreamInfo>, usages: map<string, int>, tracker: map<string, Tracked>, now: int) {
    && DistinctIds(streams)
    && (forall s :: s in streams ==> Collected(s, usages, tracker, now))
    && (forall id :: id in usages && usages[id] > 0 ==> exists s :: s in streams && s.id == id)
    && Sum(InfoUsage(), streams) == MapTotal(usages)
    && Sum(InactiveInfoUsage(), streams) == TotalOver(Inactive(usages, tracker), usages)
  }

  /** The candidates with some streams still to come. */
  ghost predicate Collecting(streams: seq<StreamInfo>, remaining: set<string>, usages: map<string, int>, tracker: map<string, Tracked>, now: int) {
    && remaining <= usages.Keys && DistinctIds(streams)
    && (forall id :: id in usages ==> usages[id] >= 0)
    && (forall s :: s in streams ==> Collected(s, usages, tracker, now) && s.id !in remaining)
    && (forall id :: id in usages && id !in remaining && usages[id] > 0 ==> exists s :: s in streams && s.id == id)
    && Sum(InfoUsage(), streams) + TotalOver(remaining, usages) == MapTotal(usages)
    && var inactive := Inactive(usages, tracker);
       Sum(InactiveInfoUsage(), streams) + TotalOver(remaining * inactive, usages) == TotalOver(inactive, usages)
  }

  lemma CollectingNext(streams: seq<StreamInfo>, remaining: set<string>, usages: map<string, int>, tracker: map<string, Tracked>, now: int, id: string)
    requires Collecting(streams, remaining, usages, tracker, now) && id in remaining
    ensures usages[id] == 0 ==> Collecting(streams, remaining - {id}, usages, tracker, now)
    ensures usages[id] > 0 ==>
              var t := TrackedAs(tracker, id, now);
              Collecting(streams + [StreamInfo(id, usages[id], t.lastAccess, t.priority, t.active)], remaining - {id}, usages, tracker, now)
  {
    TotalWithout(remaining, usages, id);
    InactiveWithout(remaining, usages, tracker, id);
    if usages[id] > 0 {
      var t := TrackedAs(tracker, id, now);
      var s := StreamInfo(id, usages[id], t.lastAccess, t.priority, t.active);
      var more := streams + [s];
      SumOneMore(InfoUsage(), streams, s);
      SumOneMore(InactiveInfoUsage(), streams, s);
      forall other | other in usages && other !in remaining - {id} && usages[other] > 0 ensures exists x :: x in more && x.id == other {
        if other == id {
          assert s in more;
        } else {
          var x :| x in streams && x.id == other;
          assert x in more;
        }
      }
    }
  }

  lemma SumOneMore(f: StreamInfo -> int, streams: seq<StreamInfo>, s: StreamInfo)
    ensures Sum(f, streams + [s]) == Sum(f, streams) + f(s)
  {
    SumAppend(f, streams, [s]);
    assert Sum(f, [s]) == f(s) + Sum(f, []);
  }

  lemma InactiveWithout(remaining: set<string>, usages: map<string, int>, tracker: map<string, Tracked>, id: string)
    requires id in remaining && remaining <= usages.Keys
    ensures var inactive := Inactive(usages, tracker);
            TotalOver(remaining * inactive, usages) ==
            TotalOver((remaining - {id}) * inactive, usages) + if IsActive(tracker, id) then 0 else usages[id]
  {
    var inactive := Inactive(usages, tracker);
    if IsActive(tracker, id) {
      assert (remaining - {id}) * inactive == remaining * inactive;
    } else {
      TotalWithout(remaining * inactive, usages, id);
      assert (remaining - {id}) * inactive == remaining * inactive - {id};
    }
  }

  /** What the victims' strategy spares, the controller spares. */
  lemma SparedStreams(key: StreamInfo -> Keyed, streams: seq<StreamInfo>, target: int, victims: seq<Keyed>, rest: seq<Keyed>,
                      before: map<string, int>, after: map<string, int>, tracker: map<string, Tracked>, now: int)
    requires Candidates(streams, before, tracker, now) && (forall s :: key(s).info == s)
    requires Chosen(KeyAll(key, streams), target, victims, rest) && SparesActive(KeyAll(key, streams), target, victims)
    requires after.Keys == before.Keys && forall id :: id in before ==> after[id] == if id in Ids(victims) then 0 else before[id]
    ensures ActiveSpared(before, after, tracker, target)
  {
    forall id | id in before && after[id] != before[id] && IsActive(tracker, id)
      ensures TotalOver(Inactive(before, tracker), before) < target
      ensures forall other :: other in before && !IsActive(tracker, other) ==> after[other] <= 0
    {
      var i :| 0 <= i < |victims| && victims[i].info.id == id;
      var v := victims[i];
      VictimIsStream(key, streams, target, victims, rest, v);
      assert v.info.active;
      InactiveVictims(key, streams, target, victims, rest);
      forall other | other in before && !IsActive(tracker, other) ensures after[other] <= 0 {
        if before[other] > 0 {
          var s :| s in streams && s.id == other;
          VictimOf(key, streams, victims, s);
        }
      }
    }
  }

  lemma VictimIsStream(key: StreamInfo -> Keyed, streams: seq<StreamInfo>, target: int, victims: seq<Keyed>, rest: seq<Keyed>, v: Keyed)
    requires (forall s :: key(s).info == s) && Chosen(KeyAll(key, streams), target, victims, rest) && v in victims
    ensures v.info in streams
  {
    assert v in multiset(victims) && v in multiset(KeyAll(key, streams));
  }

  lemma VictimOf(key: StreamInfo -> Keyed, streams: seq<StreamInfo>, victims: seq<Keyed>, s: StreamInfo)
    requires (forall s :: key(s).info == s) && s in streams && !s.active
    requires forall k :: k in KeyAll(key, streams) && !k.info.active ==> k in victims
    ensures s.id in Ids(victims)
  {
    var i :| 0 <= i < |streams| && streams[i] == s;
    assert KeyAll(key, streams)[i] in victims;
    var j :| 0 <= j < |victims| && victims[j] == key(s);
    assert Ids(victims)[j] == s.id;
  }

  /** With all inactive candidates among the victims, the inactive victims hold all that inactive streams hold. */
  lemma InactiveVictims(key: StreamInfo -> Keyed, streams: seq<StreamInfo>, target: int, victims: seq<Keyed>, rest: seq<Keyed>)
    requires DistinctIds(streams) && (forall s :: key(s).info == s) && Chosen(KeyAll(key, streams), target, victims, rest)
    requires forall k :: k in KeyAll(key, streams) && !k.info.active ==> k in victims
    ensures Sum(InactiveUsage(), victims) == Sum(InactiveInfoUsage(), streams)
  {
    var keyed := KeyAll(key, streams);
    KeyedDistinct(key, streams);
    forall k | k in rest ensures InactiveUsage()(k) == 0 {
      assert k in multiset(rest) && k in multiset(keyed) && multiset(keyed)[k] == 1;
      assert multiset(victims)[k] == 0;
    }
    SumZero(InactiveUsage(), rest);
    SumAppend(InactiveUsage(), victims, rest);
    assert multiset(victims + rest) == multiset(keyed);
    SumPermuted(InactiveUsage(), victims + rest, keyed);
    KeyedInactive(key, streams);
  }

  lemma {:induction false} KeyedInactive(key: StreamInfo -> Keyed, streams: seq<StreamInfo>)
    requires forall s :: key(s).info == s
    ensures Sum(InactiveUsage(), KeyAll(key, streams)) == Sum(InactiveInfoUsage(), streams)
  {
    if streams != [] {
      KeyedInactive(key, streams[1..]);
      assert KeyAll(key, streams)[1..] == KeyAll(key, streams[1..]);
    }
  }

  /** The victims are distinct candidates. */
  lemma VictimsHoldMemory(key: StreamInfo -> Keyed, streams: seq<StreamInfo>, target: int, victims: seq<Keyed>, rest: seq<Keyed>)
    requires DistinctIds(streams) && (forall s :: key(s).info == s)
    requires Chosen(KeyAll(key, streams), target, victims, rest)
    ensures forall v :: v in victims ==> v.info in streams
    ensures Distinct(victims)
  {
    var keyed := KeyAll(key, streams);
    KeyedDistinct(key, streams);
    forall v | v in victims ensures v in keyed && multiset(victims)[v] == 1 {
      assert v in multiset(victims) && v in multiset(keyed);
    }
  }

  lemma VictimsOfCollected(key: StreamInfo -> Keyed, streams: seq<StreamInfo>, target: int, victims: seq<Keyed>, rest: seq<Keyed>,
                           usages: map<string, int>, tracker: map<string, Tracked>, now: int)
    requires Candidates(streams, usages, tracker, now) && (forall s :: key(s).info == s)
    requires Chosen(KeyAll(key, streams), target, victims, rest)
    ensures Distinct(victims) && forall v :: v in victims ==> v.info.id in usages && v.info.usage == usages[v.info.id] > 0
  {
    VictimsHoldMemory(key, streams, target, victims, rest);
    forall v | v in victims ensures Collected(v.info, usages, tracker, now) {
    }
  }

  lemma SparingCollected(strategy: Strategy, streams: seq<StreamInfo>, usages: map<string, int>, tracker: map<string, Tracked>, now: int)
    requires Candidates(streams, usages, tracker, now)
    ensures SparingTracked(strategy, tracker, now) ==> Sparing(strategy, streams, now)
  {
    forall s | s in streams ensures Collected(s, usages, tracker, now) {
    }
  }

  /** Zeroing the victims frees enough, or all there is, and spares active streams where the strategy does. */
  lemma EvictionIsFair(strategy: Strategy, streams: seq<StreamInfo>, target: int, victims: seq<Keyed>, rest: seq<Keyed>,
                       before: map<string, int>, after: map<string, int>, tracker: map<string, Tracked>, now: int)
    requires Candidates(streams, before, tracker, now)
    requires Chosen(KeyAll(KeyOf(strategy, streams, now), streams), target, victims, rest)
    requires Sparing(strategy, streams, now) ==> SparesActive(KeyAll(KeyOf(strategy, streams, now), streams), target, victims)
    requires after.Keys == before.Keys && forall id :: id in before ==> after[id] == if id in Ids(victims) then 0 else before[id]
    requires MapTotal(before) - MapTotal(after) == Total(victims)
    ensures EvictedFor(before, after, target)
    ensures SparingTracked(strategy, tracker, now) ==> ActiveSpared(before, after, tracker, target)
  {
    var key := KeyOf(strategy, streams, now);
    assert forall s :: key(s).info == s;
    EnoughFreed(key, streams, target, victims, rest);
    VictimsOfCollected(key, streams, target, victims, rest, before, tracker, now);
    if SparingTracked(strategy, tracker, now) {
      SparingCollected(strategy, streams, before, tracker, now);
      SparedStreams(key, streams, target, victims, rest, before, after, tracker, now);
    }
  }

  /** Either the victims reach the target, or they are all there is. */
  lemma EnoughFreed(key: StreamInfo -> Keyed, streams: seq<StreamInfo>, target: int, victims: seq<Keyed>, rest: seq<Keyed>)
    requires (forall s :: key(s).info == s) && Chosen(KeyAll(key, streams), target, victims, rest)
    ensures Total(victims) >= target || Total(victims) == Sum(InfoUsage(), streams)
  {
    if rest == [] {
      SumPermuted(UsageOf(), victims, KeyAll(key, streams));
      KeyedTotal(key, streams);
    }
  }

  lemma {:induction false} KeyedTotal(key: StreamInfo -> Keyed, streams: seq<StreamInfo>)
    requires forall s :: key(s).info == s
    ensures Total(KeyAll(key, streams)) == Sum(InfoUsage(), streams)
  {
    if streams != [] {
      KeyedTotal(key, streams[1..]);
      assert KeyAll(key, streams)[1..] == KeyAll(key, streams[1..]);
    }
  }
}
