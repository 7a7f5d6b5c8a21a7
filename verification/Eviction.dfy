/** The four strategies that choose which streams to evict. */
module Eviction {
  import opened Sequences

  datatype StreamInfo = StreamInfo(id: string, usage: nat, lastAccess: int, priority: int, active: bool)

  /** A stream with the values its strategy sorts by: smaller keys go first. */
  datatype Keyed = Keyed(info: StreamInfo, primary: real, secondary: real)

  predicate Less(a: Keyed, b: Keyed) {
    a.primary < b.primary || (a.primary == b.primary && a.secondary < b.secondary)
  }

  predicate Sorted(s: seq<Keyed>) { forall i, j :: 0 <= i < j < |s| ==> !Less(s[j], s[i]) }

  function UsageOf(): Keyed -> int { (k: Keyed) => k.info.usage }

  function Total(s: seq<Keyed>): int { Sum(UsageOf(), s) }

  function Ids(s: seq<Keyed>): (r: seq<string>)
    ensures |r| == |s| && forall i :: 0 <= i < |s| ==> r[i] == s[i].info.id
  {
    seq(|s|, i requires 0 <= i < |s| => s[i].info.id)
  }

  function KeyAll(key: StreamInfo -> Keyed, streams: seq<StreamInfo>): (r: seq<Keyed>)
    ensures |r| == |streams| && forall i :: 0 <= i < |r| ==> r[i] == key(streams[i])
  {
    seq(|streams|, i requires 0 <= i < |streams| => key(streams[i]))
  }

  /** What every strategy delivers. The victims and the rest share out the candidates; if any candidate is left the
      victims reach the target; without its last victim the choice falls short; and no candidate that is left
      should have gone before a victim. */
  ghost predicate Chosen(candidates: seq<Keyed>, target: int, victims: seq<Keyed>, rest: seq<Keyed>) {
    && multiset(candidates) == multiset(victims) + multiset(rest)
    && (rest == [] || Total(victims) >= target)
    && (victims != [] ==> Total(victims[..|victims| - 1]) < target)
    && (forall v, u :: v in victims && u in rest ==> !Less(u, v))
  }

  /** The ids of such a choice. */
  ghost predicate Picks(candidates: seq<Keyed>, target: int, selected: seq<string>) {
    exists victims, rest :: Chosen(candidates, target, victims, rest) && selected == Ids(victims)
  }

  // ---- Sorting: the contract of the library sort, which need not be stable -----------------------------------

  function Insert(x: Keyed, s: seq<Keyed>): (r: seq<Keyed>)
    requires Sorted(s)
    ensures multiset(r) == multiset(s) + multiset{x} && Sorted(r)
    ensures r != [] && (r[0] == x || (s != [] && r[0] == s[0] && !Less(x, s[0])))
  {
    if s == [] then [x]
    else if !Less(s[0], x) then
      assert forall j :: 0 <= j < |s| ==> !Less(s[j], x);
      [x] + s
    else
      var t := Insert(x, s[1..]);
      InsertedBehind(x, s, t);
      [s[0]] + t
  }

  lemma InsertedBehind(x: Keyed, s: seq<Keyed>, t: seq<Keyed>)
    requires s != [] && Sorted(s) && Less(s[0], x) && Sorted(t) && multiset(t) == multiset(s[1..]) + multiset{x}
    ensures multiset([s[0]] + t) == multiset(s) + multiset{x} && Sorted([s[0]] + t)
  {
    assert s == [s[0]] + s[1..];
    forall y | y in t ensures !Less(y, s[0]) {
      assert y in multiset(t);
    }
  }

  function Sort(s: seq<Keyed>): (r: seq<Keyed>)
    ensures multiset(r) == multiset(s) && Sorted(r)
  {
    if s == [] then []
    else
      assert s == [s[0]] + s[1..];
      Insert(s[0], Sort(s[1..]))
  }

  method SortSlice(s: seq<Keyed>) returns (r: seq<Keyed>)
    ensures multiset(r) == multiset(s) && Sorted(r)
  {
    r := Sort(s);
  }

  // ---- The strategies that walk the sorted list ----------------------------------------------------------------

  /** The selection loop of the first three strategies. */
  method TakeUntil(sorted: seq<Keyed>, target: int) returns (selected: seq<string>, ghost victims: seq<Keyed>, ghost rest: seq<Keyed>)
    requires Sorted(sorted)
    ensures selected == Ids(victims) && Chosen(sorted, target, victims, rest) && Sorted(victims)
    ensures Picks(sorted, target, selected)
  {
    selected := [];
    var totalBytes := 0;
    var i := 0;
    while i < |sorted| && totalBytes < target
      invariant i <= |sorted|
      invariant selected == Ids(sorted[..i]) && totalBytes == Total(sorted[..i])
      invariant i > 0 ==> Total(sorted[..i - 1]) < target
    {
      assert sorted[..i + 1] == sorted[..i] + [sorted[i]];
      TotalSnoc(sorted[..i], sorted[i]);
      selected := selected + [sorted[i].info.id];
      totalBytes := totalBytes + sorted[i].info.usage;
      i := i + 1;
    }
    victims, rest := sorted[..i], sorted[i..];
    assert sorted == victims + rest;
    assert i > 0 ==> victims[..i - 1] == sorted[..i - 1];
    PrefixSorted(sorted, i);
    assert Chosen(sorted, target, victims, rest);
  }

  lemma PrefixSorted(sorted: seq<Keyed>, i: nat)
    requires Sorted(sorted) && i <= |sorted|
    ensures Sorted(sorted[..i]) && forall v, u :: v in sorted[..i] && u in sorted[i..] ==> !Less(u, v)
  {
    forall v, u | v in sorted[..i] && u in sorted[i..] ensures !Less(u, v) {
      var a :| 0 <= a < i && sorted[a] == v;
      var b :| 0 <= b < |sorted| - i && sorted[i..][b] == u;
    }
  }

  lemma TotalSnoc(s: seq<Keyed>, k: Keyed)
    ensures Total(s + [k]) == Total(s) + k.info.usage
  {
    SumAppend(UsageOf(), s, [k]);
    assert Sum(UsageOf(), [k]) == UsageOf()(k) + Sum(UsageOf(), []);
  }

  /** Inactive streams first, then least recent access first. */
  function LruKey(): StreamInfo -> Keyed {
    (s: StreamInfo) => Keyed(s, if s.active then 1.0 else 0.0, s.lastAccess as real)
  }

  /** Higher priority value first, then least recent access first. */
  function PriorityKey(): StreamInfo -> Keyed {
    (s: StreamInfo) => Keyed(s, -(s.priority as real), s.lastAccess as real)
  }

  /** Largest first. */
  function SizeKey(): StreamInfo -> Keyed {
    (s: StreamInfo) => Keyed(s, -(s.usage as real), 0.0)
  }

  method SelectByKey(key: StreamInfo -> Keyed, streams: seq<StreamInfo>, target: int)
    returns (selected: seq<string>, ghost victims: seq<Keyed>, ghost rest: seq<Keyed>)
    ensures selected == Ids(victims) && Chosen(KeyAll(key, streams), target, victims, rest) && Sorted(victims)
    ensures Picks(KeyAll(key, streams), target, selected)
  {
    var sorted := SortSlice(KeyAll(key, streams));
    selected, victims, rest := TakeUntil(sorted, target);
    assert Chosen(KeyAll(key, streams), target, victims, rest);
  }

  // ---- The hybrid strategy ----------------------------------------------------------------------------------------

  datatype Weights = Weights(age: real, size: real, priority: real)

  /** Candidates have distinct ids: they come from the keys of a map. */
  ghost predicate Distinct(s: seq<Keyed>) {
    && (forall x, y :: x in s && y in s && x.info.id == y.info.id ==> x == y)
    && (forall x :: x in s ==> multiset(s)[x] == 1)
  }

  function MaxAge(streams: seq<StreamInfo>, now: int): int {
    if streams == [] then 0
    else
      var m, age := MaxAge(streams[..|streams| - 1], now), now - streams[|streams| - 1].lastAccess;
      if age > m then age else m
  }

  function MaxSize(streams: seq<StreamInfo>): int {
    if streams == [] then 0
    else
      var m, size := MaxSize(streams[..|streams| - 1]), streams[|streams| - 1].usage;
      if size > m then size else m
  }

  const MAX_PRIORITY := 10

  function Score(w: Weights, now: int, maxAge: int, maxSize: int, s: StreamInfo): real {
    if s.active then -1.0
    else
      var ageScore := if maxAge > 0 then (now - s.lastAccess) as real / maxAge as real else 0.0;
      var sizeScore := if maxSize > 0 then s.usage as real / maxSize as real else 0.0;
      var priorityScore := s.priority as real / MAX_PRIORITY as real;
      w.age * ageScore + w.size * sizeScore + w.priority * priorityScore
  }

  /** Highest score first. */
  function HybridKey(w: Weights, now: int, maxAge: int, maxSize: int): StreamInfo -> Keyed {
    (s: StreamInfo) => Keyed(s, -Score(w, now, maxAge, maxSize, s), 0.0)
  }

  function ScoredAll(w: Weights, streams: seq<StreamInfo>, now: int): seq<Keyed> {
    KeyAll(HybridKey(w, now, MaxAge(streams, now), MaxSize(streams)), streams)
  }

  function Eligible(): Keyed -> bool { (k: Keyed) => k.primary <= 0.0 }  // score at least zero
  function LastResort(): Keyed -> bool { (k: Keyed) => k.primary > 0.0 }

  method ScoreStreams(w: Weights, streams: seq<StreamInfo>, now: int) returns (scored: seq<Keyed>)
    ensures scored == ScoredAll(w, streams, now)
  {
    var maxAge, maxSize := FindMaxima(streams, now);
    scored := [];
    for i := 0 to |streams|
      invariant scored == KeyAll(HybridKey(w, now, maxAge, maxSize), streams[..i])
    {
      var score := ScoreOf(w, now, maxAge, maxSize, streams[i]);
      scored := scored + [Keyed(streams[i], -score, 0.0)];
      assert Keyed(streams[i], -score, 0.0) == HybridKey(w, now, maxAge, maxSize)(streams[i]);
    }
    assert streams[..|streams|] == streams;
  }

  /** The values the scores are normalised by. */
  method FindMaxima(streams: seq<StreamInfo>, now: int) returns (maxAge: int, maxSize: int)
    ensures maxAge == MaxAge(streams, now) && maxSize == MaxSize(streams)
  {
    maxAge, maxSize := 0, 0;
    for i := 0 to |streams|
      invariant maxAge == MaxAge(streams[..i], now) && maxSize == MaxSize(streams[..i])
    {
      assert streams[..i + 1][..i] == streams[..i];
      var age := now - streams[i].lastAccess;
      if age > maxAge {
        maxAge := age;
      }
      if streams[i].usage > maxSize {
        maxSize := streams[i].usage;
      }
    }
    assert streams[..|streams|] == streams;
  }

  method ScoreOf(w: Weights, now: int, maxAge: int, maxSize: int, stream: StreamInfo) returns (score: real)
    ensures score == Score(w, now, maxAge, maxSize, stream)
  {
    if stream.active {
      return -1.0;
    }
    var ageScore := 0.0;
    if maxAge > 0 {
      ageScore := (now - stream.lastAccess) as real / maxAge as real;
    }
    var sizeScore := 0.0;
    if maxSize > 0 {
      sizeScore := stream.usage as real / maxSize as real;
    }
    var priorityScore := stream.priority as real / MAX_PRIORITY as real;
    score := w.age * ageScore + w.size * sizeScore + w.priority * priorityScore;
  }

  /** Sorted by falling score, the eligible candidates are a prefix. */
  lemma Boundary(scored: seq<Keyed>) returns (m: nat)
    requires Sorted(scored)
    ensures IsBoundary(scored, m)
  {
    m := 0;
    while m < |scored| && Eligible()(scored[m])
      invariant m <= |scored| && forall k :: 0 <= k < m ==> Eligible()(scored[k])
    {
      m := m + 1;
    }
  }

  ghost predicate IsBoundary(scored: seq<Keyed>, m: nat) {
    && m <= |scored|
    && (forall k :: 0 <= k < m ==> Eligible()(scored[k]))
    && (forall k :: m <= k < |scored| ==> LastResort()(scored[k]))
  }

  /** The first `n` candidates are the choice so far: their ids and total, and all but the last fall short. */
  ghost predicate Taken(scored: seq<Keyed>, n: nat, selected: seq<string>, totalBytes: int, target: int) {
    && n <= |scored|
    && selected == Ids(scored[..n]) && totalBytes == Total(scored[..n])
    && (n > 0 ==> Total(scored[..n - 1]) < target)
  }

  lemma TakenNext(scored: seq<Keyed>, n: nat, selected: seq<string>, totalBytes: int, target: int)
    requires n < |scored| && Taken(scored, n, selected, totalBytes, target) && totalBytes < target
    ensures Taken(scored, n + 1, selected + [scored[n].info.id], totalBytes + scored[n].info.usage, target)
  {
    assert scored[..n + 1] == scored[..n] + [scored[n]];
    TotalSnoc(scored[..n], scored[n]);
  }

  function Max(a: nat, b: nat): nat { if a < b then b else a }

  /** The first loop: candidates with a score of at least zero. */
  method TakeEligible(scored: seq<Keyed>, target: int, ghost m: nat) returns (selected: seq<string>, totalBytes: int, ghost n: nat)
    requires IsBoundary(scored, m)
    ensures n <= m && Taken(scored, n, selected, totalBytes, target) && (totalBytes >= target || n == m)
  {
    selected, totalBytes := [], 0;
    var i := 0;
    while i < |scored| && totalBytes < target
      invariant i <= |scored| && Taken(scored, Min(i, m), selected, totalBytes, target)
    {
      var stream := scored[i];
      if !(-stream.primary < 0.0) {
        TakenNext(scored, i, selected, totalBytes, target);
        selected := selected + [stream.info.id];
        totalBytes := totalBytes + stream.info.usage;
      }
      i := i + 1;
    }
    n := Min(i, m);
  }

  /** The second loop: the others, after every candidate with a score of at least zero. */
  method TakeLastResort(scored: seq<Keyed>, target: int, before: seq<string>, bytesBefore: int, ghost m: nat)
    returns (selected: seq<string>, ghost totalBytes: int, ghost n: nat)
    requires Distinct(scored) && IsBoundary(scored, m)
    requires Taken(scored, m, before, bytesBefore, target) && bytesBefore < target
    ensures m <= n && Taken(scored, n, selected, totalBytes, target) && (totalBytes >= target || n == |scored|)
  {
    selected := before;
    var bytes := bytesBefore;
    var j := 0;
    while j < |scored| && bytes < target
      invariant j <= |scored| && Taken(scored, Max(m, j), selected, bytes, target)
    {
      var stream := scored[j];
      if -stream.primary < 0.0 {
        NotYetSelected(scored, j);
        if stream.info.id !in selected {
          TakenNext(scored, j, selected, bytes, target);
          selected := selected + [stream.info.id];
          bytes := bytes + stream.info.usage;
        }
      }
      j := j + 1;
    }
    n, totalBytes := Max(m, j), bytes;
  }

  lemma NotYetSelected(scored: seq<Keyed>, j: nat)
    requires Distinct(scored) && j < |scored|
    ensures scored[j].info.id !in Ids(scored[..j])
  {
    forall i | 0 <= i < j ensures Ids(scored[..j])[i] != scored[j].info.id {
      if scored[i].info.id == scored[j].info.id {
        assert scored[i] in scored && scored[j] in scored;
        CountTwice(scored, i, j);
      }
    }
  }

  /** The usage of a candidate that is not of last resort. */
  function EligibleUsage(): Keyed -> int { (k: Keyed) => if k.primary <= 0.0 then k.info.usage else 0 }

  /** Victims of last resort come only when every other candidate has been chosen and those fall short together. */
  ghost predicate ActiveOnlyIfNeeded(candidates: seq<Keyed>, target: int, victims: seq<Keyed>) {
    forall v :: v in victims && LastResort()(v) ==>
      && (forall k :: k in candidates && Eligible()(k) ==> k in victims)
      && Sum(EligibleUsage(), victims) < target
  }

  method SelectHybrid(w: Weights, streams: seq<StreamInfo>, target: int, now: int)
    returns (selected: seq<string>, ghost victims: seq<Keyed>, ghost rest: seq<Keyed>)
    requires Distinct(ScoredAll(w, streams, now))
    ensures selected == Ids(victims) && Chosen(ScoredAll(w, streams, now), target, victims, rest)
    ensures Picks(ScoredAll(w, streams, now), target, selected)
    ensures ActiveOnlyIfNeeded(ScoredAll(w, streams, now), target, victims)
  {
    var scored := ScoreStreams(w, streams, now);
    var sorted := SortSlice(scored);
    SameDistinct(scored, sorted);
    selected, victims, rest := SelectSorted(sorted, target);
    SameChoice(sorted, scored, target, victims, rest);
  }

  method SelectSorted(scored: seq<Keyed>, target: int)
    returns (selected: seq<string>, ghost victims: seq<Keyed>, ghost rest: seq<Keyed>)
    requires Sorted(scored) && Distinct(scored)
    ensures selected == Ids(victims) && Chosen(scored, target, victims, rest) && ActiveOnlyIfNeeded(scored, target, victims)
  {
    ghost var m := Boundary(scored);
    var totalBytes: int;
    ghost var n, bytes;
    selected, totalBytes, n := TakeEligible(scored, target, m);
    bytes := totalBytes;
    if totalBytes < target {
      selected, bytes, n := TakeLastResort(scored, target, selected, totalBytes, m);
    }
    victims, rest := scored[..n], scored[n..];
    PrefixChosen(scored, n, selected, bytes, target);
    PrefixActiveLast(scored, m, n, target);
  }

  /** The choice is stated of the candidates in any order. */
  lemma SameChoice(a: seq<Keyed>, b: seq<Keyed>, target: int, victims: seq<Keyed>, rest: seq<Keyed>)
    requires multiset(a) == multiset(b)
    requires Chosen(a, target, victims, rest) && ActiveOnlyIfNeeded(a, target, victims)
    ensures Chosen(b, target, victims, rest) && ActiveOnlyIfNeeded(b, target, victims)
  {
    assert forall x :: x in b ==> x in multiset(b);
    assert forall x :: x in multiset(a) ==> x in a;
  }

  lemma PrefixChosen(scored: seq<Keyed>, n: nat, selected: seq<string>, bytes: int, target: int)
    requires Sorted(scored) && Taken(scored, n, selected, bytes, target) && (bytes >= target || n == |scored|)
    ensures Chosen(scored, target, scored[..n], scored[n..])
  {
    assert scored == scored[..n] + scored[n..];
    assert n > 0 ==> scored[..n][..n - 1] == scored[..n - 1];
  }

  lemma PrefixActiveLast(scored: seq<Keyed>, m: nat, n: nat, target: int)
    requires IsBoundary(scored, m) && n <= |scored|
    requires n > m ==> Total(scored[..n - 1]) < target
    ensures ActiveOnlyIfNeeded(scored, target, scored[..n])
  {
    if n > m {
      assert scored[..n] == scored[..m] + scored[m..n] && scored[..n - 1] == scored[..m] + scored[m..n - 1];
      SumAppend(EligibleUsage(), scored[..m], scored[m..n]);
      SumAppend(UsageOf(), scored[..m], scored[m..n - 1]);
      SumZero(EligibleUsage(), scored[m..n]);
      SumSame(EligibleUsage(), UsageOf(), scored[..m]);
      SumNonNegative(UsageOf(), scored[m..n - 1]);
    }
  }

  /** A sort keeps candidates distinct. */
  lemma SameDistinct(a: seq<Keyed>, b: seq<Keyed>)
    requires Distinct(a) && multiset(a) == multiset(b)
    ensures Distinct(b)
    ensures forall x :: x in a <==> x in b
  {
    assert forall x :: x in a <==> x in multiset(a);
    assert forall x :: x in b <==> x in multiset(b);
  }

  /** With non-negative weights, ages and priorities, the streams of last resort are exactly the active ones. */
  lemma LastResortIsActive(w: Weights, streams: seq<StreamInfo>, now: int, k: Keyed)
    requires Sensible(w, streams, now)
    requires k in ScoredAll(w, streams, now)
    ensures LastResort()(k) <==> k.info.active
  {
    var s := k.info;
    assert s in streams;
    var maxAge, maxSize := MaxAge(streams, now), MaxSize(streams);
    if !s.active {
      var ageScore := if maxAge > 0 then (now - s.lastAccess) as real / maxAge as real else 0.0;
      var sizeScore := if maxSize > 0 then s.usage as real / maxSize as real else 0.0;
      NonNegativeTerm(w.age, ageScore);
      NonNegativeTerm(w.size, sizeScore);
      NonNegativeTerm(w.priority, s.priority as real / MAX_PRIORITY as real);
    }
  }

  function InactiveUsage(): Keyed -> int { (k: Keyed) => if k.info.active then 0 else k.info.usage }

  /** Active streams are victims only when all inactive ones are, and those fall short together. */
  ghost predicate SparesActive(candidates: seq<Keyed>, target: int, victims: seq<Keyed>) {
    forall v :: v in victims && v.info.active ==>
      && (forall k :: k in candidates && !k.info.active ==> k in victims)
      && Sum(InactiveUsage(), victims) < target
  }

  /** No weight, age or priority is negative. */
  ghost predicate Sensible(w: Weights, streams: seq<StreamInfo>, now: int) {
    && w.age >= 0.0 && w.size >= 0.0 && w.priority >= 0.0
    && forall s :: s in streams ==> s.lastAccess <= now && s.priority >= 0
  }

  /** So the hybrid choice spares active streams. */
  lemma HybridSparesActive(w: Weights, streams: seq<StreamInfo>, now: int, target: int, victims: seq<Keyed>, rest: seq<Keyed>)
    requires Sensible(w, streams, now)
    requires Chosen(ScoredAll(w, streams, now), target, victims, rest)
    requires ActiveOnlyIfNeeded(ScoredAll(w, streams, now), target, victims)
    ensures SparesActive(ScoredAll(w, streams, now), target, victims)
  {
    var candidates := ScoredAll(w, streams, now);
    forall k | k in candidates ensures LastResort()(k) <==> k.info.active {
      LastResortIsActive(w, streams, now, k);
    }
    forall v | v in victims ensures v in candidates {
      assert v in multiset(victims) && v in multiset(candidates);
    }
    SumSame(InactiveUsage(), EligibleUsage(), victims);
  }

  /** So does the choice of the least recently used. */
  lemma LruSparesActive(streams: seq<StreamInfo>, target: int, victims: seq<Keyed>, rest: seq<Keyed>)
    requires Chosen(KeyAll(LruKey(), streams), target, victims, rest) && Sorted(victims)
    ensures SparesActive(KeyAll(LruKey(), streams), target, victims)
  {
    var candidates := KeyAll(LruKey(), streams);
    forall k | k in victims || k in rest ensures k.primary == if k.info.active then 1.0 else 0.0 {
      assert k in multiset(victims) + multiset(rest) && k in multiset(candidates);
    }
    forall v | v in victims && v.info.active
      ensures (forall k :: k in candidates && !k.info.active ==> k in victims) && Sum(InactiveUsage(), victims) < target
    {
      forall k | k in candidates && !k.info.active ensures k in victims {
        assert k in multiset(candidates) && k in multiset(victims) + multiset(rest);
        assert k in rest ==> Less(k, v);
      }
      LastIsActive(victims, v);
      ActiveLastFallsShort(victims);
    }
  }

  lemma LastIsActive(victims: seq<Keyed>, v: Keyed)
    requires Sorted(victims) && forall k :: k in victims ==> k.primary == if k.info.active then 1.0 else 0.0
    requires v in victims && v.info.active
    ensures victims[|victims| - 1].info.active
  {
    var i :| 0 <= i < |victims| && victims[i] == v;
    var last := victims[|victims| - 1];
    assert last in victims && !Less(last, v);
  }

  /** What the inactive victims hold is no more than what all but the last hold, if that one is active. */
  lemma ActiveLastFallsShort(victims: seq<Keyed>)
    requires victims != [] && victims[|victims| - 1].info.active
    ensures Sum(InactiveUsage(), victims) <= Total(victims[..|victims| - 1])
  {
    var front, last := victims[..|victims| - 1], victims[|victims| - 1];
    assert victims == front + [last];
    SumAppend(InactiveUsage(), front, [last]);
    assert Sum(InactiveUsage(), [last]) == InactiveUsage()(last) + Sum(InactiveUsage(), []);
    InactiveAtMost(front);
  }

  lemma {:induction false} InactiveAtMost(s: seq<Keyed>)
    ensures Sum(InactiveUsage(), s) <= Total(s)
  {
    if s != [] {
      InactiveAtMost(s[1..]);
    }
  }

  lemma NonNegativeTerm(weight: real, x: real)
    requires weight >= 0.0 && x >= 0.0
    ensures weight * x >= 0.0
  {
  }

  // ---- Any strategy -------------------------------------------------------------------------------------------------

  datatype Strategy = Lru | Priority | Size | Hybrid(weights: Weights)

  function KeyOf(strategy: Strategy, streams: seq<StreamInfo>, now: int): StreamInfo -> Keyed {
    match strategy
    case Lru => LruKey()
    case Priority => PriorityKey()
    case Size => SizeKey()
    case Hybrid(w) => HybridKey(w, now, MaxAge(streams, now), MaxSize(streams))
  }

  ghost predicate DistinctIds(streams: seq<StreamInfo>) {
    forall i, j :: 0 <= i < j < |streams| ==> streams[i].id != streams[j].id
  }

  lemma {:induction false} KeyedDistinct(key: StreamInfo -> Keyed, streams: seq<StreamInfo>)
    requires DistinctIds(streams) && forall s :: key(s).info == s
    ensures Distinct(KeyAll(key, streams))
  {
    var keyed := KeyAll(key, streams);
    if streams != [] {
      KeyedDistinct(key, streams[1..]);
      assert keyed == [key(streams[0])] + KeyAll(key, streams[1..]);
      NewKey(key, streams);
      DistinctMore(key(streams[0]), KeyAll(key, streams[1..]));
    }
  }

  lemma NewKey(key: StreamInfo -> Keyed, streams: seq<StreamInfo>)
    requires DistinctIds(streams) && streams != [] && forall s :: key(s).info == s
    ensures forall k :: k in KeyAll(key, streams[1..]) ==> k.info.id != streams[0].id
  {
  }

  lemma DistinctMore(k: Keyed, s: seq<Keyed>)
    requires Distinct(s) && forall x :: x in s ==> x.info.id != k.info.id
    ensures Distinct([k] + s)
  {
    assert k !in s;
  }

  /** Which of two streams a strategy would rather evict, said of the streams themselves: for LRU the inactive one and then the one
      accessed less recently, for priority the one with the higher value and then the one accessed less recently, for size the
      larger one, and for hybrid the one with the higher score. */
  predicate Before(strategy: Strategy, streams: seq<StreamInfo>, now: int, a: StreamInfo, b: StreamInfo) {
    match strategy
    case Lru => (!a.active && b.active) || (a.active == b.active && a.lastAccess < b.lastAccess)
    case Priority => a.priority > b.priority || (a.priority == b.priority && a.lastAccess < b.lastAccess)
    case Size => a.usage > b.usage
    case Hybrid(w) => Score(w, now, MaxAge(streams, now), MaxSize(streams), a) > Score(w, now, MaxAge(streams, now), MaxSize(streams), b)
  }

  /** No stream that is left should have gone before a victim. */
  ghost predicate RightOnes(strategy: Strategy, streams: seq<StreamInfo>, now: int, victims: seq<Keyed>, rest: seq<Keyed>) {
    forall v, u :: v in victims && u in rest ==> !Before(strategy, streams, now, u.info, v.info)
  }

  lemma ChosenAreRight(strategy: Strategy, streams: seq<StreamInfo>, target: int, now: int, victims: seq<Keyed>, rest: seq<Keyed>)
    requires Chosen(KeyAll(KeyOf(strategy, streams, now), streams), target, victims, rest)
    ensures RightOnes(strategy, streams, now, victims, rest)
  {
    var key := KeyOf(strategy, streams, now);
    forall k | k in victims || k in rest ensures k == key(k.info) {
      assert k in multiset(victims) + multiset(rest) && k in multiset(KeyAll(key, streams));
    }
    forall v, u | v in victims && u in rest ensures !Before(strategy, streams, now, u.info, v.info) {
      BeforeIsLess(strategy, streams, now, u.info, v.info);
    }
  }

  lemma BeforeIsLess(strategy: Strategy, streams: seq<StreamInfo>, now: int, a: StreamInfo, b: StreamInfo)
    ensures Before(strategy, streams, now, a, b) <==> Less(KeyOf(strategy, streams, now)(a), KeyOf(strategy, streams, now)(b))
  {
  }

  /** What the score rewards: of two inactive streams the one that is no younger, no smaller and of no lower priority value scores no
      less; and no inactive stream scores below zero, or above the sum of the weights if its priority is at most 10. */
  lemma ScoreGrows(w: Weights, streams: seq<StreamInfo>, now: int, a: StreamInfo, b: StreamInfo)
    requires Sensible(w, streams, now) && a in streams && b in streams && !a.active && !b.active
    requires a.lastAccess <= b.lastAccess && a.usage >= b.usage && a.priority >= b.priority
    ensures var maxAge, maxSize := MaxAge(streams, now), MaxSize(streams);
            && Score(w, now, maxAge, maxSize, a) >= Score(w, now, maxAge, maxSize, b) >= 0.0
            && (a.priority <= MAX_PRIORITY ==> Score(w, now, maxAge, maxSize, a) <= w.age + w.size + w.priority)
  {
    MaximaBound(streams, now, a);
    PartsGrow(w, now, MaxAge(streams, now), MaxSize(streams), a, b);
  }

  lemma PartsGrow(w: Weights, now: int, maxAge: int, maxSize: int, a: StreamInfo, b: StreamInfo)
    requires w.age >= 0.0 && w.size >= 0.0 && w.priority >= 0.0 && !a.active && !b.active
    requires 0 <= now - b.lastAccess <= now - a.lastAccess <= maxAge && b.usage <= a.usage <= maxSize && 0 <= b.priority <= a.priority
    ensures Score(w, now, maxAge, maxSize, a) >= Score(w, now, maxAge, maxSize, b) >= 0.0
    ensures a.priority <= MAX_PRIORITY ==> Score(w, now, maxAge, maxSize, a) <= w.age + w.size + w.priority
  {
    ScoreIsParts(w, now, maxAge, maxSize, a);
    ScoreIsParts(w, now, maxAge, maxSize, b);
    PartGrows(w.age, now - a.lastAccess, now - b.lastAccess, maxAge);
    PartGrows(w.size, a.usage, b.usage, maxSize);
    PartGrows(w.priority, a.priority, b.priority, MAX_PRIORITY);
  }

  lemma ScoreIsParts(w: Weights, now: int, maxAge: int, maxSize: int, s: StreamInfo)
    requires !s.active
    ensures Score(w, now, maxAge, maxSize, s) ==
            Part(w.age, now - s.lastAccess, maxAge) + Part(w.size, s.usage, maxSize) + Part(w.priority, s.priority, MAX_PRIORITY)
  {
  }

  function Part(weight: real, n: int, max: int): real { weight * if max > 0 then n as real / max as real else 0.0 }

  lemma PartGrows(weight: real, m: int, n: int, max: int)
    requires weight >= 0.0 && m >= n >= 0
    ensures Part(weight, m, max) >= Part(weight, n, max) >= 0.0 && (m <= max ==> Part(weight, m, max) <= weight)
  {
    if max > 0 {
      var x, y := m as real / max as real, n as real / max as real;
      Quotients(m, n, max);
      Times(weight, x, y);
      Times(weight, y, 0.0);
      if m <= max {
        Times(weight, 1.0, x);
        assert weight * 1.0 == weight;
      }
    }
  }

  lemma Quotients(m: int, n: int, max: int)
    requires m >= n >= 0 && max > 0
    ensures m as real / max as real >= n as real / max as real >= 0.0
    ensures m <= max ==> m as real / max as real <= 1.0
  {
    var d := max as real;
    Smaller(m as real, n as real, d);
    Smaller(n as real, 0.0, d);
    if m <= max {
      Smaller(d, m as real, d);
    }
  }

  lemma Smaller(a: real, b: real, d: real)
    requires a >= b && d > 0.0
    ensures a / d >= b / d && 0.0 / d == 0.0 && d / d == 1.0
  {
    var x, y := a / d, b / d;
    assert x * d == a && y * d == b;
    assert (x - y) * d == a - b >= 0.0;
  }

  lemma Times(weight: real, x: real, y: real)
    requires weight >= 0.0 && x >= y
    ensures weight * x >= weight * y
  {
  }

  lemma {:induction false} MaximaBound(streams: seq<StreamInfo>, now: int, s: StreamInfo)
    requires s in streams
    ensures now - s.lastAccess <= MaxAge(streams, now) && s.usage <= MaxSize(streams)
    decreases |streams|
  {
    var front := streams[..|streams| - 1];
    if s in front {
      MaximaBound(front, now, s);
    }
  }

  /** The strategies that tell active streams from others, with values for which they do. */
  ghost predicate Sparing(strategy: Strategy, streams: seq<StreamInfo>, now: int) {
    strategy.Lru? || (strategy.Hybrid? && Sensible(strategy.weights, streams, now))
  }

  /** Every strategy delivers distinct candidates whose usage is at least the target, or else all of them; and the two that
      tell active streams from others spare the active ones. */
  method Select(strategy: Strategy, streams: seq<StreamInfo>, target: int, now: int)
    returns (selected: seq<string>, ghost victims: seq<Keyed>, ghost rest: seq<Keyed>)
    requires DistinctIds(streams)
    ensures selected == Ids(victims) && Chosen(KeyAll(KeyOf(strategy, streams, now), streams), target, victims, rest)
    ensures Picks(KeyAll(KeyOf(strategy, streams, now), streams), target, selected)
    ensures RightOnes(strategy, streams, now, victims, rest)
    ensures strategy.Hybrid? ==> ActiveOnlyIfNeeded(KeyAll(KeyOf(strategy, streams, now), streams), target, victims)
    ensures Sparing(strategy, streams, now) ==> SparesActive(KeyAll(KeyOf(strategy, streams, now), streams), target, victims)
  {
    match strategy {
      case Lru =>
        selected, victims, rest := SelectByKey(LruKey(), streams, target);
        LruSparesActive(streams, target, victims, rest);
      case Priority => selected, victims, rest := SelectByKey(PriorityKey(), streams, target);
      case Size => selected, victims, rest := SelectByKey(SizeKey(), streams, target);
      case Hybrid(w) =>
        KeyedDistinct(KeyOf(strategy, streams, now), streams);
        selected, victims, rest := SelectHybrid(w, streams, target, now);
        if Sensible(w, streams, now) {
          HybridSparesActive(w, streams, now, target, victims, rest);
        }
    }
    ChosenAreRight(strategy, streams, target, now, victims, rest);
  }
}
