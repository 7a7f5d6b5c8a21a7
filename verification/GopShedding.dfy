/** What the drop functions and the limits of the buffer of groups of pictures do, on the frames of its groups. */
module GopShedding {
  import opened Sequences
  import opened VideoFrames

  /** No keyframe but in front, of whatever type; there may be none. */
  ghost predicate KeyInFront(frames: seq<Frame>) { forall p :: 0 <= p < |frames| && IsKeyframe(frames[p]) ==> p == 0 }

  predicate NotB(f: Frame) { !IsB(f) }
  predicate NotKey(f: Frame) { !IsKeyframe(f) }

  function Reverse<T>(s: seq<T>): (r: seq<T>)
    ensures |r| == |s|
    decreases |s|
  {
    if s == [] then [] else Reverse(s[1..]) + [s[0]]
  }

  lemma {:induction false} ReverseSnoc<T>(s: seq<T>, x: T)
    ensures Reverse(s + [x]) == [x] + Reverse(s)
    decreases |s|
  {
    if s == [] {
      assert [] + [x] == [x] && [x][1..] == [];
    } else {
      assert (s + [x])[1..] == s[1..] + [x];
      ReverseSnoc(s[1..], x);
    }
  }

  lemma {:induction false} ReverseMultiset<T>(s: seq<T>)
    ensures multiset(Reverse(s)) == multiset(s)
    decreases |s|
  {
    if s != [] {
      assert s == [s[0]] + s[1..];
      ReverseMultiset(s[1..]);
    }
  }

  // Order kept: what is left is a subsequence of what was there.

  ghost predicate Within<T(!new)>(a: seq<T>, b: seq<T>)
    decreases |b|
  {
    a == [] || (b != [] && ((a[0] == b[0] && Within(a[1..], b[1..])) || Within(a, b[1..])))
  }

  lemma {:induction false} WithinSelf<T(!new)>(a: seq<T>)
    ensures Within(a, a)
    decreases |a|
  {
    if a != [] {
      WithinSelf(a[1..]);
    }
  }

  lemma {:induction false} WithinMore<T(!new)>(a: seq<T>, front: seq<T>, b: seq<T>)
    requires Within(a, b)
    ensures Within(a, front + b)
    decreases |front|
  {
    if front == [] {
      assert front + b == b;
    } else {
      WithinMore(a, front[1..], b);
      assert (front + b)[1..] == front[1..] + b;
    }
  }

  lemma {:induction false} WithinAppend<T(!new)>(a: seq<T>, b: seq<T>, c: seq<T>, d: seq<T>)
    requires Within(a, b) && Within(c, d)
    ensures Within(a + c, b + d)
    decreases |b|
  {
    if a == [] {
      assert a + c == c;
      WithinMore(c, b, d);
    } else {
      assert (b + d)[1..] == b[1..] + d && (a + c)[1..] == a[1..] + c;
      if a[0] == b[0] && Within(a[1..], b[1..]) {
        WithinAppend(a[1..], b[1..], c, d);
      } else {
        WithinAppend(a, b[1..], c, d);
      }
    }
  }

  lemma {:induction false} WithinTransitive<T(!new)>(a: seq<T>, b: seq<T>, c: seq<T>)
    requires Within(a, b) && Within(b, c)
    ensures Within(a, c)
    decreases |c|
  {
    if a != [] {
      if b[0] == c[0] && Within(b[1..], c[1..]) {
        if a[0] == b[0] && Within(a[1..], b[1..]) {
          WithinTransitive(a[1..], b[1..], c[1..]);
        } else {
          WithinTransitive(a, b[1..], c[1..]);
        }
      } else {
        WithinTransitive(a, b, c[1..]);
      }
    }
  }

  lemma {:induction false} FilterWithin(p: Frame -> bool, s: seq<Frame>)
    ensures Within(Filter(p, s), s)
    decreases |s|
  {
    if s != [] {
      FilterWithin(p, s[1..]);
      var f := Filter(p, s[1..]);
      if p(s[0]) {
        assert ([s[0]] + f)[1..] == f;
      } else {
        assert [] + f == f;
      }
    }
  }

  lemma RemoveAtWithin<T(!new)>(s: seq<T>, i: nat)
    requires i < |s|
    ensures Within(RemoveAt(s, i), s)
  {
    WithinSelf(s[..i]);
    WithinSelf(s[i + 1..]);
    WithinMore(s[i + 1..], [s[i]], s[i + 1..]);
    WithinAppend(s[..i], s[..i], s[i + 1..], [s[i]] + s[i + 1..]);
    assert s == s[..i] + ([s[i]] + s[i + 1..]);
  }

  // One group.

  datatype Shed = Shed(kept: seq<Frame>, dropped: seq<Frame>)

  /** Nothing lost, nothing added, order kept. */
  ghost predicate Conserves(before: seq<Frame>, s: Shed) {
    multiset(before) == multiset(s.kept) + multiset(s.dropped) && Within(s.kept, before)
  }

  /** And keyframes untouched. */
  ghost predicate Keeps(before: seq<Frame>, s: Shed) {
    Conserves(before, s) && Filter(IsKeyframe, s.kept) == Filter(IsKeyframe, before) && NoKey(s.dropped)
  }

  ghost predicate NoKey(frames: seq<Frame>) { forall f :: f in frames ==> !IsKeyframe(f) }

  lemma {:induction false} WithinIsPart<T(!new)>(a: seq<T>, b: seq<T>)
    requires Within(a, b)
    ensures multiset(a) <= multiset(b)
    decreases |b|
  {
    if a != [] {
      assert a == [a[0]] + a[1..] && b == [b[0]] + b[1..];
      if a[0] == b[0] && Within(a[1..], b[1..]) {
        WithinIsPart(a[1..], b[1..]);
      } else {
        WithinIsPart(a, b[1..]);
      }
    }
  }

  /** If what is missing holds no keyframe, the keyframes are the same. */
  lemma {:induction false} SameKeys(kept: seq<Frame>, before: seq<Frame>, gone: multiset<Frame>)
    requires Within(kept, before) && multiset(before) == multiset(kept) + gone
    requires forall f :: f in gone ==> !IsKeyframe(f)
    ensures Filter(IsKeyframe, kept) == Filter(IsKeyframe, before)
    decreases |before|
  {
    if before != [] {
      FirstCounted(before);
      if kept != [] && kept[0] == before[0] && Within(kept[1..], before[1..]) {
        FirstCounted(kept);
        SameLess(before[0], multiset(before[1..]), multiset(kept[1..]), gone);
        SameKeys(kept[1..], before[1..], gone);
      } else {
        WithinIsPart(kept, before[1..]);
        OneGone(before[0], multiset(before[1..]), multiset(kept), gone);
        SameKeys(kept, before[1..], gone - multiset{before[0]});
      }
    }
  }

  lemma FirstCounted(s: seq<Frame>)
    requires s != []
    ensures multiset(s) == multiset{s[0]} + multiset(s[1..])
    ensures Filter(IsKeyframe, s) == if IsKeyframe(s[0]) then [s[0]] + Filter(IsKeyframe, s[1..]) else Filter(IsKeyframe, s[1..])
  {
    assert s == [s[0]] + s[1..];
  }

  lemma SameLess<T>(x: T, rest: multiset<T>, kept: multiset<T>, gone: multiset<T>)
    requires multiset{x} + rest == (multiset{x} + kept) + gone
    ensures rest == kept + gone
  {
    forall y ensures rest[y] == (kept + gone)[y] {
      assert (multiset{x} + rest)[y] == ((multiset{x} + kept) + gone)[y];
    }
  }

  lemma OneGone<T>(x: T, rest: multiset<T>, kept: multiset<T>, gone: multiset<T>)
    requires multiset{x} + rest == kept + gone && kept <= rest
    ensures x in gone && rest == kept + (gone - multiset{x})
  {
    assert (multiset{x} + rest)[x] == rest[x] + 1 && (kept + gone)[x] == kept[x] + gone[x] && kept[x] <= rest[x];
    forall y ensures rest[y] == (kept + (gone - multiset{x}))[y] {
      assert (multiset{x} + rest)[y] == (kept + gone)[y];
    }
  }

  lemma KeepsExactly(before: seq<Frame>, s: Shed)
    requires Conserves(before, s)
    ensures Keeps(before, s) <==> NoKey(s.dropped)
  {
    if NoKey(s.dropped) {
      SameKeys(s.kept, before, multiset(s.dropped));
    }
  }

  lemma {:induction false} FilterOnly(p: Frame -> bool, s: seq<Frame>)
    ensures forall f :: f in Filter(p, s) ==> p(f) && f in s
    decreases |s|
  {
    if s != [] {
      FilterOnly(p, s[1..]);
    }
  }

  /** The B frames of a group go, the last one first. */
  function WithoutB(frames: seq<Frame>): Shed {
    Shed(Filter(NotB, frames), Reverse(Filter(IsB, frames)))
  }

  /** The positions of the B frames below `n`, as they are collected. */
  function BPositions(frames: seq<Frame>, n: nat): (ps: seq<nat>)
    requires n <= |frames|
    decreases n
  {
    if n == 0 then [] else BPositions(frames, n - 1) + if IsB(frames[n - 1]) then [n - 1] else []
  }

  /** Behind the last position there is no B frame. */
  lemma {:induction false} LastB(frames: seq<Frame>, n: nat)
    requires n <= |frames|
    ensures var ps := BPositions(frames, n);
            && (ps == [] ==> NoneBetween(frames, 0, n))
            && (ps != [] ==>
                  var p := ps[|ps| - 1];
                  p < n && IsB(frames[p]) && ps[..|ps| - 1] == BPositions(frames, p) && NoneBetween(frames, p + 1, n))
    decreases n
  {
    if n > 0 {
      LastB(frames, n - 1);
      var ps, before := BPositions(frames, n), BPositions(frames, n - 1);
      if IsB(frames[n - 1]) {
        assert ps[..|ps| - 1] == before;
      } else {
        assert ps == before;
      }
    }
  }

  ghost predicate NoneBetween(frames: seq<Frame>, from: nat, to: nat) {
    forall i :: from <= i < to && i < |frames| ==> !IsB(frames[i])
  }

  lemma {:induction false} FilterNone(frames: seq<Frame>)
    requires forall i :: 0 <= i < |frames| ==> !IsB(frames[i])
    ensures Filter(NotB, frames) == frames && Filter(IsB, frames) == []
    decreases |frames|
  {
    if frames != [] {
      FilterNone(frames[1..]);
      assert frames == [frames[0]] + frames[1..];
    }
  }

  /** One B frame less, from the back: what is kept and what is dropped of the frames from its position on. */
  lemma BStep(frames: seq<Frame>, p: nat, n: nat)
    requires p < n <= |frames| && IsB(frames[p]) && NoneBetween(frames, p + 1, n)
    ensures RemoveAt(frames[..n] + Filter(NotB, frames[n..]), p) == frames[..p] + Filter(NotB, frames[p..])
    ensures Reverse(Filter(IsB, frames[p..])) == Reverse(Filter(IsB, frames[n..])) + [frames[p]]
  {
    BKept(frames, p, n);
    BDropped(frames, p, n);
  }

  lemma BKept(frames: seq<Frame>, p: nat, n: nat)
    requires p < n <= |frames| && IsB(frames[p]) && NoneBetween(frames, p + 1, n)
    ensures RemoveAt(frames[..n] + Filter(NotB, frames[n..]), p) == frames[..p] + Filter(NotB, frames[p..])
  {
    KeptFrom(frames, p, n);
    var between, kept := frames[p + 1..n], Filter(NotB, frames[n..]);
    var now := frames[..n] + kept;
    assert now[..p] == frames[..p];
    assert now[p + 1..] == between + kept;
  }

  lemma KeptFrom(frames: seq<Frame>, p: nat, n: nat)
    requires p < n <= |frames| && IsB(frames[p]) && NoneBetween(frames, p + 1, n)
    ensures Filter(NotB, frames[p..]) == frames[p + 1..n] + Filter(NotB, frames[n..])
  {
    var between, rest := frames[p + 1..n], frames[n..];
    FilterNone(between);
    FilterAppend(NotB, between, rest);
    assert frames[p..][1..] == between + rest;
    var kept := Filter(NotB, rest);
    assert [] + (between + kept) == between + kept;
  }

  lemma BDropped(frames: seq<Frame>, p: nat, n: nat)
    requires p < n <= |frames| && IsB(frames[p]) && NoneBetween(frames, p + 1, n)
    ensures Reverse(Filter(IsB, frames[p..])) == Reverse(Filter(IsB, frames[n..])) + [frames[p]]
  {
    var between, rest := frames[p + 1..n], frames[n..];
    FilterNone(between);
    FilterAppend(IsB, between, rest);
    assert frames[p..][1..] == between + rest;
    var gone := Filter(IsB, rest);
    assert [] + gone == gone;
    assert ([frames[p]] + gone)[1..] == gone;
  }

  /** No B frame is left below `n`. */
  lemma BEnd(frames: seq<Frame>, n: nat)
    requires n <= |frames| && NoneBetween(frames, 0, n)
    ensures frames[..n] + Filter(NotB, frames[n..]) == WithoutB(frames).kept
    ensures Reverse(Filter(IsB, frames[n..])) == WithoutB(frames).dropped
  {
    FilterNone(frames[..n]);
    FilterAppend(NotB, frames[..n], frames[n..]);
    FilterAppend(IsB, frames[..n], frames[n..]);
    assert frames == frames[..n] + frames[n..] && [] + Filter(IsB, frames[n..]) == Filter(IsB, frames[n..]);
  }

  /** The removal of B frames at work: `ps` are the positions to come, all below `n`. */
  ghost predicate Removing(frames: seq<Frame>, n: nat, ps: seq<nat>, now: Shed) {
    && n <= |frames| && ps == BPositions(frames, n)
    && now.kept == frames[..n] + Filter(NotB, frames[n..])
    && now.dropped == Reverse(Filter(IsB, frames[n..]))
  }

  lemma RemovingStarts(frames: seq<Frame>)
    ensures Removing(frames, |frames|, BPositions(frames, |frames|), Shed(frames, []))
  {
  }

  lemma RemovingTurn(frames: seq<Frame>, n: nat, ps: seq<nat>, now: Shed) returns (p: nat)
    requires Removing(frames, n, ps, now) && ps != []
    ensures p == ps[|ps| - 1] && p < |now.kept| && IsB(now.kept[p])
    ensures Removing(frames, p, ps[..|ps| - 1], Shed(RemoveAt(now.kept, p), now.dropped + [now.kept[p]]))
  {
    p := ps[|ps| - 1];
    LastB(frames, n);
    BStep(frames, p, n);
  }

  lemma RemovingEnds(frames: seq<Frame>, n: nat, now: Shed)
    requires Removing(frames, n, [], now)
    ensures now == WithoutB(frames)
  {
    LastB(frames, n);
    BEnd(frames, n);
  }

  ghost predicate NoB(frames: seq<Frame>) { forall f :: f in frames ==> !IsB(f) }
  ghost predicate OnlyKeyP(frames: seq<Frame>) { forall f :: f in frames && IsP(f) ==> IsKeyframe(f) }

  /** No keyframe is of type B: a frame may be marked as one whatever its type. */
  ghost predicate NoKeyIsB(frames: seq<Frame>) { forall f :: f in frames && IsKeyframe(f) ==> !IsB(f) }

  /** The B frames go and nothing else; no keyframe is lost exactly if none is of type B. */
  lemma WithoutBKeeps(frames: seq<Frame>)
    ensures var s := WithoutB(frames);
            Conserves(frames, s) && NoB(s.kept) && (NoKey(s.dropped) <==> NoKeyIsB(frames)) && (Keeps(frames, s) <==> NoKeyIsB(frames))
  {
    FilterPartition(NotB, IsB, frames);
    ReverseMultiset(Filter(IsB, frames));
    FilterWithin(NotB, frames);
    FilterOnly(NotB, frames);
    DroppedAreB(frames);
    KeepsExactly(frames, WithoutB(frames));
    if NoKey(WithoutB(frames).dropped) {
      forall f | f in frames && IsKeyframe(f) ensures !IsB(f) {
        assert f in multiset(frames) && NotB(f) == !IsB(f);
        assert f in multiset(WithoutB(frames).dropped) ==> f in WithoutB(frames).dropped;
        assert f in WithoutB(frames).kept;
      }
    }
  }

  lemma DroppedAreB(frames: seq<Frame>)
    ensures forall f :: f in WithoutB(frames).dropped ==> IsB(f) && f in frames
  {
    var bs := Filter(IsB, frames);
    FilterOnly(IsB, frames);
    ReverseMultiset(bs);
    forall f | f in Reverse(bs) ensures IsB(f) && f in frames {
      assert f in multiset(Reverse(bs));
    }
  }

  /** Whether the next frame that matters after a P frame is not a B frame. */
  predicate NoBNext(frames: seq<Frame>, i: nat)
    decreases |frames| - i
  {
    if i >= |frames| then true
    else if IsB(frames[i]) then false
    else IsP(frames[i]) || IsKeyframe(frames[i]) || NoBNext(frames, i + 1)
  }

  predicate CanDrop(frames: seq<Frame>, i: nat) {
    i < |frames| && !IsKeyframe(frames[i]) && (IsB(frames[i]) || (IsP(frames[i]) && NoBNext(frames, i + 1)))
  }

  /** The P frames below `n` that may go, the last one first; each is judged with the frames still there. */
  function WithoutP(frames: seq<Frame>, n: nat): Shed
    requires n <= |frames|
    decreases n
  {
    if n == 0 then Shed(frames, [])
    else if CanDrop(frames, n - 1) && IsP(frames[n - 1]) then
      var s := WithoutP(RemoveAt(frames, n - 1), n - 1);
      s.(dropped := [frames[n - 1]] + s.dropped)
    else WithoutP(frames, n - 1)
  }

  /** One frame is dropped, and then others. */
  lemma OneMore(frames: seq<Frame>, i: nat, s: Shed)
    requires i < |frames| && Conserves(RemoveAt(frames, i), s)
    ensures Conserves(frames, Shed(s.kept, [frames[i]] + s.dropped))
  {
    var dropped := [frames[i]] + s.dropped;
    WithinTransitiveAfterRemoval(frames, i, s.kept);
    assert multiset(frames) == multiset(s.kept) + multiset(dropped) by {
      RemoveAtMultiset(frames, i);
      assert multiset(dropped) == multiset{frames[i]} + multiset(s.dropped);
    }
  }

  lemma WithinTransitiveAfterRemoval(frames: seq<Frame>, i: nat, kept: seq<Frame>)
    requires i < |frames| && Within(kept, RemoveAt(frames, i))
    ensures Within(kept, frames)
  {
    RemoveAtWithin(frames, i);
    WithinTransitive(kept, RemoveAt(frames, i), frames);
  }

  lemma {:induction false} WithoutPConserves(frames: seq<Frame>, n: nat)
    requires n <= |frames|
    ensures Conserves(frames, WithoutP(frames, n)) && NoKey(WithoutP(frames, n).dropped)
    decreases n
  {
    if n == 0 {
      WithinSelf(frames);
    } else if CanDrop(frames, n - 1) && IsP(frames[n - 1]) {
      WithoutPConserves(RemoveAt(frames, n - 1), n - 1);
      OneMore(frames, n - 1, WithoutP(RemoveAt(frames, n - 1), n - 1));
    } else {
      WithoutPConserves(frames, n - 1);
    }
  }

  /** A P frame that is a keyframe is spared. */
  lemma WithoutPKeeps(frames: seq<Frame>, n: nat)
    requires n <= |frames|
    ensures Keeps(frames, WithoutP(frames, n))
  {
    WithoutPConserves(frames, n);
    KeepsExactly(frames, WithoutP(frames, n));
  }

  /** Without B frames every P frame below `n` goes, unless it is a keyframe. */
  lemma {:induction false} WithoutPIsComplete(frames: seq<Frame>, n: nat)
    requires n <= |frames| && NoB(frames)
    requires forall p :: n <= p < |frames| && IsP(frames[p]) ==> IsKeyframe(frames[p])
    ensures OnlyKeyP(WithoutP(frames, n).kept)
    decreases n
  {
    if n > 0 {
      NoBAhead(frames, n);
      if IsP(frames[n - 1]) && !IsKeyframe(frames[n - 1]) {
        WithoutPIsComplete(RemoveAt(frames, n - 1), n - 1);
      } else {
        WithoutPIsComplete(frames, n - 1);
      }
    }
  }

  lemma {:induction false} NoBAhead(frames: seq<Frame>, i: nat)
    requires NoB(frames)
    ensures NoBNext(frames, i)
    decreases |frames| - i
  {
    if i < |frames| {
      assert frames[i] in frames;
      NoBAhead(frames, i + 1);
    }
  }

  /** Only the keyframe stays. */
  function OnlyKey(frames: seq<Frame>): Shed {
    Shed(Filter(IsKeyframe, frames), Filter(NotKey, frames))
  }

  lemma OnlyKeyKeeps(frames: seq<Frame>)
    ensures Keeps(frames, OnlyKey(frames))
  {
    FilterPartition(IsKeyframe, NotKey, frames);
    FilterWithin(IsKeyframe, frames);
    FilterOnly(NotKey, frames);
    KeepsExactly(frames, OnlyKey(frames));
  }

  // All groups, the oldest first.

  datatype Outcome = Outcome(lists: seq<seq<Frame>>, dropped: seq<Frame>)

  /** One way of shedding, for the `count` oldest groups, or for all groups if the count is negative. */
  function Each(shed: seq<Frame> -> Shed, lists: seq<seq<Frame>>, count: int): (o: Outcome)
    ensures |o.lists| == |lists|
    decreases |lists|
  {
    if lists == [] || count == 0 then Outcome(lists, [])
    else
      var s, o := shed(lists[0]), Each(shed, lists[1..], count - 1);
      Outcome([s.kept] + o.lists, s.dropped + o.dropped)
  }

  /** `Each` at work: the groups before position `g` are done. */
  ghost predicate Doing(shed: seq<Frame> -> Shed, all: seq<seq<Frame>>, count: int, g: nat, now: Outcome) {
    && g <= |all| == |now.lists| && now.lists[g..] == all[g..]
    && var o := Each(shed, all[g..], count - g);
       Each(shed, all, count) == Outcome(now.lists[..g] + o.lists, now.dropped + o.dropped)
  }

  lemma DoingStarts(shed: seq<Frame> -> Shed, all: seq<seq<Frame>>, count: int)
    ensures Doing(shed, all, count, 0, Outcome(all, []))
  {
    assert all[0..] == all && all[..0] == [];
    var o := Each(shed, all, count);
    assert [] + o.lists == o.lists && [] + o.dropped == o.dropped;
  }

  lemma DoingTurn(shed: seq<Frame> -> Shed, all: seq<seq<Frame>>, count: int, g: nat, now: Outcome)
    requires Doing(shed, all, count, g, now) && g < |all| && count != g
    ensures var s := shed(now.lists[g]);
            Doing(shed, all, count, g + 1, Outcome(now.lists[g := s.kept], now.dropped + s.dropped))
  {
    var s := shed(now.lists[g]);
    assert now.lists[g] == now.lists[g..][0] == all[g..][0];
    assert all[g..][1..] == all[g + 1..];
    var o := Each(shed, all[g + 1..], count - g - 1);
    var lists := now.lists[g := s.kept];
    assert lists[g + 1..] == now.lists[g..][1..];
    assert lists[..g + 1] == now.lists[..g] + [s.kept];
    Associative(now.lists[..g], [s.kept], o.lists);
    Associative(now.dropped, s.dropped, o.dropped);
  }

  lemma DoingEnds(shed: seq<Frame> -> Shed, all: seq<seq<Frame>>, count: int, g: nat, now: Outcome)
    requires Doing(shed, all, count, g, now) && (g == |all| || count == g)
    ensures now == Each(shed, all, count)
  {
    assert now.lists == now.lists[..g] + now.lists[g..];
  }

  function WithoutAnyP(frames: seq<Frame>): Shed { WithoutP(frames, |frames|) }

  function DropOld(lists: seq<seq<Frame>>, count: nat, includeKeyframes: bool): Outcome
    decreases count
  {
    if count == 0 || |lists| <= 1 then Outcome(lists, [])
    else if includeKeyframes then
      var o := DropOld(lists[1..], count - 1, includeKeyframes);
      o.(dropped := lists[0] + o.dropped)
    else
      var o := DropOld([OnlyKey(lists[0]).kept] + lists[1..], count - 1, includeKeyframes);
      o.(dropped := OnlyKey(lists[0]).dropped + o.dropped)
  }

  /** One turn of `DropOld`. */
  function OldestOut(lists: seq<seq<Frame>>, includeKeyframes: bool): Outcome
    requires lists != []
  {
    if includeKeyframes then Outcome(lists[1..], lists[0])
    else Outcome([OnlyKey(lists[0]).kept] + lists[1..], OnlyKey(lists[0]).dropped)
  }

  function Then(dropped: seq<Frame>, o: Outcome): Outcome { o.(dropped := dropped + o.dropped) }

  lemma DropOldTurn(lists: seq<seq<Frame>>, count: nat, includeKeyframes: bool, dropped: seq<Frame>)
    requires count > 0 && |lists| > 1
    ensures var o := OldestOut(lists, includeKeyframes);
            Then(dropped, DropOld(lists, count, includeKeyframes)) == Then(dropped + o.dropped, DropOld(o.lists, count - 1, includeKeyframes))
  {
    var o := OldestOut(lists, includeKeyframes);
    Associative(dropped, o.dropped, DropOld(o.lists, count - 1, includeKeyframes).dropped);
  }

  function ShedFor(lists: seq<seq<Frame>>, pressure: real): Outcome {
    if pressure < 0.5 then Outcome(lists, [])
    else if pressure < 0.7 then Each(WithoutB, lists, 2)
    else if pressure < 0.85 then
      var o := Each(WithoutB, lists, -1);
      var o2 := Each(WithoutAnyP, o.lists, 1);
      Outcome(o2.lists, o.dropped + o2.dropped)
    else if pressure < 0.95 then DropOld(lists, 1, false)
    else if |lists| > 1 then DropOld(lists, 1, true)
    else Each(OnlyKey, lists, -1)
  }

  /** The same of all groups together, with as many groups as before. */
  ghost predicate ConservesAll(lists: seq<seq<Frame>>, o: Outcome) {
    |o.lists| == |lists| && Conserves(Flatten(lists), Shed(Flatten(o.lists), o.dropped))
  }

  ghost predicate KeepsAll(lists: seq<seq<Frame>>, o: Outcome) {
    |o.lists| == |lists| && Keeps(Flatten(lists), Shed(Flatten(o.lists), o.dropped))
  }

  lemma ConservesNone(lists: seq<seq<Frame>>)
    ensures ConservesAll(lists, Outcome(lists, []))
  {
    WithinSelf(Flatten(lists));
  }

  /** One group in front of others. */
  lemma ConservesCons(first: seq<Frame>, s: Shed, rest: seq<seq<Frame>>, o: Outcome)
    requires Conserves(first, s) && ConservesAll(rest, o)
    ensures ConservesAll([first] + rest, Outcome([s.kept] + o.lists, s.dropped + o.dropped))
  {
    assert ([first] + rest)[1..] == rest && ([s.kept] + o.lists)[1..] == o.lists;
    WithinAppend(s.kept, first, Flatten(o.lists), Flatten(rest));
  }

  /** One shedding after the other. */
  lemma ConservesThen(lists: seq<seq<Frame>>, o1: Outcome, o2: Outcome)
    requires ConservesAll(lists, o1) && ConservesAll(o1.lists, o2)
    ensures ConservesAll(lists, Outcome(o2.lists, o1.dropped + o2.dropped))
  {
    WithinTransitive(Flatten(o2.lists), Flatten(o1.lists), Flatten(lists));
  }

  /** Whether group `i` is among the `count` oldest, or among all. */
  predicate Among(i: nat, count: int) { count < 0 || i < count }

  /** Shedding that conserves the frames of one group does so for all groups. */
  lemma {:induction false} EachConserves(shed: seq<Frame> -> Shed, lists: seq<seq<Frame>>, count: int)
    requires forall i :: 0 <= i < |lists| ==> Conserves(lists[i], shed(lists[i]))
    ensures ConservesAll(lists, Each(shed, lists, count))
    decreases |lists|
  {
    if lists == [] || count == 0 {
      ConservesNone(lists);
    } else {
      var first, rest, o := lists[0], lists[1..], Each(shed, lists[1..], count - 1);
      assert Conserves(first, shed(first));
      EachConserves(shed, rest, count - 1);
      ConservesCons(first, shed(first), rest, o);
      assert lists == [first] + rest;
    }
  }

  ghost predicate SparesAt(shed: seq<Frame> -> Shed, lists: seq<seq<Frame>>, i: nat)
    requires i < |lists|
  {
    NoKey(shed(lists[i]).dropped)
  }

  /** It loses no keyframe exactly if it loses none in any of the groups it is for. */
  lemma {:induction false} EachSpares(shed: seq<Frame> -> Shed, lists: seq<seq<Frame>>, count: int)
    ensures NoKey(Each(shed, lists, count).dropped) <==> forall i :: 0 <= i < |lists| && Among(i, count) ==> SparesAt(shed, lists, i)
    decreases |lists|
  {
    if lists != [] && count != 0 {
      var rest := lists[1..];
      var first, others := shed(lists[0]).dropped, Each(shed, rest, count - 1).dropped;
      EachSpares(shed, rest, count - 1);
      assert NoKey(first + others) <==> NoKey(first) && NoKey(others) by {
        assert forall f :: f in first + others <==> f in first || f in others;
      }
      if forall i :: 0 <= i < |lists| && Among(i, count) ==> SparesAt(shed, lists, i) {
        forall i | 0 <= i < |rest| && Among(i, count - 1) ensures SparesAt(shed, rest, i) {
          assert SparesAt(shed, lists, i + 1);
        }
        assert SparesAt(shed, lists, 0);
      }
      if NoKey(first + others) {
        forall i | 0 <= i < |lists| && Among(i, count) ensures SparesAt(shed, lists, i) {
          if i > 0 {
            assert SparesAt(shed, rest, i - 1);
          }
        }
      }
    }
  }

  /** Both of these, in terms of the keyframes that one group's shedding spares. */
  lemma EachKeeps(shed: seq<Frame> -> Shed, lists: seq<seq<Frame>>, count: int)
    requires forall i :: 0 <= i < |lists| ==> Conserves(lists[i], shed(lists[i]))
    ensures ConservesAll(lists, Each(shed, lists, count))
    ensures KeepsAll(lists, Each(shed, lists, count)) <==> NoKey(Each(shed, lists, count).dropped)
    ensures NoKey(Each(shed, lists, count).dropped) <==> forall i :: 0 <= i < |lists| && Among(i, count) ==> NoKey(shed(lists[i]).dropped)
  {
    var o := Each(shed, lists, count);
    EachConserves(shed, lists, count);
    KeepsExactly(Flatten(lists), Shed(Flatten(o.lists), o.dropped));
    EachSpares(shed, lists, count);
    forall i | 0 <= i < |lists| ensures SparesAt(shed, lists, i) <==> NoKey(shed(lists[i]).dropped) {
    }
  }

  lemma WithoutBKeepsAll(lists: seq<seq<Frame>>, count: int)
    ensures ConservesAll(lists, Each(WithoutB, lists, count))
    ensures NoKey(Each(WithoutB, lists, count).dropped) <==> forall i :: 0 <= i < |lists| && Among(i, count) ==> NoKeyIsB(lists[i])
  {
    forall i | 0 <= i < |lists|
      ensures Conserves(lists[i], WithoutB(lists[i])) && (NoKey(WithoutB(lists[i]).dropped) <==> NoKeyIsB(lists[i]))
    {
      WithoutBKeeps(lists[i]);
    }
    EachKeeps(WithoutB, lists, count);
  }

  lemma WithoutPKeepsAll(lists: seq<seq<Frame>>, count: int)
    ensures ConservesAll(lists, Each(WithoutAnyP, lists, count)) && NoKey(Each(WithoutAnyP, lists, count).dropped)
  {
    forall i | 0 <= i < |lists| ensures Conserves(lists[i], WithoutAnyP(lists[i])) && NoKey(WithoutAnyP(lists[i]).dropped) {
      WithoutPConserves(lists[i], |lists[i]|);
    }
    EachKeeps(WithoutAnyP, lists, count);
  }

  lemma OnlyKeyKeepsAll(lists: seq<seq<Frame>>, count: int)
    ensures ConservesAll(lists, Each(OnlyKey, lists, count)) && NoKey(Each(OnlyKey, lists, count).dropped)
  {
    forall i | 0 <= i < |lists| ensures Conserves(lists[i], OnlyKey(lists[i])) && NoKey(OnlyKey(lists[i]).dropped) {
      OnlyKeyKeeps(lists[i]);
    }
    EachKeeps(OnlyKey, lists, count);
  }

  lemma {:induction false} DropOldKeeps(lists: seq<seq<Frame>>, count: nat)
    ensures ConservesAll(lists, DropOld(lists, count, false)) && NoKey(DropOld(lists, count, false).dropped)
    decreases count
  {
    if count == 0 || |lists| <= 1 {
      ConservesNone(lists);
    } else {
      FirstOnlyKey(lists);
      var once := [OnlyKey(lists[0]).kept] + lists[1..];
      DropOldKeeps(once, count - 1);
      ConservesThen(lists, Outcome(once, OnlyKey(lists[0]).dropped), DropOld(once, count - 1, false));
    }
  }

  lemma FirstOnlyKey(lists: seq<seq<Frame>>)
    requires lists != []
    ensures ConservesAll(lists, Outcome([OnlyKey(lists[0]).kept] + lists[1..], OnlyKey(lists[0]).dropped)) && NoKey(OnlyKey(lists[0]).dropped)
  {
    OnlyKeyKeeps(lists[0]);
    ConservesNone(lists[1..]);
    ConservesCons(lists[0], OnlyKey(lists[0]), lists[1..], Outcome(lists[1..], []));
    assert lists == [lists[0]] + lists[1..] && OnlyKey(lists[0]).dropped + [] == OnlyKey(lists[0]).dropped;
  }

  /** No keyframe is of type B in a group that loses its B frames: the two oldest from 0.5 on, all from 0.7 to 0.85. */
  ghost predicate NoKeyGoes(lists: seq<seq<Frame>>, pressure: real) {
    forall i :: 0 <= i < |lists| && ((0.5 <= pressure < 0.7 && i < 2) || 0.7 <= pressure < 0.85) ==> NoKeyIsB(lists[i])
  }

  /** Shedding conserves frames at every pressure: each one is either dropped or still there, in the old order; a buffer that
      holds a group still holds one; and below 0.95 no group goes, and no keyframe either exactly if none is of type B where B
      frames are dropped. */
  lemma SheddingConserves(lists: seq<seq<Frame>>, pressure: real)
    ensures var o := ShedFor(lists, pressure);
            && Conserves(Flatten(lists), Shed(Flatten(o.lists), o.dropped))
            && (lists != [] ==> o.lists != [])
            && (pressure < 0.95 ==> |o.lists| == |lists| && (KeepsAll(lists, o) <==> NoKeyGoes(lists, pressure)))
  {
    var o := ShedFor(lists, pressure);
    if pressure < 0.95 {
      BelowExtreme(lists, pressure);
      KeepsExactly(Flatten(lists), Shed(Flatten(o.lists), o.dropped));
    } else if |lists| > 1 {
      DropFirst(lists);
    } else {
      OnlyKeyKeepsAll(lists, -1);
    }
  }

  lemma BelowExtreme(lists: seq<seq<Frame>>, pressure: real)
    requires pressure < 0.95
    ensures var o := ShedFor(lists, pressure); ConservesAll(lists, o) && (NoKey(o.dropped) <==> NoKeyGoes(lists, pressure))
  {
    if pressure < 0.5 {
      ConservesNone(lists);
    } else if pressure < 0.7 {
      WithoutBKeepsAll(lists, 2);
    } else if pressure < 0.85 {
      var o := Each(WithoutB, lists, -1);
      var o2 := Each(WithoutAnyP, o.lists, 1);
      WithoutBKeepsAll(lists, -1);
      WithoutPKeepsAll(o.lists, 1);
      ConservesThen(lists, o, o2);
      assert forall f :: f in o.dropped + o2.dropped <==> f in o.dropped || f in o2.dropped;
    } else {
      DropOldKeeps(lists, 1);
    }
  }

  lemma DropFirst(lists: seq<seq<Frame>>)
    requires |lists| > 1
    ensures DropOld(lists, 1, true) == Outcome(lists[1..], lists[0])
    ensures Conserves(Flatten(lists), Shed(Flatten(lists[1..]), lists[0]))
  {
    WithinSelf(Flatten(lists[1..]));
    WithinMore(Flatten(lists[1..]), lists[0], Flatten(lists[1..]));
    assert lists[0] + [] == lists[0];
    assert DropOld(lists[1..], 0, true) == Outcome(lists[1..], []);
  }

  lemma {:induction false} EachIs(shed: seq<Frame> -> Shed, lists: seq<seq<Frame>>, count: int, i: nat)
    requires i < |lists|
    ensures Each(shed, lists, count).lists[i] == if Among(i, count) then shed(lists[i]).kept else lists[i]
    decreases |lists|
  {
    if count != 0 && i > 0 {
      EachIs(shed, lists[1..], count - 1, i - 1);
    }
  }

  /** From 0.5 on only the two oldest groups change, and lose exactly their B frames. */
  lemma LowPressure(lists: seq<seq<Frame>>, pressure: real, i: nat)
    requires 0.5 <= pressure < 0.7 && i < |lists|
    ensures ShedFor(lists, pressure).lists[i] == if i < 2 then Filter(NotB, lists[i]) else lists[i]
  {
    EachIs(WithoutB, lists, 2, i);
  }

  /** From 0.7 to 0.85 no B frame is left in any group, and in the oldest no P frame that is not a keyframe. */
  lemma MediumPressure(lists: seq<seq<Frame>>, pressure: real, i: nat)
    requires i < |lists| && 0.7 <= pressure < 0.85
    ensures var o := ShedFor(lists, pressure);
            |o.lists| == |lists| && NoB(o.lists[i]) && (i == 0 ==> OnlyKeyP(o.lists[0]))
  {
    var b := Each(WithoutB, lists, -1).lists;
    EachIs(WithoutB, lists, -1, i);
    EachIs(WithoutAnyP, b, 1, i);
    WithoutBKeeps(lists[i]);
    OldestWithoutP(lists[i]);
  }

  lemma OldestWithoutP(frames: seq<Frame>)
    ensures var b := WithoutB(frames).kept;
            NoB(WithoutP(b, |b|).kept) && OnlyKeyP(WithoutP(b, |b|).kept)
  {
    var b := WithoutB(frames).kept;
    WithoutBKeeps(frames);
    WithoutPIsComplete(b, |b|);
    WithoutPConserves(b, |b|);
    var kept := WithoutP(b, |b|).kept;
    forall f | f in kept ensures !IsB(f) {
      assert f in multiset(kept) && f in multiset(b);
    }
  }

  // Which frames go, said of the frames as they were.

  /** A P frame may go as far as B frames are concerned if before every B frame behind it comes a P frame or a keyframe. */
  lemma {:induction false} NoBNextMeans(frames: seq<Frame>, i: nat)
    ensures NoBNext(frames, i) <==>
            forall j :: i <= j < |frames| && IsB(frames[j]) ==> exists k :: i <= k < j && (IsP(frames[k]) || IsKeyframe(frames[k]))
    decreases |frames| - i
  {
    if i < |frames| && !IsB(frames[i]) && !IsP(frames[i]) && !IsKeyframe(frames[i]) {
      NoBNextMeans(frames, i + 1);
      if NoBNext(frames, i + 1) {
        forall j | i <= j < |frames| && IsB(frames[j]) ensures exists k :: i <= k < j && (IsP(frames[k]) || IsKeyframe(frames[k])) {
          var k :| i + 1 <= k < j && (IsP(frames[k]) || IsKeyframe(frames[k]));
        }
      } else {
        var j :| i + 1 <= j < |frames| && IsB(frames[j]) && forall k :: i + 1 <= k < j ==> !IsP(frames[k]) && !IsKeyframe(frames[k]);
        assert forall k :: i <= k < j ==> !IsP(frames[k]) && !IsKeyframe(frames[k]);
      }
    }
  }

  /** The frames without the P frames that may go, each judged with all frames still there. */
  function KeptP(frames: seq<Frame>): seq<Frame>
    decreases |frames|
  {
    if frames == [] then []
    else (if IsP(frames[0]) && !IsKeyframe(frames[0]) && NoBNext(frames[1..], 0) then [] else [frames[0]]) + KeptP(frames[1..])
  }

  lemma {:induction false} NoBNextShift(a: seq<Frame>, b: seq<Frame>, i: nat)
    ensures NoBNext(a + b, |a| + i) == NoBNext(b, i)
    decreases |b| - i
  {
    if i < |b| {
      assert (a + b)[|a| + i] == b[i];
      NoBNextShift(a, b, i + 1);
    }
  }

  lemma {:induction false} KeptPLooksTheSame(frames: seq<Frame>)
    ensures NoBNext(KeptP(frames), 0) == NoBNext(frames, 0)
    decreases |frames|
  {
    if frames != [] {
      var f, rest := frames[0], frames[1..];
      KeptPLooksTheSame(rest);
      assert frames == [f] + rest;
      NoBNextShift([f], rest, 0);
      NoBNextShift([f], KeptP(rest), 0);
      assert [] + KeptP(rest) == KeptP(rest);
    }
  }

  predicate MayGo(x: Frame, rest: seq<Frame>) { IsP(x) && !IsKeyframe(x) && NoBNext(rest, 0) }

  lemma KeptPCons(x: Frame, rest: seq<Frame>)
    ensures KeptP([x] + rest) == if MayGo(x, rest) then KeptP(rest) else [x] + KeptP(rest)
  {
    assert ([x] + rest)[1..] == rest && [] + KeptP(rest) == KeptP(rest);
  }

  lemma LastJudged(front: seq<Frame>, x: Frame, kept: seq<Frame>)
    ensures var now := front + [x] + kept;
            now[|front|] == x && (CanDrop(now, |front|) && IsP(x) <==> MayGo(x, kept))
  {
    NoBNextShift(front + [x], kept, 0);
  }

  lemma LastRemoved(front: seq<Frame>, x: Frame, kept: seq<Frame>)
    ensures RemoveAt(front + [x] + kept, |front|) == front + kept && front + [x] + kept == front + ([x] + kept)
  {
  }

  lemma WithoutPUnrolled(front: seq<Frame>, x: Frame, kept: seq<Frame>)
    ensures WithoutP(front + [x] + kept, |front| + 1).kept ==
            WithoutP(if MayGo(x, kept) then front + kept else front + ([x] + kept), |front|).kept
  {
    LastJudged(front, x, kept);
    LastRemoved(front, x, kept);
  }

  /** Judging each P frame with the frames still there, from the back, comes to the same as judging it with all of them. */
  lemma {:induction false} WithoutPFrom(a: seq<Frame>, rest: seq<Frame>)
    ensures WithoutP(a + KeptP(rest), |a|).kept == KeptP(a + rest)
    decreases |a|
  {
    if a == [] {
      assert a + KeptP(rest) == KeptP(rest) && a + rest == rest;
    } else {
      var front, x := a[..|a| - 1], a[|a| - 1];
      assert a == front + [x];
      WithoutPFrom(front, [x] + rest);
      assert front + ([x] + rest) == a + rest;
      WithoutPUnrolled(front, x, KeptP(rest));
      KeptPLooksTheSame(rest);
      KeptPCons(x, rest);
    }
  }

  /** Which P frames go when a group sheds them. */
  lemma WithoutPExactly(frames: seq<Frame>)
    ensures WithoutP(frames, |frames|).kept == KeptP(frames)
  {
    WithoutPFrom(frames, []);
    assert frames + KeptP([]) == frames && frames + [] == frames;
  }

  /** Neither a B frame nor, unless it is a keyframe, a P frame. */
  predicate Stays(f: Frame) { !IsB(f) && (IsP(f) ==> IsKeyframe(f)) }

  /** Without B frames those are the P frames that are no keyframes. */
  lemma {:induction false} KeptPWithoutB(frames: seq<Frame>)
    ensures KeptP(Filter(NotB, frames)) == Filter(Stays, frames)
    decreases |frames|
  {
    if frames != [] {
      var f, others := frames[0], Filter(NotB, frames[1..]);
      KeptPWithoutB(frames[1..]);
      FilterOnly(NotB, frames[1..]);
      NoBAhead(others, 0);
      if NotB(f) {
        assert ([f] + others)[1..] == others;
      } else {
        assert [] + others == others;
      }
      assert [] + Filter(Stays, frames[1..]) == Filter(Stays, frames[1..]);
    }
  }

  /** What is left at each pressure, group by group, in terms of the groups as they were. */
  function Left(lists: seq<seq<Frame>>, pressure: real): (left: seq<seq<Frame>>) {
    if pressure < 0.5 then lists
    else if pressure < 0.7 then seq(|lists|, i requires 0 <= i < |lists| => if i < 2 then Filter(NotB, lists[i]) else lists[i])
    else if pressure < 0.85 then seq(|lists|, i requires 0 <= i < |lists| => if i == 0 then Filter(Stays, lists[i]) else Filter(NotB, lists[i]))
    else if |lists| > 1 then if pressure < 0.95 then [Filter(IsKeyframe, lists[0])] + lists[1..] else lists[1..]
    else if pressure < 0.95 then lists
    else seq(|lists|, i requires 0 <= i < |lists| => Filter(IsKeyframe, lists[i]))
  }

  /** Shedding leaves exactly that. */
  lemma SheddingExactly(lists: seq<seq<Frame>>, pressure: real)
    ensures ShedFor(lists, pressure).lists == Left(lists, pressure)
  {
    var left, o := Left(lists, pressure), ShedFor(lists, pressure);
    if 0.5 <= pressure < 0.7 {
      forall i | 0 <= i < |lists| ensures o.lists[i] == left[i] {
        LowPressure(lists, pressure, i);
      }
    } else if 0.7 <= pressure < 0.85 {
      forall i | 0 <= i < |lists| ensures o.lists[i] == left[i] {
        MediumExactly(lists, pressure, i);
      }
    } else if pressure >= 0.85 && |lists| > 1 {
      OldestExactly(lists);
    } else if pressure >= 0.95 {
      forall i | 0 <= i < |lists| ensures o.lists[i] == left[i] {
        EachIs(OnlyKey, lists, -1, i);
      }
    }
  }

  lemma MediumExactly(lists: seq<seq<Frame>>, pressure: real, i: nat)
    requires i < |lists| && 0.7 <= pressure < 0.85
    ensures ShedFor(lists, pressure).lists[i] == if i == 0 then Filter(Stays, lists[i]) else Filter(NotB, lists[i])
  {
    var b := Each(WithoutB, lists, -1).lists;
    EachIs(WithoutB, lists, -1, i);
    EachIs(WithoutAnyP, b, 1, i);
    if i == 0 {
      WithoutPExactly(b[0]);
      KeptPWithoutB(lists[0]);
    }
  }

  lemma OldestExactly(lists: seq<seq<Frame>>)
    requires |lists| > 1
    ensures DropOld(lists, 1, false) == Outcome([Filter(IsKeyframe, lists[0])] + lists[1..], Filter(NotKey, lists[0]))
    ensures DropOld(lists, 1, true) == Outcome(lists[1..], lists[0])
  {
    var once := [Filter(IsKeyframe, lists[0])] + lists[1..];
    assert DropOld(once, 0, false) == Outcome(once, []);
    assert Filter(NotKey, lists[0]) + [] == Filter(NotKey, lists[0]);
    DropFirst(lists);
  }
}
