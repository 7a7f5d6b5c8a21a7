/** The bytes of buffered groups: the sizes recorded, the sizes of the frames, and how shedding moves the one against the other. */
module GopBytes {
  import opened Sequences
  import opened VideoFrames
  import opened GopShedding

  /** By how much the recorded size of each group is above the sizes of its frames. */
  function Excess(lists: seq<seq<Frame>>, sizes: seq<int>): (excess: seq<int>)
    requires |lists| == |sizes|
    ensures |excess| == |lists|
  {
    seq(|lists|, i requires 0 <= i < |lists| => sizes[i] - BytesIn(lists[i]))
  }

  function Zeros(n: nat): (z: seq<int>)
    ensures |z| == n && forall i :: 0 <= i < n ==> z[i] == 0
  {
    seq(n, _ => 0)
  }

  lemma SumSnoc(sizes: seq<int>, size: int)
    ensures Sum(Identity(), sizes + [size]) == Sum(Identity(), sizes) + size
  {
    SumAppend(Identity(), sizes, [size]);
    assert Sum(Identity(), [size]) == Identity()(size) + Sum(Identity(), []);
  }

  lemma SumFirst(sizes: seq<int>)
    requires sizes != []
    ensures Sum(Identity(), sizes) == sizes[0] + Sum(Identity(), sizes[1..])
  {
  }

  /** A frame taken out of a group, and its size off the recorded one. */
  lemma ExcessRemoval(lists: seq<seq<Frame>>, sizes: seq<int>, g: nat, p: nat)
    requires |lists| == |sizes| && g < |lists| && p < |lists[g]|
    ensures Excess(lists[g := RemoveAt(lists[g], p)], sizes[g := sizes[g] - lists[g][p].size]) == Excess(lists, sizes)
  {
    BytesRemoval(lists[g], p);
  }

  /** And what that does to the sum of the recorded sizes. */
  lemma FrameAccount(lists: seq<seq<Frame>>, sizes: seq<int>, g: nat, p: nat)
    requires |lists| == |sizes| && g < |lists| && p < |lists[g]|
    ensures Excess(lists[g := RemoveAt(lists[g], p)], sizes[g := sizes[g] - lists[g][p].size]) == Excess(lists, sizes)
    ensures Sum(Identity(), sizes[g := sizes[g] - lists[g][p].size]) == Sum(Identity(), sizes) - lists[g][p].size
  {
    ExcessRemoval(lists, sizes, g, p);
    SumUpdate(Identity(), sizes, g, sizes[g] - lists[g][p].size);
  }

  lemma {:induction false} BytesRemoval(frames: seq<Frame>, i: nat)
    requires i < |frames|
    ensures BytesIn(RemoveAt(frames, i)) == BytesIn(frames) - frames[i].size
    decreases i
  {
    if i == 0 {
      assert RemoveAt(frames, 0) == frames[1..];
    } else {
      BytesRemoval(frames[1..], i - 1);
      assert RemoveAt(frames, i)[1..] == RemoveAt(frames[1..], i - 1);
    }
  }

  // The excess of each group after an operation, and what the operation leaves between bytes counted and sizes recorded.

  /** After the oldest groups have left, or have been reduced to their keyframes and had their size recorded anew. */
  function ExcessLeft(excess: seq<int>, count: nat, includeKeyframes: bool): seq<int>
    decreases count
  {
    if count == 0 || |excess| <= 1 then excess
    else if includeKeyframes then ExcessLeft(excess[1..], count - 1, true)
    else excess[0 := 0]
  }

  function DriftLeft(excess: seq<int>, count: nat, includeKeyframes: bool): int {
    if !includeKeyframes && count > 0 && |excess| > 1 then excess[0] else 0
  }

  /** One group less to go. */
  lemma ExcessTurn(excess: seq<int>, count: nat, includeKeyframes: bool)
    requires count > 0 && |excess| > 1
    ensures var next := if includeKeyframes then excess[1..] else excess[0 := 0];
            && ExcessLeft(excess, count, includeKeyframes) == ExcessLeft(next, count - 1, includeKeyframes)
            && DriftLeft(excess, count, includeKeyframes) ==
               (if includeKeyframes then 0 else excess[0]) + DriftLeft(next, count - 1, includeKeyframes)
  {
    if !includeKeyframes {
      assert excess[0 := 0][0 := 0] == excess[0 := 0];
    }
  }

  /** Where dropping old groups leads: the groups, what each is off by, the drift, and the frames dropped. */
  datatype Goal = Goal(outcome: Outcome, excess: seq<int>, drift: int)

  function OldGoal(lists: seq<seq<Frame>>, excess: seq<int>, drift: int, dropped: seq<Frame>, count: nat, includeKeyframes: bool): Goal {
    Goal(Then(dropped, DropOld(lists, count, includeKeyframes)), ExcessLeft(excess, count, includeKeyframes),
         drift + DriftLeft(excess, count, includeKeyframes))
  }

  lemma OldGoalStarts(lists: seq<seq<Frame>>, excess: seq<int>, drift: int, count: nat, includeKeyframes: bool)
    ensures OldGoal(lists, excess, drift, [], count, includeKeyframes) ==
            Goal(DropOld(lists, count, includeKeyframes), ExcessLeft(excess, count, includeKeyframes),
                 drift + DriftLeft(excess, count, includeKeyframes))
  {
    var o := DropOld(lists, count, includeKeyframes);
    assert [] + o.dropped == o.dropped;
  }

  lemma OldGoalEnds(lists: seq<seq<Frame>>, excess: seq<int>, drift: int, dropped: seq<Frame>, count: nat, includeKeyframes: bool)
    requires |lists| == |excess| && (count == 0 || |lists| <= 1)
    ensures OldGoal(lists, excess, drift, dropped, count, includeKeyframes) == Goal(Outcome(lists, dropped), excess, drift)
  {
    assert dropped + [] == dropped;
  }

  /** A turn leads to the same. */
  lemma OldGoalTurn(lists: seq<seq<Frame>>, excess: seq<int>, drift: int, dropped: seq<Frame>, count: nat, includeKeyframes: bool)
    requires |lists| == |excess| > 1 && count > 0
    ensures var o := OldestOut(lists, includeKeyframes);
            OldGoal(lists, excess, drift, dropped, count, includeKeyframes) ==
            OldGoal(o.lists, if includeKeyframes then excess[1..] else excess[0 := 0],
                    drift + (if includeKeyframes then 0 else excess[0]), dropped + o.dropped, count - 1, includeKeyframes)
  {
    DropOldTurn(lists, count, includeKeyframes, dropped);
    ExcessTurn(excess, count, includeKeyframes);
  }

  /** After shedding for a pressure. */
  function ExcessAfter(excess: seq<int>, pressure: real): seq<int> {
    if pressure < 0.85 || (pressure < 0.95 && |excess| <= 1) then excess
    else if pressure < 0.95 then excess[0 := 0]
    else if |excess| > 1 then excess[1..]
    else Zeros(|excess|)
  }

  /** What is off in the groups whose size is recorded anew at a pressure. */
  function Rerecorded(excess: seq<int>, pressure: real): int {
    if 0.85 <= pressure < 0.95 && |excess| > 1 then excess[0]
    else if pressure >= 0.95 && |excess| <= 1 then Sum(Identity(), excess)
    else 0
  }

  /** What is off in the group that leaves whole. */
  function GoneWith(excess: seq<int>, pressure: real): int {
    if pressure >= 0.95 && |excess| > 1 then excess[0] else 0
  }

  // Whether the bytes counted are those of the frames.

  /** The bytes counted are above those of the frames by the excess of all groups and the drift. */
  lemma {:induction false} BytesApart(lists: seq<seq<Frame>>, sizes: seq<int>)
    requires |lists| == |sizes|
    ensures Sum(Identity(), sizes) == BytesIn(Flatten(lists)) + Sum(Identity(), Excess(lists, sizes))
    decreases |lists|
  {
    if lists != [] {
      BytesApart(lists[1..], sizes[1..]);
      assert Excess(lists, sizes)[1..] == Excess(lists[1..], sizes[1..]);
      BytesAppend(lists[0], Flatten(lists[1..]));
    }
  }

  function SizeOf(): Frame -> int { (f: Frame) => f.size }

  lemma {:induction false} BytesAsSum(frames: seq<Frame>)
    ensures BytesIn(frames) == Sum(SizeOf(), frames)
    decreases |frames|
  {
    if frames != [] {
      BytesAsSum(frames[1..]);
    }
  }

  /** No byte is lost where no frame is. */
  lemma BytesConserved(before: seq<Frame>, s: Shed)
    requires Conserves(before, s)
    ensures BytesIn(before) == BytesIn(s.kept) + BytesIn(s.dropped)
  {
    BytesAppend(s.kept, s.dropped);
    assert multiset(s.kept + s.dropped) == multiset(before);
    SumPermuted(SizeOf(), before, s.kept + s.dropped);
    BytesAsSum(before);
    BytesAsSum(s.kept + s.dropped);
  }

  /** What shedding takes off the count: the bytes of the frames dropped, and what is off in the group that leaves whole. */
  lemma CountMoves(lists: seq<seq<Frame>>, sizes: seq<int>, drift: int, pressure: real, listsAfter: seq<seq<Frame>>, sizesAfter: seq<int>,
                   driftAfter: int, dropped: seq<Frame>)
    requires |lists| == |sizes| && |listsAfter| == |sizesAfter|
    requires Conserves(Flatten(lists), Shed(Flatten(listsAfter), dropped))
    requires Excess(listsAfter, sizesAfter) == ExcessAfter(Excess(lists, sizes), pressure)
    requires driftAfter == drift + Rerecorded(Excess(lists, sizes), pressure)
    ensures Sum(Identity(), sizesAfter) + driftAfter ==
            Sum(Identity(), sizes) + drift - BytesIn(dropped) - GoneWith(Excess(lists, sizes), pressure)
  {
    BytesApart(lists, sizes);
    BytesApart(listsAfter, sizesAfter);
    BytesConserved(Flatten(lists), Shed(Flatten(listsAfter), dropped));
    ExcessMoves(Excess(lists, sizes), pressure);
  }

  lemma ExcessMoves(excess: seq<int>, pressure: real)
    ensures Sum(Identity(), ExcessAfter(excess, pressure)) + Rerecorded(excess, pressure) ==
            Sum(Identity(), excess) - GoneWith(excess, pressure)
  {
    if 0.85 <= pressure < 0.95 && |excess| > 1 {
      SumUpdate(Identity(), excess, 0, 0);
    } else if pressure >= 0.95 && |excess| > 1 {
      SumFirst(excess);
    } else if pressure >= 0.95 {
      SumZero(Identity(), Zeros(|excess|));
    }
  }

  /** With every group recorded exactly, nothing is off afterwards. */
  lemma ExactStays(n: nat, pressure: real)
    ensures var after := ExcessAfter(Zeros(n), pressure);
            after == Zeros(|after|) && Rerecorded(Zeros(n), pressure) == 0
  {
    SumZero(Identity(), Zeros(n));
  }

  // Sizes that shedding cannot make negative.

  function KeyBytes(frames: seq<Frame>): nat { BytesIn(Filter(IsKeyframe, frames)) }

  /** The group is recorded with no less than its frames, or, if no keyframe is of type B, than those that are not keyframes:
      as the detector records it. */
  ghost predicate Covers(frames: seq<Frame>, excess: int) {
    excess >= 0 || (excess + KeyBytes(frames) >= 0 && NoKeyIsB(frames))
  }

  ghost predicate AllCovered(lists: seq<seq<Frame>>, excess: seq<int>) {
    |lists| == |excess| && forall i :: 0 <= i < |lists| ==> Covers(lists[i], excess[i])
  }

  lemma {:induction false} KeyBytesAtMost(frames: seq<Frame>)
    ensures KeyBytes(frames) <= BytesIn(frames)
    decreases |frames|
  {
    if frames != [] {
      KeyBytesAtMost(frames[1..]);
      var keys := Filter(IsKeyframe, frames[1..]);
      if IsKeyframe(frames[0]) {
        assert ([frames[0]] + keys)[1..] == keys;
      } else {
        assert [] + keys == keys;
      }
    }
  }

  ghost predicate NoneNegative(sizes: seq<int>) { forall i :: 0 <= i < |sizes| ==> sizes[i] >= 0 }

  lemma CoveredIsNotNegative(lists: seq<seq<Frame>>, sizes: seq<int>)
    requires |lists| == |sizes| && AllCovered(lists, Excess(lists, sizes))
    ensures NoneNegative(sizes)
  {
    forall i | 0 <= i < |sizes| ensures sizes[i] >= 0 {
      assert Covers(lists[i], Excess(lists, sizes)[i]);
      KeyBytesAtMost(lists[i]);
    }
  }

  /** Of covered groups, the bytes counted never rise. */
  lemma CountFalls(lists: seq<seq<Frame>>, sizes: seq<int>, pressure: real)
    requires |lists| == |sizes| && AllCovered(lists, Excess(lists, sizes))
    ensures BytesIn(ShedFor(lists, pressure).dropped) + GoneWith(Excess(lists, sizes), pressure) >= 0
  {
    CoveredIsNotNegative(lists, sizes);
    if pressure >= 0.95 && |lists| > 1 {
      DropFirst(lists);
    }
  }

  /** One group's shedding at an excess that stays. */
  lemma CoversStill(frames: seq<Frame>, s: Shed, excess: int)
    requires Covers(frames, excess) && Conserves(frames, s) && (NoKeyIsB(frames) ==> NoKey(s.dropped))
    ensures Covers(s.kept, excess)
  {
    if NoKeyIsB(frames) {
      KeepsExactly(frames, s);
      forall f | f in s.kept && IsKeyframe(f) ensures !IsB(f) {
        assert f in multiset(s.kept) && f in multiset(frames);
      }
    }
  }

  lemma EachCovers(shed: seq<Frame> -> Shed, lists: seq<seq<Frame>>, excess: seq<int>, count: int)
    requires AllCovered(lists, excess)
    requires forall i :: 0 <= i < |lists| ==>
               Conserves(lists[i], shed(lists[i])) && (NoKeyIsB(lists[i]) ==> NoKey(shed(lists[i]).dropped))
    ensures AllCovered(Each(shed, lists, count).lists, excess)
  {
    var after := Each(shed, lists, count).lists;
    forall i | 0 <= i < |after| ensures Covers(after[i], excess[i]) {
      EachIs(shed, lists, count, i);
      CoversStill(lists[i], shed(lists[i]), excess[i]);
    }
  }

  lemma WithoutBCovers(lists: seq<seq<Frame>>, excess: seq<int>, count: int)
    requires AllCovered(lists, excess)
    ensures AllCovered(Each(WithoutB, lists, count).lists, excess)
  {
    forall i | 0 <= i < |lists|
      ensures Conserves(lists[i], WithoutB(lists[i])) && (NoKeyIsB(lists[i]) ==> NoKey(WithoutB(lists[i]).dropped))
    {
      WithoutBKeeps(lists[i]);
    }
    EachCovers(WithoutB, lists, excess, count);
  }

  lemma WithoutPCovers(lists: seq<seq<Frame>>, excess: seq<int>, count: int)
    requires AllCovered(lists, excess)
    ensures AllCovered(Each(WithoutAnyP, lists, count).lists, excess)
  {
    forall i | 0 <= i < |lists|
      ensures Conserves(lists[i], WithoutAnyP(lists[i])) && (NoKeyIsB(lists[i]) ==> NoKey(WithoutAnyP(lists[i]).dropped))
    {
      WithoutPConserves(lists[i], |lists[i]|);
    }
    EachCovers(WithoutAnyP, lists, excess, count);
  }

  /** Shedding at any pressure leaves covered groups covered. */
  lemma SheddingCovers(lists: seq<seq<Frame>>, excess: seq<int>, pressure: real)
    requires AllCovered(lists, excess)
    ensures AllCovered(ShedFor(lists, pressure).lists, ExcessAfter(excess, pressure))
  {
    if pressure < 0.5 {
    } else if pressure < 0.7 {
      WithoutBCovers(lists, excess, 2);
    } else if pressure < 0.85 {
      WithoutBCovers(lists, excess, -1);
      WithoutPCovers(Each(WithoutB, lists, -1).lists, excess, 1);
    } else if pressure < 0.95 {
      OldestCovers(lists, excess);
    } else if |lists| > 1 {
      DropFirst(lists);
    }
  }

  lemma OldestCovers(lists: seq<seq<Frame>>, excess: seq<int>)
    requires AllCovered(lists, excess)
    ensures AllCovered(DropOld(lists, 1, false).lists, if |lists| > 1 then excess[0 := 0] else excess)
  {
    if |lists| > 1 {
      var once := [OnlyKey(lists[0]).kept] + lists[1..];
      assert DropOld(lists, 1, false).lists == DropOld(once, 0, false).lists == once;
    }
  }

  // A group that loses its tail.

  lemma TailConserves(lists: seq<seq<Frame>>, g: nat, n: nat)
    requires g < |lists| && n <= |lists[g]|
    ensures Conserves(Flatten(lists), Shed(Flatten(lists[g := lists[g][..n]]), lists[g][n..]))
  {
    var before, kept, dropped, after := Flatten(lists[..g]), lists[g][..n], lists[g][n..], Flatten(lists[g + 1..]);
    assert lists == lists[..g] + ([lists[g]] + lists[g + 1..]) && lists[g] == kept + dropped;
    assert lists[g := kept] == lists[..g] + ([kept] + lists[g + 1..]);
    FlattenAppend(lists[..g], [lists[g]] + lists[g + 1..]);
    FlattenAppend(lists[..g], [kept] + lists[g + 1..]);
    assert ([lists[g]] + lists[g + 1..])[1..] == lists[g + 1..] && ([kept] + lists[g + 1..])[1..] == lists[g + 1..];
    MiddleGone(before, kept, dropped, after);
  }

  lemma MiddleGone(before: seq<Frame>, kept: seq<Frame>, dropped: seq<Frame>, after: seq<Frame>)
    ensures Conserves(before + ((kept + dropped) + after), Shed(before + (kept + after), dropped))
  {
    WithinSelf(before);
    WithinSelf(kept);
    WithinSelf(after);
    WithinMore(after, dropped, after);
    WithinAppend(kept, kept, after, dropped + after);
    Associative(kept, dropped, after);
    WithinAppend(before, before, kept + after, (kept + dropped) + after);
  }

  lemma TailCovers(lists: seq<seq<Frame>>, sizes: seq<int>, g: nat, n: nat, sizesAfter: seq<int>)
    requires |lists| == |sizes| == |sizesAfter| && g < |lists| && n <= |lists[g]|
    requires Excess(lists[g := lists[g][..n]], sizesAfter) == Excess(lists, sizes)[g := 0]
    ensures AllCovered(lists, Excess(lists, sizes)) ==> AllCovered(lists[g := lists[g][..n]], Excess(lists, sizes)[g := 0]) && NoneNegative(sizesAfter)
  {
    if AllCovered(lists, Excess(lists, sizes)) {
      CoveredIsNotNegative(lists[g := lists[g][..n]], sizesAfter);
    }
  }
}
