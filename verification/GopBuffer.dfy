/** The buffer of groups of pictures. */
module GopBuffers {
  import opened Sequences
  import opened VideoFrames
  import opened GopShedding
  import opened GopLimits
  import opened GopIndex
  import opened GopBytes

  /** What the limits see. */
  function Items(gops: seq<Gop>, sizes: seq<int>): (items: seq<Item>)
    requires |gops| == |sizes|
    ensures |items| == |gops|
  {
    seq(|gops|, i requires 0 <= i < |gops| => Item(gops[i].startTime, sizes[i]))
  }

  /** A sound group with these frames and this recorded size, no newer than the newest time. */
  ghost predicate Holds(gop: Gop, frames: seq<Frame>, size: int, newest: nat)
    reads gop
  {
    gop.Sound() && gop.frames == frames && gop.totalSize == size && gop.startTime <= newest
  }

  ghost predicate HoldAll(gops: seq<Gop>, lists: seq<seq<Frame>>, sizes: seq<int>, newest: nat)
    reads gops
  {
    && |gops| == |lists| == |sizes|
    && forall i {:trigger Holds(gops[i], lists[i], sizes[i], newest)} :: 0 <= i < |gops| ==> Holds(gops[i], lists[i], sizes[i], newest)
  }

  lemma HoldTail(gops: seq<Gop>, lists: seq<seq<Frame>>, sizes: seq<int>, newest: nat)
    requires HoldAll(gops, lists, sizes, newest) && gops != []
    ensures HoldAll(gops[1..], lists[1..], sizes[1..], newest)
  {
    forall i | 0 <= i < |gops| - 1 ensures Holds(gops[1..][i], lists[1..][i], sizes[1..][i], newest) {
      assert Holds(gops[i + 1], lists[i + 1], sizes[i + 1], newest);
    }
  }

  lemma HoldMore(gops: seq<Gop>, lists: seq<seq<Frame>>, sizes: seq<int>, newest: nat, g: Gop)
    requires HoldAll(gops, lists, sizes, newest) && g.Sound()
    ensures HoldAll(gops + [g], lists + [g.frames], sizes + [g.totalSize], Later(g.startTime, newest))
  {
    var all, allLists, allSizes := gops + [g], lists + [g.frames], sizes + [g.totalSize];
    forall i | 0 <= i < |all| ensures Holds(all[i], allLists[i], allSizes[i], Later(g.startTime, newest)) {
      if i < |gops| {
        assert Holds(gops[i], lists[i], sizes[i], newest);
      }
    }
  }

  class Buffer {
    const limits: Limits
    var gops: seq<Gop>
    var gopIndex: map<nat, Gop>
    var frameIndex: map<nat, Location>
    var currentBytes: int
    var oldestTime: nat
    var newestTime: nat

    /** The frames of the groups, the oldest group first, and the sizes recorded in them. */
    ghost var lists: seq<seq<Frame>>
    ghost var sizes: seq<int>

    /** What re-recording the size of a group has left between the bytes counted and the sizes recorded. */
    ghost var drift: int

    /** The groups are sound, are not newer than the newest time, and hold the frames of `lists` and the sizes of `sizes`. */
    ghost predicate Holding()
      reads this`gops, this`lists, this`sizes, this`newestTime, gops
    {
      HoldAll(gops, lists, sizes, newestTime)
    }

    ghost predicate Valid()
      reads this, gops
    {
      && Distinct(gops) && GopsIndexed(gops, gopIndex)
      && Holding()
      && Indexed(gops, lists, frameIndex)
      && currentBytes == Sum(Identity(), sizes) + drift
    }

    constructor (limits: Limits)
      ensures Valid() && gops == [] && newestTime == 0 && this.limits == limits && Exact() && Covered() && Ordered()
    {
      this.limits := limits;
      gops, gopIndex, frameIndex, lists, sizes, drift := [], map[], map[], [], [], 0;
      currentBytes, oldestTime, newestTime := 0, 0, 0;
    }

    /** Writes the positions of the frames behind a removed one. */
    method UpdateFrameIndicesAfterRemoval(frames: seq<Frame>, removedIndex: nat)
      requires removedIndex <= |frames|
      requires IdsDiffer(frames)
      modifies this`frameIndex
      ensures Renumbered(old(frameIndex), frames, removedIndex, |frames|, frameIndex)
    {
      var i := removedIndex;
      while i < |frames|
        invariant removedIndex <= i <= |frames|
        invariant Renumbered(old(frameIndex), frames, removedIndex, i, frameIndex)
      {
        var frame := frames[i];
        RenumberedStep(old(frameIndex), frames, removedIndex, i, frameIndex);
        WritePosition(frame.id, i);
        i := i + 1;
      }
    }

    method WritePosition(id: nat, position: nat)
      modifies this`frameIndex
      ensures frameIndex == Moved(old(frameIndex), id, position)
    {
      if id in frameIndex {
        frameIndex := frameIndex[id := frameIndex[id].(position := position)];
      }
    }

    /** Takes one frame out of the index; `frames` are those of its group. */
    method UnindexFrame(g: nat, frames: seq<Frame>, p: nat)
      requires Distinct(gops) && Indexed(gops, lists, frameIndex)
      requires g < |lists| && frames == lists[g] && p < |frames|
      modifies this`frameIndex
      ensures Indexed(gops, lists[g := RemoveAt(frames, p)], frameIndex)
    {
      ghost var index := frameIndex;
      frameIndex := frameIndex - {frames[p].id};
      OwnIdsDiffer(gops, lists, index, g);
      RemovalDiffers(frames, p);
      UpdateFrameIndicesAfterRemoval(RemoveAt(frames, p), p);
      IndexRemoved(gops, lists, index, g, p, frameIndex);
    }

    /** Takes one P or B frame out of a group, the index and the counts. */
    method RemoveFrameAt(g: nat, p: nat)
      requires Valid() && g < |gops| && p < |lists[g]|
      requires IsB(lists[g][p]) || (IsP(lists[g][p]) && !IsKeyframe(lists[g][p]))
      modifies this`frameIndex, this`currentBytes, this`lists, this`sizes, gops[g]
      ensures Valid() && lists == old(lists)[g := RemoveAt(old(lists)[g], p)]
      ensures Excess(lists, sizes) == old(Excess(lists, sizes))
    {
      assert Holds(gops[g], lists[g], sizes[g], newestTime);
      var frames := gops[g].frames;
      ghost var listsAfter, sizesAfter := lists[g := RemoveAt(frames, p)], sizes[g := sizes[g] - frames[p].size];
      FrameAccount(lists, sizes, g, p);
      UnindexFrame(g, frames, p);
      TakeOutOf(g, p);
      assert lists == listsAfter && sizes == sizesAfter;
      assert Indexed(gops, lists, frameIndex);
    }

    method TakeOutOf(g: nat, p: nat)
      requires Distinct(gops) && Holding() && g < |gops| && p < |lists[g]|
      requires IsB(lists[g][p]) || (IsP(lists[g][p]) && !IsKeyframe(lists[g][p]))
      modifies this`lists, this`sizes, this`currentBytes, gops[g]
      ensures Holding() && lists == old(lists)[g := RemoveAt(old(lists)[g], p)]
      ensures sizes == old(sizes)[g := old(sizes)[g] - old(lists)[g][p].size] && currentBytes == old(currentBytes) - old(lists)[g][p].size
    {
      assert Holds(gops[g], lists[g], sizes[g], newestTime);
      var gop := gops[g];
      OpenDistinct(gops);
      currentBytes := currentBytes - gop.frames[p].size;
      gop.TakeOut(p);
      lists, sizes := lists[g := gop.frames], sizes[g := gop.totalSize];
      forall i | 0 <= i < |gops| ensures Holds(gops[i], lists[i], sizes[i], newestTime) {
        if i != g {
          assert old(Holds(gops[i], lists[i], sizes[i], newestTime));
        }
      }
    }

    // Dropping the B frames or the P frames of one group.

    method DropBFramesOf(g: nat) returns (dropped: seq<Frame>)
      requires Valid() && g < |gops|
      modifies this`frameIndex, this`currentBytes, this`lists, this`sizes, gops[g]
      ensures Valid() && lists == old(lists)[g := WithoutB(old(lists)[g]).kept]
      ensures dropped == WithoutB(old(lists)[g]).dropped && Excess(lists, sizes) == old(Excess(lists, sizes))
    {
      assert Holds(gops[g], lists[g], sizes[g], newestTime);
      var frames := gops[g].frames;
      ghost var all, excess := lists, Excess(lists, sizes);
      ghost var n: nat := |frames|;
      var bFramesToDrop := CollectB(frames);
      dropped := [];
      var i: nat := |bFramesToDrop|;
      RemovingStarts(frames);
      assert bFramesToDrop[..i] == bFramesToDrop;
      while i > 0
        invariant i <= |bFramesToDrop| && Valid() && lists == all[g := lists[g]] && Excess(lists, sizes) == excess
        invariant Removing(frames, n, bFramesToDrop[..i], Shed(lists[g], dropped))
      {
        ghost var p := RemovingTurn(frames, n, bFramesToDrop[..i], Shed(lists[g], dropped));
        i := i - 1;
        assert bFramesToDrop[..i] == bFramesToDrop[..i + 1][..i];
        var frame := DropBFrameAt(g, bFramesToDrop[i]);
        dropped := dropped + [frame];
        n := p;
      }
      RemovingEnds(frames, n, Shed(lists[g], dropped));
    }

    /** One turn of that loop. */
    method DropBFrameAt(g: nat, frameIdx: nat) returns (frame: Frame)
      requires Valid() && g < |gops| && frameIdx < |lists[g]| && IsB(lists[g][frameIdx])
      modifies this`frameIndex, this`currentBytes, this`lists, this`sizes, gops[g]
      ensures Valid() && frame == old(lists)[g][frameIdx]
      ensures lists == old(lists)[g := RemoveAt(old(lists)[g], frameIdx)] && Excess(lists, sizes) == old(Excess(lists, sizes))
    {
      assert Holds(gops[g], lists[g], sizes[g], newestTime);
      frame := gops[g].frames[frameIdx];
      RemoveFrameAt(g, frameIdx);
    }

    method DropPFramesOf(g: nat) returns (dropped: seq<Frame>)
      requires Valid() && g < |gops|
      modifies this`frameIndex, this`currentBytes, this`lists, this`sizes, gops[g]
      ensures Valid() && lists == old(lists)[g := WithoutP(old(lists)[g], |old(lists)[g]|).kept]
      ensures dropped == WithoutP(old(lists)[g], |old(lists)[g]|).dropped && Excess(lists, sizes) == old(Excess(lists, sizes))
    {
      assert Holds(gops[g], lists[g], sizes[g], newestTime);
      ghost var all, excess, total := lists, Excess(lists, sizes), WithoutP(lists[g], |lists[g]|);
      dropped := [];
      var i: nat := |gops[g].frames|;
      while i > 0
        invariant Valid() && lists == all[g := lists[g]] && i <= |lists[g]| && Excess(lists, sizes) == excess
        invariant total.kept == WithoutP(lists[g], i).kept && total.dropped == dropped + WithoutP(lists[g], i).dropped
      {
        i := i - 1;
        var gone := DropPFrameAt(g, i);
        Associative(dropped, gone, WithoutP(lists[g], i).dropped);
        dropped := dropped + gone;
      }
    }

    /** One turn of that loop: the frame, if it may go. */
    method DropPFrameAt(g: nat, i: nat) returns (gone: seq<Frame>)
      requires Valid() && g < |gops| && i < |lists[g]|
      modifies this`frameIndex, this`currentBytes, this`lists, this`sizes, gops[g]
      ensures Valid() && lists == old(lists)[g := lists[g]] && i <= |lists[g]| && Excess(lists, sizes) == old(Excess(lists, sizes))
      ensures WithoutP(old(lists)[g], i + 1).kept == WithoutP(lists[g], i).kept
      ensures WithoutP(old(lists)[g], i + 1).dropped == gone + WithoutP(lists[g], i).dropped
    {
      assert Holds(gops[g], lists[g], sizes[g], newestTime);
      var canDrop := gops[g].CanDropFrame(i);
      if canDrop && gops[g].frames[i].kind == P {
        gone := [gops[g].frames[i]];
        RemoveFrameAt(g, i);
      } else {
        gone := [];
      }
    }

    /** Takes frames out of the index. */
    method Unindex(frames: seq<Frame>)
      modifies this`frameIndex
      ensures frameIndex == old(frameIndex) - Ids(frames)
    {
      assert frames[..0] == [];
      for i := 0 to |frames|
        invariant frameIndex == old(frameIndex) - Ids(frames[..i])
      {
        assert frames[..i + 1] == frames[..i] + [frames[i]];
        IdsSnoc(frames[..i], frames[i]);
        frameIndex := frameIndex - {frames[i].id};
      }
      assert frames[..|frames|] == frames;
    }

    /** Writes the positions of frames that have not moved. */
    method Reindex(gop: Gop, frames: seq<Frame>)
      requires forall i :: 0 <= i < |frames| ==> frames[i].id in frameIndex && frameIndex[frames[i].id] == Location(gop, i)
      modifies this`frameIndex
      ensures frameIndex == old(frameIndex)
    {
      for i := 0 to |frames|
        invariant frameIndex == old(frameIndex)
      {
        frameIndex := frameIndex[frames[i].id := Location(gop, i)];
      }
    }

    // Dropping all but the keyframe.

    method SplitKeys(frames: seq<Frame>) returns (newFrames: seq<Frame>, dropped: seq<Frame>)
      modifies this`frameIndex, this`currentBytes
      ensures Shed(newFrames, dropped) == OnlyKey(frames)
      ensures frameIndex == old(frameIndex) - Ids(dropped) && currentBytes == old(currentBytes) - BytesIn(dropped)
    {
      newFrames, dropped := [], [];
      assert frames[..0] == [];
      for i := 0 to |frames|
        invariant Shed(newFrames, dropped) == OnlyKey(frames[..i])
        invariant frameIndex == old(frameIndex) - Ids(dropped) && currentBytes == old(currentBytes) - BytesIn(dropped)
      {
        var frame := frames[i];
        assert frames[..i + 1] == frames[..i] + [frame];
        OnlyKeySnoc(frames[..i], frame);
        if IsKeyframe(frame) {
          newFrames := newFrames + [frame];
        } else {
          IdsSnoc(dropped, frame);
          BytesSnoc(dropped, frame);
          dropped := dropped + [frame];
          frameIndex := frameIndex - {frame.id};
          currentBytes := currentBytes - frame.size;
        }
      }
      assert frames[..|frames|] == frames;
    }

    /** The size of the group is recorded anew: what it was off by passes into the drift. */
    method DropAllButKeyOf(g: nat) returns (dropped: seq<Frame>)
      requires Valid() && g < |gops|
      modifies this`frameIndex, this`currentBytes, this`lists, this`sizes, this`drift, gops[g]
      ensures Valid() && lists == old(lists)[g := OnlyKey(old(lists)[g]).kept]
      ensures dropped == OnlyKey(old(lists)[g]).dropped
      ensures drift == old(drift) + old(Excess(lists, sizes))[g] && Excess(lists, sizes) == old(Excess(lists, sizes))[g := 0]
    {
      assert Holds(gops[g], lists[g], sizes[g], newestTime);
      var newFrames;
      newFrames, dropped := UnindexAllButKey(g, gops[g].frames);
      OnlyKeyIsFirst(lists[g]);
      OpenDistinct(gops);
      gops[g].KeepOnly(newFrames);
      Rerecord(g, newFrames, dropped, gops[g].totalSize);
      forall i | 0 <= i < |gops| ensures Holds(gops[i], lists[i], sizes[i], newestTime) {
        if i != g {
          assert old(Holds(gops[i], lists[i], sizes[i], newestTime));
        }
      }
    }

    /** The bookkeeping of a size recorded anew, exactly, after the bytes of the dropped frames have been taken off. */
    ghost method Rerecord(g: nat, kept: seq<Frame>, dropped: seq<Frame>, size: int)
      requires |lists| == |sizes| && g < |lists| && size == BytesIn(kept) && BytesIn(lists[g]) == size + BytesIn(dropped)
      modifies this`lists, this`sizes, this`drift
      ensures lists == old(lists)[g := kept] && sizes == old(sizes)[g := size]
      ensures Sum(Identity(), sizes) + drift == old(Sum(Identity(), sizes) + drift) - BytesIn(dropped)
      ensures drift == old(drift) + old(Excess(lists, sizes))[g] && Excess(lists, sizes) == old(Excess(lists, sizes))[g := 0]
    {
      SumUpdate(Identity(), sizes, g, size);
      drift := drift + sizes[g] - BytesIn(lists[g]);
      lists, sizes := lists[g := kept], sizes[g := size];
    }

    /** The index and the bytes without the frames of a group that are no keyframes. */
    method UnindexAllButKey(g: nat, frames: seq<Frame>) returns (newFrames: seq<Frame>, dropped: seq<Frame>)
      requires Distinct(gops) && Indexed(gops, lists, frameIndex)
      requires g < |gops| && frames == lists[g] && KeyInFront(frames)
      modifies this`frameIndex, this`currentBytes
      ensures Shed(newFrames, dropped) == OnlyKey(frames) && BytesIn(frames) == BytesIn(newFrames) + BytesIn(dropped)
      ensures Indexed(gops, lists[g := newFrames], frameIndex) && currentBytes == old(currentBytes) - BytesIn(dropped)
    {
      ghost var n := KeyCount(frames);
      OnlyKeyIsFirst(frames);
      assert frames == frames[..n] + frames[n..];
      IndexTruncated(gops, lists, frameIndex, g, n);
      BytesAppend(frames[..n], frames[n..]);
      newFrames, dropped := SplitKeys(frames);
      assert newFrames == frames[..n] && dropped == frames[n..];
      forall i | 0 <= i < |newFrames|
        ensures newFrames[i].id in frameIndex && frameIndex[newFrames[i].id] == Location(gops[g], i)
      {
        assert FoundAt(gops, lists[g := newFrames], frameIndex, g, i);
      }
      Reindex(gops[g], newFrames);
    }

    // Dropping for several groups.

    method DropBFrames(gopCount: int) returns (dropped: seq<Frame>)
      requires Valid()
      modifies this`frameIndex, this`currentBytes, this`lists, this`sizes, gops
      ensures Valid() && Outcome(lists, dropped) == Each(WithoutB, old(lists), gopCount)
      ensures Excess(lists, sizes) == old(Excess(lists, sizes))
    {
      dropped := [];
      var count: nat := 0;
      DoingStarts(WithoutB, lists, gopCount);
      while count < |gops| && (gopCount < 0 || count < gopCount)
        invariant Valid() && count <= |gops| && (gopCount < 0 || count <= gopCount)
        invariant Doing(WithoutB, old(lists), gopCount, count, Outcome(lists, dropped))
        invariant Excess(lists, sizes) == old(Excess(lists, sizes))
      {
        DoingTurn(WithoutB, old(lists), gopCount, count, Outcome(lists, dropped));
        var bDropped := DropBFramesOf(count);
        dropped := dropped + bDropped;
        count := count + 1;
      }
      DoingEnds(WithoutB, old(lists), gopCount, count, Outcome(lists, dropped));
    }

    method DropPFrames(gopCount: nat) returns (dropped: seq<Frame>)
      requires Valid()
      modifies this`frameIndex, this`currentBytes, this`lists, this`sizes, gops
      ensures Valid() && Outcome(lists, dropped) == Each(WithoutAnyP, old(lists), gopCount)
      ensures Excess(lists, sizes) == old(Excess(lists, sizes))
    {
      dropped := [];
      var count: nat := 0;
      DoingStarts(WithoutAnyP, lists, gopCount);
      while count < |gops| && count < gopCount
        invariant Valid() && count <= |gops| && count <= gopCount
        invariant Doing(WithoutAnyP, old(lists), gopCount, count, Outcome(lists, dropped))
        invariant Excess(lists, sizes) == old(Excess(lists, sizes))
      {
        DoingTurn(WithoutAnyP, old(lists), gopCount, count, Outcome(lists, dropped));
        var pDropped := DropPFramesOf(count);
        dropped := dropped + pDropped;
        count := count + 1;
      }
      DoingEnds(WithoutAnyP, old(lists), gopCount, count, Outcome(lists, dropped));
    }

    method DropAllNonKeyframes() returns (dropped: seq<Frame>)
      requires Valid()
      modifies this`frameIndex, this`currentBytes, this`lists, this`sizes, this`drift, gops
      ensures Valid() && Outcome(lists, dropped) == Each(OnlyKey, old(lists), -1)
      ensures drift == old(drift) + Sum(Identity(), old(Excess(lists, sizes)))
      ensures Excess(lists, sizes) == Zeros(|gops|)
    {
      ghost var excess := Excess(lists, sizes);
      dropped := [];
      DoingStarts(OnlyKey, lists, -1);
      ZeroedStarts(excess);
      for g := 0 to |gops|
        invariant Valid() && Doing(OnlyKey, old(lists), -1, g, Outcome(lists, dropped))
        invariant Excess(lists, sizes) == Zeros(g) + excess[g..] && drift == old(drift) + Sum(Identity(), excess[..g])
      {
        DoingTurn(OnlyKey, old(lists), -1, g, Outcome(lists, dropped));
        ZeroedTurn(excess, g);
        var others := DropAllButKeyOf(g);
        dropped := dropped + others;
      }
      DoingEnds(OnlyKey, old(lists), -1, |gops|, Outcome(lists, dropped));
      ZeroedEnds(excess);
    }

    /** Nothing happens to an empty buffer. */
    method RemoveOldestGop()
      requires Valid()
      modifies this`gops, this`gopIndex, this`frameIndex, this`currentBytes, this`oldestTime, this`lists, this`sizes
      ensures Valid()
      ensures old(gops) == [] ==> gops == [] && lists == [] && sizes == []
      ensures old(gops) != [] ==> gops == old(gops)[1..] && lists == old(lists)[1..] && sizes == old(sizes)[1..]
      ensures old(gops) != [] ==> oldestTime == if gops == [] then 0 else gops[0].startTime
    {
      if |gops| == 0 {
        return;
      }
      assert Holds(gops[0], lists[0], sizes[0], newestTime);
      var gop := gops[0];
      UnindexOldest(gop, gop.frames);
      SumFirst(sizes);
      HoldTail(gops, lists, sizes, newestTime);
      currentBytes := currentBytes - gop.totalSize;
      gops := gops[1..];
      lists, sizes := lists[1..], sizes[1..];
      oldestTime := if |gops| > 0 then gops[0].startTime else 0;
    }

    /** Takes the oldest group out of both indexes. */
    method UnindexOldest(gop: Gop, frames: seq<Frame>)
      requires gops != [] && gops[0] == gop && Distinct(gops) && GopsIndexed(gops, gopIndex)
      requires Indexed(gops, lists, frameIndex) && frames == lists[0]
      modifies this`gopIndex, this`frameIndex
      ensures Distinct(gops[1..]) && GopsIndexed(gops[1..], gopIndex) && Indexed(gops[1..], lists[1..], frameIndex)
    {
      GopsFront(gops, gopIndex);
      IndexFront(gops, lists, frameIndex);
      gopIndex := gopIndex - {gop.id};
      Unindex(frames);
    }

    method DropOldGops(count: nat, includeKeyframes: bool) returns (dropped: seq<Frame>)
      requires Valid()
      modifies this`gops, this`gopIndex, this`frameIndex, this`currentBytes, this`oldestTime, this`lists, this`sizes, this`drift, gops
      ensures Valid() && Outcome(lists, dropped) == DropOld(old(lists), count, includeKeyframes)
      ensures Suffix(gops, old(gops))
      ensures Excess(lists, sizes) == ExcessLeft(old(Excess(lists, sizes)), count, includeKeyframes)
      ensures drift == old(drift) + DriftLeft(old(Excess(lists, sizes)), count, includeKeyframes)
    {
      ghost var goal := OldGoal(lists, Excess(lists, sizes), drift, [], count, includeKeyframes);
      OldGoalStarts(lists, Excess(lists, sizes), drift, count, includeKeyframes);
      ghost var left;
      dropped, left := DropToGoal(count, includeKeyframes, goal);
      OldGoalEnds(lists, Excess(lists, sizes), drift, dropped, left, includeKeyframes);
    }

    /** The loop itself. */
    method DropToGoal(count: nat, includeKeyframes: bool, ghost goal: Goal) returns (dropped: seq<Frame>, ghost left: nat)
      requires Valid() && Towards(goal, [], count, includeKeyframes)
      modifies this`gops, this`gopIndex, this`frameIndex, this`currentBytes, this`oldestTime, this`lists, this`sizes, this`drift, gops
      ensures Valid() && Suffix(gops, old(gops)) && Towards(goal, dropped, left, includeKeyframes) && (left == 0 || |gops| <= 1)
    {
      dropped := [];
      var i: nat := 0;
      while i < count && |gops| > 1
        invariant Valid() && i <= count && Suffix(gops, old(gops))
        invariant Towards(goal, dropped, count - i, includeKeyframes)
      {
        SuffixMember(gops, old(gops));
        SuffixNext(gops, old(gops));
        var others := DropAnother(goal, dropped, count - i, includeKeyframes);
        dropped := dropped + others;
        i := i + 1;
      }
      left := count - i;
    }

    /** With `n` groups still to go, the buffer is on its way to the goal. */
    ghost predicate Towards(goal: Goal, dropped: seq<Frame>, n: nat, includeKeyframes: bool)
      requires |lists| == |sizes|
      reads this`lists, this`sizes, this`drift
    {
      goal == OldGoal(lists, Excess(lists, sizes), drift, dropped, n, includeKeyframes)
    }

    /** One turn of that loop, on its way to the goal. */
    method DropAnother(ghost goal: Goal, ghost before: seq<Frame>, ghost n: nat, includeKeyframes: bool) returns (dropped: seq<Frame>)
      requires Valid() && |gops| > 1 && n > 0 && Towards(goal, before, n, includeKeyframes)
      modifies this`gops, this`gopIndex, this`frameIndex, this`currentBytes, this`oldestTime, this`lists, this`sizes, this`drift, gops[0]
      ensures Valid() && gops == if includeKeyframes then old(gops)[1..] else old(gops)
      ensures Towards(goal, before + dropped, n - 1, includeKeyframes)
    {
      OldGoalTurn(lists, Excess(lists, sizes), drift, before, n, includeKeyframes);
      dropped := DropOldest(includeKeyframes);
    }

    /** One turn of that loop. */
    method DropOldest(includeKeyframes: bool) returns (dropped: seq<Frame>)
      requires Valid() && |gops| > 1
      modifies this`gops, this`gopIndex, this`frameIndex, this`currentBytes, this`oldestTime, this`lists, this`sizes, this`drift, gops[0]
      ensures Valid() && Outcome(lists, dropped) == OldestOut(old(lists), includeKeyframes)
      ensures gops == if includeKeyframes then old(gops)[1..] else old(gops)
      ensures var excess := old(Excess(lists, sizes));
              Excess(lists, sizes) == (if includeKeyframes then excess[1..] else excess[0 := 0]) &&
              drift == old(drift) + if includeKeyframes then 0 else excess[0]
    {
      assert Holds(gops[0], lists[0], sizes[0], newestTime);
      if includeKeyframes {
        dropped := gops[0].frames;
        RemoveOldestGop();
      } else {
        dropped := DropAllButKeyOf(0);
        assert lists == [lists[0]] + old(lists)[1..];
      }
    }

    /** Each frame that was buffered is dropped or still there, in the old order; a buffer with a group keeps one; below 0.95 no
        group goes, and no keyframe exactly if none is of type B where B frames are dropped. The bytes counted fall by those of
        the dropped frames and by what is off in a group that leaves whole. */
    method DropFramesForPressure(pressure: real) returns (dropped: seq<Frame>)
      requires Valid()
      modifies this`gops, this`gopIndex, this`frameIndex, this`currentBytes, this`oldestTime, this`lists, this`sizes, this`drift, gops
      ensures Valid() && Outcome(lists, dropped) == ShedFor(old(lists), pressure) && Suffix(gops, old(gops))
      ensures lists == Left(old(lists), pressure) && Conserves(Flatten(old(lists)), Shed(Flatten(lists), dropped))
      ensures pressure < 0.95 ==> gops == old(gops) && (KeepsAll(old(lists), Outcome(lists, dropped)) <==> NoKeyGoes(old(lists), pressure))
      ensures old(gops) != [] ==> gops != []
      // The whole account of bytes.
      ensures Excess(lists, sizes) == ExcessAfter(old(Excess(lists, sizes)), pressure)
      ensures drift == old(drift) + Rerecorded(old(Excess(lists, sizes)), pressure)
      ensures currentBytes == old(currentBytes) - BytesIn(dropped) - GoneWith(old(Excess(lists, sizes)), pressure)
      ensures old(Exact()) ==> Exact() && currentBytes == BytesIn(Flatten(lists))
      // What `AddGop` asks for.
      ensures old(Covered()) ==> Covered() && (old(Ordered()) ==> Ordered()) && (old(Within()) ==> Within())
    {
      ghost var listsBefore := lists;
      dropped := ShedCovered(pressure);
      SheddingConserves(listsBefore, pressure);
      SheddingExactly(listsBefore, pressure);
    }

    /** The same with the bytes alone. */
    method ShedCovered(pressure: real) returns (dropped: seq<Frame>)
      requires Valid()
      modifies this`gops, this`gopIndex, this`frameIndex, this`currentBytes, this`oldestTime, this`lists, this`sizes, this`drift, gops
      ensures Valid() && Outcome(lists, dropped) == ShedFor(old(lists), pressure) && Suffix(gops, old(gops))
      ensures Excess(lists, sizes) == ExcessAfter(old(Excess(lists, sizes)), pressure)
      ensures drift == old(drift) + Rerecorded(old(Excess(lists, sizes)), pressure)
      ensures currentBytes == old(currentBytes) - BytesIn(dropped) - GoneWith(old(Excess(lists, sizes)), pressure)
      ensures old(Exact()) ==> Exact() && currentBytes == BytesIn(Flatten(lists))
      ensures old(Covered()) ==> Covered() && (old(Ordered()) ==> Ordered()) && (old(Within()) ==> Within())
    {
      ghost var gopsBefore, listsBefore, sizesBefore := gops, lists, sizes;
      dropped := ShedCounted(pressure);
      if old(Covered()) {
        StillCovered(gopsBefore, listsBefore, sizesBefore, gops, lists, sizes, pressure, newestTime);
        StartsLeft(gopsBefore, gops);
      }
    }

    /** The same with the count of bytes alone. */
    method ShedCounted(pressure: real) returns (dropped: seq<Frame>)
      requires Valid()
      modifies this`gops, this`gopIndex, this`frameIndex, this`currentBytes, this`oldestTime, this`lists, this`sizes, this`drift, gops
      ensures Valid() && Outcome(lists, dropped) == ShedFor(old(lists), pressure) && Suffix(gops, old(gops))
      ensures Excess(lists, sizes) == ExcessAfter(old(Excess(lists, sizes)), pressure)
      ensures drift == old(drift) + Rerecorded(old(Excess(lists, sizes)), pressure)
      ensures currentBytes == old(currentBytes) - BytesIn(dropped) - GoneWith(old(Excess(lists, sizes)), pressure)
      ensures old(Exact()) ==> Exact() && currentBytes == BytesIn(Flatten(lists))
    {
      ghost var listsBefore, sizesBefore, driftBefore := lists, sizes, drift;
      dropped := ShedFrames(pressure);
      SheddingConserves(listsBefore, pressure);
      CountMoves(listsBefore, sizesBefore, driftBefore, pressure, lists, sizes, drift, dropped);
      if old(Exact()) {
        ExactStays(|listsBefore|, pressure);
        BytesWhenExact();
      }
    }

    /** The buffer is within its limits; a single group may be of any size. */
    ghost predicate Within()
      reads this`gops, this`currentBytes, this`newestTime
    {
      && |gops| <= limits.maxGops
      && (currentBytes <= limits.maxBytes || |gops| <= 1)
      && (limits.maxDuration > 0 ==> forall i :: 0 <= i < |gops| ==> gops[i].startTime > newestTime - limits.maxDuration)
    }

    method ShedFrames(pressure: real) returns (dropped: seq<Frame>)
      requires Valid()
      modifies this`gops, this`gopIndex, this`frameIndex, this`currentBytes, this`oldestTime, this`lists, this`sizes, this`drift, gops
      ensures Valid() && Outcome(lists, dropped) == ShedFor(old(lists), pressure) && Suffix(gops, old(gops))
      ensures Excess(lists, sizes) == ExcessAfter(old(Excess(lists, sizes)), pressure)
      ensures drift == old(drift) + Rerecorded(old(Excess(lists, sizes)), pressure)
    {
      dropped := [];
      if pressure < 0.5 {
        return;
      }
      if pressure < 0.7 {
        dropped := DropBFrames(2);
      } else if pressure < 0.85 {
        dropped := DropAllBAndSomeP();
      } else if pressure < 0.95 {
        dropped := DropOldGops(1, false);
      } else if |gops| > 1 {
        dropped := DropOldGops(1, true);
        assert ExcessLeft(old(Excess(lists, sizes)), 1, true) == ExcessLeft(old(Excess(lists, sizes))[1..], 0, true);
      } else {
        dropped := DropAllNonKeyframes();
      }
    }

    method DropAllBAndSomeP() returns (dropped: seq<Frame>)
      requires Valid()
      modifies this`frameIndex, this`currentBytes, this`lists, this`sizes, gops
      ensures Valid()
      ensures var o := Each(WithoutB, old(lists), -1);
              var o2 := Each(WithoutAnyP, o.lists, 1);
              Outcome(lists, dropped) == Outcome(o2.lists, o.dropped + o2.dropped)
      ensures Excess(lists, sizes) == old(Excess(lists, sizes))
    {
      dropped := DropBFrames(-1);
      var pDropped := DropPFrames(1);
      dropped := dropped + pDropped;
    }

    /** The bytes counted are those of the frames, group by group. */
    ghost predicate Exact()
      requires |lists| == |sizes|
      reads this`lists, this`sizes, this`drift
    {
      drift == 0 && Excess(lists, sizes) == Zeros(|lists|)
    }

    /** Every group is recorded with enough for its frames. */
    ghost predicate Covered()
      requires |lists| == |sizes|
      reads this`lists, this`sizes
    {
      AllCovered(lists, Excess(lists, sizes))
    }

    /** How far the bytes counted are from those of the frames. */
    lemma BytesOff()
      requires Valid()
      ensures currentBytes - BytesIn(Flatten(lists)) == Sum(Identity(), Excess(lists, sizes)) + drift
    {
      BytesApart(lists, sizes);
    }

    lemma BytesWhenExact()
      requires Valid() && Exact()
      ensures currentBytes == BytesIn(Flatten(lists))
    {
      BytesOff();
      SumZero(Identity(), Zeros(|lists|));
    }

    /** Drops the frames of one group from a position on; nothing for an unknown group or a position out of range. */
    method DropFramesFromGop(gopId: nat, startIndex: int) returns (dropped: seq<Frame>)
      requires Valid()
      modifies this`frameIndex, this`currentBytes, this`lists, this`sizes, this`drift, gops
      ensures Valid()
      ensures gopId !in gopIndex ==> dropped == [] && lists == old(lists) && sizes == old(sizes) && drift == old(drift)
      ensures forall g :: 0 <= g < |gops| && gops[g].id == gopId ==>
                if 0 <= startIndex < |old(lists)[g]|
                then && lists == old(lists)[g := old(lists)[g][..startIndex]] && dropped == old(lists)[g][startIndex..]
                     && drift == old(drift) + old(Excess(lists, sizes))[g]
                     && Excess(lists, sizes) == old(Excess(lists, sizes))[g := 0]
                else dropped == [] && lists == old(lists) && sizes == old(sizes) && drift == old(drift)
      ensures Conserves(Flatten(old(lists)), Shed(Flatten(lists), dropped)) && currentBytes == old(currentBytes) - BytesIn(dropped)
      ensures old(Exact()) ==> Exact()
      ensures old(Covered()) ==> Covered() && (old(Ordered()) ==> Ordered()) && (old(Within()) ==> Within())
    {
      WithinSelf(Flatten(lists));
      if gopId !in gopIndex {
        IdsOfMembers(gops, gopIndex);
        return [];
      }
      var gop := gopIndex[gopId];
      ghost var g := MemberAt(gops, gopIndex, gopId);
      OpenDistinct(gops);
      assert Holds(gops[g], lists[g], sizes[g], newestTime);
      if startIndex < 0 || startIndex >= |gop.frames| {
        return [];
      }
      dropped := CutTail(g, gop, startIndex);
    }

    /** Cuts off the tail of a group, and what follows for the bytes of the whole buffer. */
    method CutTail(ghost g: nat, gop: Gop, startIndex: nat) returns (dropped: seq<Frame>)
      requires Valid() && g < |gops| && gops[g] == gop && startIndex < |lists[g]|
      modifies this`frameIndex, this`currentBytes, this`lists, this`sizes, this`drift, gop
      ensures Valid() && dropped == old(lists)[g][startIndex..] && lists == old(lists)[g := old(lists)[g][..startIndex]]
      ensures drift == old(drift) + old(Excess(lists, sizes))[g] && Excess(lists, sizes) == old(Excess(lists, sizes))[g := 0]
      ensures Conserves(Flatten(old(lists)), Shed(Flatten(lists), dropped)) && currentBytes == old(currentBytes) - BytesIn(dropped)
      ensures old(Exact()) ==> Exact()
      ensures old(Covered()) ==> Covered() && (old(Ordered()) ==> Ordered()) && (old(Within()) ==> Within())
    {
      ghost var listsBefore, sizesBefore := lists, sizes;
      dropped := CutGop(g, gop, startIndex);
      TailConserves(listsBefore, g, startIndex);
      TailCovers(listsBefore, sizesBefore, g, startIndex, sizes);
      OrderLeft(gops, sizesBefore, gops, sizes, newestTime);
    }

    method CutGop(ghost g: nat, gop: Gop, startIndex: nat) returns (dropped: seq<Frame>)
      requires Valid() && g < |gops| && gops[g] == gop && startIndex < |lists[g]|
      modifies this`frameIndex, this`currentBytes, this`lists, this`sizes, this`drift, gop
      ensures Valid() && dropped == old(lists)[g][startIndex..] && lists == old(lists)[g := old(lists)[g][..startIndex]]
      ensures currentBytes == old(currentBytes) - BytesIn(dropped)
      ensures drift == old(drift) + old(Excess(lists, sizes))[g] && Excess(lists, sizes) == old(Excess(lists, sizes))[g := 0]
    {
      assert Holds(gops[g], lists[g], sizes[g], newestTime);
      UnindexTail(g, gop, gop.frames, startIndex);
      OpenDistinct(gops);
      dropped := gop.CutAt(startIndex);
      Rerecord(g, gop.frames, dropped, gop.totalSize);
      forall i | 0 <= i < |gops| ensures Holds(gops[i], lists[i], sizes[i], newestTime) {
        if i != g {
          assert old(Holds(gops[i], lists[i], sizes[i], newestTime));
        }
      }
    }

    method UnindexTail(ghost g: nat, gop: Gop, frames: seq<Frame>, startIndex: nat)
      requires Distinct(gops) && Indexed(gops, lists, frameIndex)
      requires g < |gops| && gops[g] == gop && frames == lists[g] && startIndex <= |frames|
      modifies this`frameIndex, this`currentBytes
      ensures Indexed(gops, lists[g := frames[..startIndex]], frameIndex) && currentBytes == old(currentBytes) - BytesIn(frames[startIndex..])
      ensures BytesIn(frames) == BytesIn(frames[..startIndex]) + BytesIn(frames[startIndex..])
    {
      var kept, dropped := frames[..startIndex], frames[startIndex..];
      assert frames == kept + dropped;
      IndexTruncated(gops, lists, frameIndex, g, startIndex);
      BytesAppend(kept, dropped);
      Unindex(dropped);
      var droppedBytes := SizeOfAll(dropped);
      currentBytes := currentBytes - droppedBytes;
      forall i | 0 <= i < |kept| ensures kept[i].id in frameIndex && frameIndex[kept[i].id] == Location(gop, i) {
        assert FoundAt(gops, lists[g := kept], frameIndex, g, i);
      }
      Reindex(gop, kept);
    }

    // Adding a group, and the limits.

    /** The limits as they act: the byte limit is compared with the bytes counted, drift included. */
    ghost function Effective(): Limits
      reads this`drift
    {
      limits.(maxBytes := limits.maxBytes - drift)
    }

    /** Start times in order, the newest group giving the newest time, and no negative size. */
    ghost predicate Ordered()
      requires |gops| == |sizes|
      reads this`gops, this`sizes, this`newestTime
    {
      (gops == [] || InOrder(Items(gops, sizes), newestTime)) && NoneNegative(sizes)
    }

    /** Adds a group that is complete or closed, and then removes the oldest groups as the limits ask. */
    method AddGop(gop: Gop)
      requires Valid() && gop.Sound() && gop.id !in gopIndex && NewIds(gop.frames, frameIndex)
      requires gop.complete || gop.closed ==> limits.maxGops >= 0
      modifies this
      ensures Valid() && drift == old(drift)
      ensures !gop.complete && !gop.closed ==> gops == old(gops) && lists == old(lists) && sizes == old(sizes)
      ensures gop.complete || gop.closed ==>
                var all, allLists, allSizes := old(gops) + [gop], old(lists) + [gop.frames], old(sizes) + [gop.totalSize];
                newestTime == Later(gop.startTime, old(newestTime)) &&
                From(all, allLists, allSizes, Removed(Items(all, allSizes), Effective(), newestTime))
      ensures (gop.complete || gop.closed) && old(Exact()) && gop.totalSize == BytesIn(gop.frames) ==>
                Exact() && currentBytes == BytesIn(Flatten(lists))
      ensures (gop.complete || gop.closed) && old(Covered()) && Covers(gop.frames, gop.totalSize - BytesIn(gop.frames)) ==> Covered()
      // With start times in order the newest group stays, and what is left is within all limits.
      ensures (gop.complete || gop.closed) && old(Follows(gop)) ==>
                Ordered() && gops != [] && gops[|gops| - 1] == gop && Within()
                && WithinLimits(Items(gops, sizes), 0, Effective(), newestTime)
    {
      if !gop.complete && !gop.closed {
        return;
      }
      AddWithin(gop);
    }

    /** The group is added, whether or not it is complete. */
    method AddWithin(gop: Gop)
      requires Valid() && gop.Sound() && gop.id !in gopIndex && NewIds(gop.frames, frameIndex) && limits.maxGops >= 0
      modifies this`gops, this`gopIndex, this`frameIndex, this`currentBytes, this`oldestTime, this`newestTime, this`lists, this`sizes
      ensures Valid() && newestTime == Later(gop.startTime, old(newestTime))
      ensures var all, allLists, allSizes := old(gops) + [gop], old(lists) + [gop.frames], old(sizes) + [gop.totalSize];
              From(all, allLists, allSizes, Removed(Items(all, allSizes), Effective(), newestTime))
      ensures old(Exact()) && gop.totalSize == BytesIn(gop.frames) ==> Exact() && currentBytes == BytesIn(Flatten(lists))
      ensures old(Covered()) && Covers(gop.frames, gop.totalSize - BytesIn(gop.frames)) ==> Covered()
      ensures old(Follows(gop)) ==>
                Ordered() && gops != [] && gops[|gops| - 1] == gop && Within()
                && WithinLimits(Items(gops, sizes), 0, Effective(), newestTime)
    {
      ghost var before, sizesBefore, newest, follows, size := gops, sizes, newestTime, Follows(gop), gop.totalSize;
      AddAndLimit(gop);
      if follows {
        AddedWithin(before, sizesBefore, newest, gop, size, Effective());
        LimitsAreWithin();
      }
    }

    lemma LimitsAreWithin()
      requires Valid() && WithinLimits(Items(gops, sizes), 0, Effective(), newestTime)
      ensures Within()
    {
      TotalIs(gops, sizes, 0);
      assert sizes[0..] == sizes;
      forall i | 0 <= i < |gops| ensures Items(gops, sizes)[i].start == gops[i].startTime {
      }
    }

    method AddAndLimit(gop: Gop)
      requires Valid() && gop.Sound() && gop.id !in gopIndex && NewIds(gop.frames, frameIndex) && limits.maxGops >= 0
      modifies this`gops, this`gopIndex, this`frameIndex, this`currentBytes, this`oldestTime, this`newestTime, this`lists, this`sizes
      ensures Valid() && newestTime == Later(gop.startTime, old(newestTime))
      ensures var all, allLists, allSizes := old(gops) + [gop], old(lists) + [gop.frames], old(sizes) + [gop.totalSize];
              From(all, allLists, allSizes, Removed(Items(all, allSizes), Effective(), newestTime))
      ensures old(Exact()) && gop.totalSize == BytesIn(gop.frames) ==> Exact() && currentBytes == BytesIn(Flatten(lists))
      ensures old(Covered()) && Covers(gop.frames, gop.totalSize - BytesIn(gop.frames)) ==> Covered()
    {
      ghost var listsBefore, sizesBefore, frames, size := lists, sizes, gop.frames, gop.totalSize;
      AppendAndLimit(gop);
      BytesAdded(listsBefore, sizesBefore, frames, size, lists, sizes);
      if Exact() {
        BytesWhenExact();
      }
    }

    method AppendAndLimit(gop: Gop)
      requires Valid() && gop.Sound() && gop.id !in gopIndex && NewIds(gop.frames, frameIndex) && limits.maxGops >= 0
      modifies this`gops, this`gopIndex, this`frameIndex, this`currentBytes, this`oldestTime, this`newestTime, this`lists, this`sizes
      ensures Valid() && newestTime == Later(gop.startTime, old(newestTime))
      ensures var all, allLists, allSizes := old(gops) + [gop], old(lists) + [gop.frames], old(sizes) + [gop.totalSize];
              From(all, allLists, allSizes, Removed(Items(all, allSizes), Effective(), newestTime))
    {
      Append(gop);
      if oldestTime == 0 || gop.startTime < oldestTime {
        oldestTime := gop.startTime;
      }
      EnforceBufferLimits();
    }

    /** The group is no older than the newest, and its size is not negative. */
    ghost predicate Follows(gop: Gop)
      requires |gops| == |sizes|
      reads this`gops, this`sizes, this`newestTime, gop
    {
      Ordered() && gop.startTime >= newestTime && gop.totalSize >= 0 && limits.maxGops >= 1
    }

    method Append(gop: Gop)
      requires Valid() && gop.Sound() && gop.id !in gopIndex && NewIds(gop.frames, frameIndex)
      modifies this`gops, this`gopIndex, this`frameIndex, this`currentBytes, this`newestTime, this`lists, this`sizes
      ensures Valid() && newestTime == Later(gop.startTime, old(newestTime))
      ensures gops == old(gops) + [gop] && lists == old(lists) + [gop.frames] && sizes == old(sizes) + [gop.totalSize]
    {
      SumSnoc(sizes, gop.totalSize);
      HoldMore(gops, lists, sizes, newestTime, gop);
      IndexNew(gop, gop.frames);
      gops := gops + [gop];
      lists, sizes := lists + [gop.frames], sizes + [gop.totalSize];
      currentBytes := currentBytes + gop.totalSize;
      if gop.startTime > newestTime {
        newestTime := gop.startTime;
      }
    }

    /** Enters a new group into both indexes. */
    method IndexNew(gop: Gop, frames: seq<Frame>)
      requires Distinct(gops) && GopsIndexed(gops, gopIndex) && Indexed(gops, lists, frameIndex)
      requires gop.id !in gopIndex && NewIds(frames, frameIndex)
      modifies this`gopIndex, this`frameIndex
      ensures Distinct(gops + [gop]) && GopsIndexed(gops + [gop], gopIndex) && Indexed(gops + [gop], lists + [frames], frameIndex)
    {
      ghost var index := frameIndex;
      GopsAdded(gops, gopIndex, gop);
      gopIndex := gopIndex[gop.id := gop];
      Enter(gop, frames);
      IndexAdded(gops, lists, index, gop, frames, frameIndex);
    }

    /** Enters the frames of a new group into the index. */
    method Enter(gop: Gop, frames: seq<Frame>)
      requires NewIds(frames, frameIndex)
      modifies this`frameIndex
      ensures Entered(old(frameIndex), gop, frames, |frames|, frameIndex)
    {
      for i := 0 to |frames|
        invariant Entered(old(frameIndex), gop, frames, i, frameIndex)
      {
        EnteredStep(old(frameIndex), gop, frames, i, frameIndex);
        frameIndex := frameIndex[frames[i].id := Location(gop, i)];
      }
    }

    /** A negative limit on the number of groups is excluded here: with one, the first loop does not end. */
    method EnforceBufferLimits()
      requires Valid() && limits.maxGops >= 0
      modifies this`gops, this`gopIndex, this`frameIndex, this`currentBytes, this`oldestTime, this`lists, this`sizes
      ensures Valid()
      ensures From(old(gops), old(lists), old(sizes), Removed(Items(old(gops), old(sizes)), Effective(), newestTime))
    {
      ghost var few := EnforceCountAndBytes();
      if limits.maxDuration > 0 && |gops| > 1 {
        ghost var n := EnforceTime(old(gops), old(lists), old(sizes), few);
      }
    }

    method EnforceCountAndBytes() returns (ghost few: nat)
      requires Valid() && limits.maxGops >= 0
      modifies this`gops, this`gopIndex, this`frameIndex, this`currentBytes, this`oldestTime, this`lists, this`sizes
      ensures Valid() && From(old(gops), old(lists), old(sizes), few) && few == Few(Items(old(gops), old(sizes)), Effective())
    {
      few := EnforceCount(gops, lists, sizes, 0);
      few := EnforceBytes(old(gops), old(lists), old(sizes), few);
    }

    /** The groups, their frames and their sizes are those of `all`, `allLists` and `allSizes` from position `n` on. */
    ghost predicate From(all: seq<Gop>, allLists: seq<seq<Frame>>, allSizes: seq<int>, n: nat)
      reads this`gops, this`lists, this`sizes
    {
      |all| == |allLists| == |allSizes| && n <= |all| && gops == all[n..] && lists == allLists[n..] && sizes == allSizes[n..]
    }

    method EnforceCount(ghost all: seq<Gop>, ghost allLists: seq<seq<Frame>>, ghost allSizes: seq<int>, ghost n0: nat) returns (ghost n: nat)
      requires Valid() && From(all, allLists, allSizes, n0) && limits.maxGops >= 0
      modifies this`gops, this`gopIndex, this`frameIndex, this`currentBytes, this`oldestTime, this`lists, this`sizes
      ensures Valid() && From(all, allLists, allSizes, n) && n == ByCount(Items(all, allSizes), n0, limits.maxGops)
    {
      n := n0;
      while |gops| > limits.maxGops
        invariant Valid() && From(all, allLists, allSizes, n)
        invariant ByCount(Items(all, allSizes), n0, limits.maxGops) == ByCount(Items(all, allSizes), n, limits.maxGops)
        decreases |gops|
      {
        RemoveOldestGop();
        n := n + 1;
      }
    }

    method EnforceBytes(ghost all: seq<Gop>, ghost allLists: seq<seq<Frame>>, ghost allSizes: seq<int>, ghost n0: nat) returns (ghost n: nat)
      requires Valid() && From(all, allLists, allSizes, n0)
      modifies this`gops, this`gopIndex, this`frameIndex, this`currentBytes, this`oldestTime, this`lists, this`sizes
      ensures Valid() && From(all, allLists, allSizes, n) && n == ByBytes(Items(all, allSizes), n0, limits.maxBytes - drift)
    {
      n := n0;
      ghost var items, cap := Items(all, allSizes), limits.maxBytes - drift;
      TotalIs(all, allSizes, n);
      while currentBytes > limits.maxBytes && |gops| > 1
        invariant Valid() && From(all, allLists, allSizes, n) && Total(items, n) == Sum(Identity(), sizes)
        invariant ByBytes(items, n0, cap) == ByBytes(items, n, cap)
        decreases |gops|
      {
        RemoveOldestGop();
        n := n + 1;
        TotalIs(all, allSizes, n);
      }
    }

    method EnforceTime(ghost all: seq<Gop>, ghost allLists: seq<seq<Frame>>, ghost allSizes: seq<int>, ghost n0: nat) returns (ghost n: nat)
      requires Valid() && From(all, allLists, allSizes, n0)
      modifies this`gops, this`gopIndex, this`frameIndex, this`currentBytes, this`oldestTime, this`lists, this`sizes
      ensures Valid() && From(all, allLists, allSizes, n)
      ensures n == ByTime(Items(all, allSizes), n0, newestTime - limits.maxDuration)
    {
      n := n0;
      var cutoff := newestTime - limits.maxDuration;
      while true
        invariant Valid() && From(all, allLists, allSizes, n)
        invariant ByTime(Items(all, allSizes), n0, cutoff) == ByTime(Items(all, allSizes), n, cutoff)
        decreases |gops|
      {
        if |gops| == 0 {
          break;
        }
        if gops[0].startTime > cutoff {
          break;
        }
        RemoveOldestGop();
        n := n + 1;
      }
    }

    method Clear()
      modifies this
      ensures Valid() && gops == [] && newestTime == 0 && Exact() && Covered() && Ordered()
    {
      gops, gopIndex, frameIndex, lists, sizes, drift := [], map[], map[], [], [], 0;
      currentBytes, oldestTime, newestTime := 0, 0, 0;
    }

    // Looking up.

    /** The group of the list with the given id. */
    method GetGop(gopId: nat) returns (r: Option<Gop>)
      requires Valid()
      ensures r.Some? ==> r.value in gops && r.value.id == gopId
      ensures r.None? ==> forall g :: 0 <= g < |gops| ==> gops[g].id != gopId
    {
      if gopId in gopIndex {
        ghost var g := MemberAt(gops, gopIndex, gopId);
        return Some(gopIndex[gopId]);
      }
      IdsOfMembers(gops, gopIndex);
      return None;
    }

    /** The same frame that a search through all groups finds. */
    method GetFrame(frameId: nat) returns (r: Option<Frame>)
      requires Valid()
      ensures r == Search(lists, frameId)
    {
      IndexIsSearch(gops, lists, frameIndex, frameId);
      if frameId in frameIndex {
        var loc := frameIndex[frameId];
        assert Leads(gops, lists, frameIndex[frameId], frameId);
        ghost var i := LeadsTo(gops, lists, loc, frameId);
        assert Holds(gops[i], lists[i], sizes[i], newestTime);
        if loc.position < |loc.gop.frames| {
          return Some(loc.gop.frames[loc.position]);
        }
      }
      return None;
    }

    /** The newest groups, the oldest of them first. */
    method GetRecentGops(limit: nat) returns (result: seq<Gop>)
      ensures result == gops[if |gops| > limit then |gops| - limit else 0..]
    {
      result := [];
      var elem: nat := |gops|;
      while elem > 0 && |result| < limit
        invariant elem + |result| == |gops| && |result| <= limit
        invariant Reverse(result) == gops[elem..]
      {
        elem := elem - 1;
        ReverseSnoc(result, gops[elem]);
        result := result + [gops[elem]];
      }
      result := Reversed(result);
    }
  }

  /** Swaps from both ends towards the middle. */
  method Reversed(s: seq<Gop>) returns (r: seq<Gop>)
    ensures r == Reverse(s)
  {
    r := s;
    var n, i := |s|, 0;
    while i < n / 2
      invariant 0 <= i <= n / 2 && |r| == n
      invariant forall k :: 0 <= k < n ==> r[k] == s[Swapped(n, i, k)]
    {
      r := r[i := r[n - 1 - i]][n - 1 - i := r[i]];
      i := i + 1;
    }
    forall k | 0 <= k < n ensures r[k] == Reverse(s)[k] {
      ReverseAt(s, k);
    }
  }

  /** Where the value at `k` comes from after `i` swaps. */
  function Swapped(n: nat, i: nat, k: nat): (j: nat)
    requires k < n
    ensures j < n
  {
    if i <= k < n - i then k else n - 1 - k
  }

  lemma {:induction false} ReverseAt(s: seq<Gop>, k: nat)
    requires k < |s|
    ensures Reverse(s)[k] == s[|s| - 1 - k]
    decreases |s|
  {
    if k < |s| - 1 {
      ReverseAt(s[1..], k);
    }
  }

  /** The groups that are left are the newest ones. */
  ghost predicate Suffix(gops: seq<Gop>, all: seq<Gop>) {
    |gops| <= |all| && gops == all[|all| - |gops|..]
  }

  lemma SuffixNext(gops: seq<Gop>, all: seq<Gop>)
    requires Suffix(gops, all) && gops != []
    ensures Suffix(gops[1..], all)
  {
  }

  lemma SuffixMember(gops: seq<Gop>, all: seq<Gop>)
    requires Suffix(gops, all) && gops != []
    ensures gops[0] in all
  {
  }

  function Later(a: nat, b: nat): nat { if a > b then a else b }

  lemma ZeroedStarts(excess: seq<int>)
    ensures Zeros(0) + excess[0..] == excess && excess[..0] == []
  {
  }

  lemma ZeroedTurn(excess: seq<int>, g: nat)
    requires g < |excess|
    ensures (Zeros(g) + excess[g..])[g] == excess[g] && (Zeros(g) + excess[g..])[g := 0] == Zeros(g + 1) + excess[g + 1..]
    ensures Sum(Identity(), excess[..g + 1]) == Sum(Identity(), excess[..g]) + excess[g]
  {
    assert excess[..g + 1] == excess[..g] + [excess[g]];
    SumSnoc(excess[..g], excess[g]);
  }

  lemma ZeroedEnds(excess: seq<int>)
    ensures Zeros(|excess|) + excess[|excess|..] == Zeros(|excess|) && excess[..|excess|] == excess
  {
  }

  /** What the limits add up is what the recorded sizes add up to. */
  lemma {:induction false} TotalIs(all: seq<Gop>, allSizes: seq<int>, n: nat)
    requires |all| == |allSizes| && n <= |all|
    ensures Total(Items(all, allSizes), n) == Sum(Identity(), allSizes[n..])
    decreases |all| - n
  {
    if n < |all| {
      assert allSizes[n..][1..] == allSizes[n + 1..];
      TotalIs(all, allSizes, n + 1);
    }
  }

  lemma EnteredStep(index: map<nat, Location>, g: Gop, frames: seq<Frame>, n: nat, more: map<nat, Location>)
    requires n < |frames| && NewIds(frames, index) && Entered(index, g, frames, n, more)
    ensures Entered(index, g, frames, n + 1, more[frames[n].id := Location(g, n)])
  {
    var more2 := more[frames[n].id := Location(g, n)];
    forall id | id in more2 && id !in index ensures Leads([g], [frames[..n + 1]], more2[id], id) {
      LeadsStill(index, g, frames, n, more, id);
    }
  }

  lemma LeadsStill(index: map<nat, Location>, g: Gop, frames: seq<Frame>, n: nat, more: map<nat, Location>, id: nat)
    requires n < |frames| && Entered(index, g, frames, n, more) && (id in more || id == frames[n].id) && id !in index
    ensures Leads([g], [frames[..n + 1]], more[frames[n].id := Location(g, n)][id], id)
  {
    var loc := more[frames[n].id := Location(g, n)][id];
    if id != frames[n].id {
      var j := LeadsTo([g], [frames[..n]], more[id], id);
    }
    LeadsAt([g], [frames[..n + 1]], loc, id, 0);
  }

  /** Start times in order stay in order when a group no older than the newest is added. */
  lemma OrderKept(gops: seq<Gop>, sizes: seq<int>, newest: nat, g: Gop, size: int)
    requires |gops| == |sizes| && (gops == [] || InOrder(Items(gops, sizes), newest)) && g.startTime >= newest
    ensures InOrder(Items(gops + [g], sizes + [size]), g.startTime)
  {
    var all, before := Items(gops + [g], sizes + [size]), Items(gops, sizes);
    forall i, j | 0 <= i < j < |all| ensures all[i].start <= all[j].start {
      assert all[i].start == before[i].start;
      if j == |gops| {
        assert before[i].start <= before[|before| - 1].start;
      } else {
        assert all[j].start == before[j].start;
      }
    }
  }

  /** What the limits leave is in order and within them. */
  lemma LeftWithin(all: seq<Gop>, sizes: seq<int>, limits: Limits, newest: nat)
    requires |all| == |sizes| && InOrder(Items(all, sizes), newest) && limits.maxGops >= 1 && NoneNegative(sizes)
    ensures var r := Removed(Items(all, sizes), limits, newest);
            && r < |all| && InOrder(Items(all[r..], sizes[r..]), newest) && WithinLimits(Items(all[r..], sizes[r..]), 0, limits, newest)
            && NoneNegative(sizes[r..])
  {
    var items, r := Items(all, sizes), Removed(Items(all, sizes), limits, newest);
    RemovedIsLeast(items, limits, newest);
    TotalIs(all, sizes, r);
    TotalIs(all[r..], sizes[r..], 0);
    assert sizes[r..][0..] == sizes[r..];
    assert Items(all[r..], sizes[r..]) == items[r..];
  }

  /** A group is added to groups in order, and the limits are enforced. */
  lemma AddedWithin(before: seq<Gop>, sizesBefore: seq<int>, newest: nat, gop: Gop, size: int, limits: Limits)
    requires |before| == |sizesBefore| && (before == [] || InOrder(Items(before, sizesBefore), newest)) && gop.startTime >= newest
    requires limits.maxGops >= 1 && size >= 0 && NoneNegative(sizesBefore)
    ensures var all, sizes := before + [gop], sizesBefore + [size];
            var r := Removed(Items(all, sizes), limits, gop.startTime);
            && r < |all| && all[r..] != [] && all[r..][|all[r..]| - 1] == gop
            && InOrder(Items(all[r..], sizes[r..]), gop.startTime) && NoneNegative(sizes[r..])
            && WithinLimits(Items(all[r..], sizes[r..]), 0, limits, gop.startTime)
  {
    var all, sizes := before + [gop], sizesBefore + [size];
    OrderKept(before, sizesBefore, newest, gop, size);
    NoneMore(sizesBefore, size);
    LeftWithin(all, sizes, limits, gop.startTime);
    LastOf(all, gop, Removed(Items(all, sizes), limits, gop.startTime));
  }

  /** The excess of the groups with one more, and without the oldest `r`. */
  lemma ExcessAdded(lists: seq<seq<Frame>>, sizes: seq<int>, frames: seq<Frame>, size: int, r: nat)
    requires |lists| == |sizes| && r <= |lists| + 1
    ensures Excess((lists + [frames])[r..], (sizes + [size])[r..]) == (Excess(lists, sizes) + [size - BytesIn(frames)])[r..]
  {
  }

  /** Whatever of the oldest groups leaves, groups recorded exactly, or well enough, are followed by such groups. */
  lemma BytesAdded(lists: seq<seq<Frame>>, sizes: seq<int>, frames: seq<Frame>, size: int, left: seq<seq<Frame>>, sizesLeft: seq<int>)
    requires |lists| == |sizes| && |left| == |sizesLeft| <= |lists| + 1
    requires left == (lists + [frames])[|lists| + 1 - |left|..] && sizesLeft == (sizes + [size])[|lists| + 1 - |left|..]
    ensures Excess(lists, sizes) == Zeros(|lists|) && size == BytesIn(frames) ==> Excess(left, sizesLeft) == Zeros(|left|)
    ensures AllCovered(lists, Excess(lists, sizes)) && Covers(frames, size - BytesIn(frames)) ==> AllCovered(left, Excess(left, sizesLeft))
  {
    ExcessAdded(lists, sizes, frames, size, |lists| + 1 - |left|);
  }

  /** Shedding leaves the start times in order. */
  lemma OrderLeft(gops: seq<Gop>, sizes: seq<int>, left: seq<Gop>, sizesLeft: seq<int>, newest: nat)
    requires |gops| == |sizes| && |left| == |sizesLeft| && Suffix(left, gops) && (gops != [] ==> left != [])
    ensures gops == [] || InOrder(Items(gops, sizes), newest) ==> left == [] || InOrder(Items(left, sizesLeft), newest)
  {
    var n := |gops| - |left|;
    forall i | 0 <= i < |left| ensures Items(left, sizesLeft)[i].start == Items(gops, sizes)[n + i].start {
      assert left[i] == gops[n + i];
    }
  }

  /** What shedding keeps of a covered buffer. */
  lemma StillCovered(gops: seq<Gop>, lists: seq<seq<Frame>>, sizes: seq<int>, left: seq<Gop>, listsLeft: seq<seq<Frame>>, sizesLeft: seq<int>,
                     pressure: real, newest: nat)
    requires |gops| == |lists| == |sizes| && |left| == |listsLeft| == |sizesLeft| && AllCovered(lists, Excess(lists, sizes))
    requires listsLeft == ShedFor(lists, pressure).lists && Excess(listsLeft, sizesLeft) == ExcessAfter(Excess(lists, sizes), pressure)
    requires Suffix(left, gops)
    ensures AllCovered(listsLeft, Excess(listsLeft, sizesLeft)) && NoneNegative(sizesLeft)
    ensures gops == [] || InOrder(Items(gops, sizes), newest) ==> left == [] || InOrder(Items(left, sizesLeft), newest)
    ensures BytesIn(ShedFor(lists, pressure).dropped) + GoneWith(Excess(lists, sizes), pressure) >= 0
  {
    SheddingConserves(lists, pressure);
    SheddingCovers(lists, Excess(lists, sizes), pressure);
    CoveredIsNotNegative(listsLeft, sizesLeft);
    OrderLeft(gops, sizes, left, sizesLeft, newest);
    CountFalls(lists, sizes, pressure);
  }

  lemma StartsLeft(gops: seq<Gop>, left: seq<Gop>)
    requires Suffix(left, gops)
    ensures |left| <= |gops| && forall i :: 0 <= i < |left| ==> left[i] == gops[|gops| - |left| + i]
  {
  }

  lemma NoneMore(sizes: seq<int>, size: int)
    requires NoneNegative(sizes) && size >= 0
    ensures NoneNegative(sizes + [size])
  {
  }

  lemma LastOf(all: seq<Gop>, gop: Gop, r: nat)
    requires r < |all| && all[|all| - 1] == gop
    ensures all[r..] != [] && all[r..][|all[r..]| - 1] == gop
  {
  }

  lemma MemberAt(gops: seq<Gop>, index: map<nat, Gop>, id: nat) returns (g: nat)
    requires GopsIndexed(gops, index) && id in index
    ensures g < |gops| && gops[g] == index[id] && gops[g].id == id
  {
    assert Member(gops, index[id], id);
    g :| 0 <= g < |gops| && gops[g] == index[id];
  }

  lemma IdsOfMembers(gops: seq<Gop>, index: map<nat, Gop>)
    requires GopsIndexed(gops, index)
    ensures forall g :: 0 <= g < |gops| ==> gops[g].id in index
  {
    forall g | 0 <= g < |gops| ensures gops[g].id in index {
      assert Entry(index, gops[g]);
    }
  }

  method CollectB(frames: seq<Frame>) returns (ps: seq<nat>)
    ensures ps == BPositions(frames, |frames|)
  {
    ps := [];
    for i := 0 to |frames|
      invariant ps == BPositions(frames, i)
    {
      if frames[i].kind == B {
        ps := ps + [i];
      }
    }
  }

  ghost predicate IdsDiffer(frames: seq<Frame>) {
    forall p, q :: 0 <= p < q < |frames| ==> frames[p].id != frames[q].id
  }

  /** The frames of one group have different ids. */
  lemma OwnIdsDiffer(gops: seq<Gop>, lists: seq<seq<Frame>>, index: map<nat, Location>, i: nat)
    requires Indexed(gops, lists, index) && i < |lists|
    ensures IdsDiffer(lists[i])
  {
    OpenFinds(gops, lists, index);
    forall p, q | 0 <= p < q < |lists[i]| ensures lists[i][p].id != lists[i][q].id {
      assert index[lists[i][p].id].position == p && index[lists[i][q].id].position == q;
    }
  }

  lemma RemovalDiffers(frames: seq<Frame>, i: nat)
    requires IdsDiffer(frames) && i < |frames|
    ensures IdsDiffer(RemoveAt(frames, i))
  {
    var less := RemoveAt(frames, i);
    forall p, q | 0 <= p < q < |less| ensures less[p].id != less[q].id {
      assert less[p] == frames[if p < i then p else p + 1] && less[q] == frames[if q < i then q else q + 1];
    }
  }

  function Moved(index: map<nat, Location>, id: nat, position: nat): map<nat, Location> {
    if id in index then index[id := index[id].(position := position)] else index
  }

  /** One position written. */
  lemma RenumberedStep(index: map<nat, Location>, frames: seq<Frame>, from: nat, to: nat, after: map<nat, Location>)
    requires from <= to < |frames| && Renumbered(index, frames, from, to, after) && IdsDiffer(frames)
    ensures Renumbered(index, frames, from, to + 1, Moved(after, frames[to].id, to))
  {
    EarlierIds(frames, from, to);
    OpenRenumbered(index, frames, from, to, after);
    MovedPositions(index, frames, from, to, after);
    var more := Moved(after, frames[to].id, to);
    forall id | id in index && id !in Ids(frames[from..to + 1]) ensures KeptAt(index, more, id) {
    }
    forall k | from <= k < to + 1 ensures WrittenAt(index, frames, k, more) {
    }
  }

  lemma MovedPositions(index: map<nat, Location>, frames: seq<Frame>, from: nat, to: nat, after: map<nat, Location>)
    requires from <= to < |frames| && after.Keys == index.Keys && IdsDiffer(frames)
    requires frames[to].id in index ==> after[frames[to].id] == index[frames[to].id]
    requires forall k :: from <= k < to && frames[k].id in index ==> after[frames[k].id] == index[frames[k].id].(position := k)
    ensures var more := Moved(after, frames[to].id, to);
            && more.Keys == index.Keys
            && forall k :: from <= k < to + 1 && frames[k].id in index ==> more[frames[k].id] == index[frames[k].id].(position := k)
  {
    var id, more := frames[to].id, Moved(after, frames[to].id, to);
    forall k | from <= k < to + 1 && frames[k].id in index ensures more[frames[k].id] == index[frames[k].id].(position := k) {
      if k < to {
        assert frames[k].id != id;
      }
    }
  }

  lemma EarlierIds(frames: seq<Frame>, from: nat, to: nat)
    requires from <= to < |frames| && IdsDiffer(frames)
    ensures Ids(frames[from..to + 1]) == Ids(frames[from..to]) + {frames[to].id}
    ensures frames[to].id !in Ids(frames[from..to])
  {
    assert frames[from..to + 1] == frames[from..to] + [frames[to]];
    IdsSnoc(frames[from..to], frames[to]);
  }
}
