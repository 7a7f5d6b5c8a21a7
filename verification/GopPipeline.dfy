/** From the detector into the buffer: closed groups are added as they come, and frames are shed in between. */
module GopPipeline {
  import opened Sequences
  import opened VideoFrames
  import opened GopShedding
  import opened GopBytes
  import GopDetectors
  import GopIndex
  import GopLimits
  import opened GopBuffers

  lemma {:induction false} FramesAt(ps: seq<GopDetectors.Placed>, i: nat)
    requires i < |ps|
    ensures GopDetectors.FramesOf(ps)[i] == ps[i].frame
    decreases |ps|
  {
    if i < |ps| - 1 {
      FramesAt(ps[..|ps| - 1], i);
    }
  }

  /** The group fits the buffer: its one keyframe is in front, its counters are exact, and the size it records is short by
      exactly its keyframe; it covers its other frames unless a keyframe with data is of type B. */
  ghost predicate Fits(g: GopDetectors.Gop) {
    var frames := GopDetectors.FramesOf(g.frames);
    && frames != [] && IsKeyframe(frames[0]) && KeyInFront(frames)
    && GopIndex.Counted(frames, g.pFrameCount, g.bFrameCount)
    && g.totalSize - BytesIn(frames) == 0 - frames[0].size
    && (Covers(frames, g.totalSize - BytesIn(frames)) <==> frames[0].size == 0 || !IsB(frames[0]))
  }

  /** Every group of a detector's run fits, whatever the types of its frames. */
  lemma DetectedFits(fs: seq<Frame>, i: nat)
    requires i < |GopDetectors.Gops(GopDetectors.After(fs))|
    ensures Fits(GopDetectors.Gops(GopDetectors.After(fs))[i])
  {
    GopDetectors.Partition(fs);
    var g := GopDetectors.Gops(GopDetectors.After(fs))[i];
    assert GopDetectors.GoodGop(g, i + 1);
    GoodFits(g, i + 1);
  }

  lemma GoodFits(g: GopDetectors.Gop, id: nat)
    requires GopDetectors.GoodGop(g, id)
    ensures Fits(g)
  {
    var frames := GopDetectors.FramesOf(g.frames);
    forall p | 0 <= p < |frames| ensures frames[p] == g.frames[p].frame {
      FramesAt(g.frames, p);
    }
    var key, rest := frames[0], frames[1..];
    assert frames == [key] + rest;
    forall f | f in rest ensures !IsKeyframe(f) {
      var p :| 0 <= p < |rest| && rest[p] == f;
      assert frames[p + 1] == f;
    }
    GopIndex.CountsOfOthers(rest);
    KeyCovers(key, rest);
  }

  lemma KeyCovers(key: Frame, rest: seq<Frame>)
    requires IsKeyframe(key) && NoKey(rest)
    ensures var frames := [key] + rest;
            && frames[1..] == rest && KeyBytes(frames) == key.size
            && (Covers(frames, 0 - key.size) <==> key.size == 0 || !IsB(key))
  {
    var frames := [key] + rest;
    assert frames[1..] == rest && frames[0] == key;
    assert forall i :: 0 <= i < |rest| ==> rest[i] in rest;
    GopIndex.NoneOf(IsKeyframe, rest);
    assert Filter(IsKeyframe, frames) == [key] + [] == [key];
    assert [key][1..] == [] && BytesIn([key]) == key.size;
    assert NoKeyIsB(frames) <==> !IsB(key) by {
      assert key in frames;
      assert forall f :: f in frames ==> f == key || f in rest;
    }
  }

  // Ids.

  /** The frames from the first keyframe on are a suffix. */
  lemma {:induction false} FromKeyframeIs(fs: seq<Frame>) returns (n: nat)
    ensures n <= |fs| && GopDetectors.FromKeyframe(fs) == fs[n..]
    decreases |fs|
  {
    n := 0;
    if fs != [] && !IsKeyframe(fs[0]) {
      n := FromKeyframeIs(fs[1..]);
      n := n + 1;
    }
  }

  lemma DifferInSuffix(fs: seq<Frame>, n: nat)
    requires n <= |fs| && IdsDiffer(fs)
    ensures IdsDiffer(fs[n..])
  {
  }

  /** No id occurs twice in either part or in both. */
  lemma DifferInParts(a: seq<Frame>, b: seq<Frame>)
    requires IdsDiffer(a + b)
    ensures IdsDiffer(a) && IdsDiffer(b) && forall f, g :: f in a && g in b ==> f.id != g.id
  {
    var all := a + b;
    forall p, q | 0 <= p < q < |b| ensures b[p].id != b[q].id {
      assert all[|a| + p] == b[p] && all[|a| + q] == b[q];
    }
    forall p, q | 0 <= p < q < |a| ensures a[p].id != a[q].id {
      assert all[p] == a[p] && all[q] == a[q];
    }
    forall f, g | f in a && g in b ensures f.id != g.id {
      var p :| 0 <= p < |a| && a[p] == f;
      var q :| 0 <= q < |b| && b[q] == g;
      assert all[p] == f && all[|a| + q] == g;
    }
  }

  /** With frame ids that differ, the ids in a group that closes are new to all groups closed before. */
  lemma ClosedIsNew(past: seq<Frame>, f: Frame)
    requires IdsDiffer(past + [f]) && GopDetectors.ClosedBy(GopDetectors.After(past).state, f).Some?
    ensures var closed, c := GopDetectors.After(past).closed, GopDetectors.ClosedBy(GopDetectors.After(past).state, f).value;
            var frames := GopDetectors.FramesOf(c.frames);
            && GopDetectors.After(past + [f]).closed == closed + [c] && c.id == |closed| + 1 && c.closed && Fits(c)
            && IdsDiffer(frames) && forall x, y :: x in GopDetectors.AllFrames(closed) && y in frames ==> x.id != y.id
  {
    var t, c := GopDetectors.After(past), GopDetectors.ClosedBy(GopDetectors.After(past).state, f).value;
    var frames := GopDetectors.FramesOf(c.frames);
    assert (past + [f])[..|past|] == past;
    GopDetectors.AlwaysInvariant(past);
    GoodFits(c, |t.closed| + 1);
    assert GopDetectors.AllFrames(t.closed) + frames == GopDetectors.FromKeyframe(past);
    DifferInPast(past, f);
    DifferInParts(GopDetectors.AllFrames(t.closed), frames);
  }

  lemma DifferInPast(past: seq<Frame>, f: Frame)
    requires IdsDiffer(past + [f])
    ensures IdsDiffer(GopDetectors.FromKeyframe(past))
  {
    DifferInParts(past, [f]);
    var n := FromKeyframeIs(past);
    DifferInSuffix(past, n);
  }

  /** The groups of a run have ids of their own, and so have the frames of different groups. */
  lemma DetectedApart(fs: seq<Frame>, i: nat, j: nat)
    requires IdsDiffer(fs) && i < j < |GopDetectors.Gops(GopDetectors.After(fs))|
    ensures var gops := GopDetectors.Gops(GopDetectors.After(fs));
            && gops[i].id != gops[j].id
            && forall x, y :: x in GopDetectors.FramesOf(gops[i].frames) && y in GopDetectors.FramesOf(gops[j].frames) ==> x.id != y.id
  {
    var gops := GopDetectors.Gops(GopDetectors.After(fs));
    GopDetectors.Partition(fs);
    var n := FromKeyframeIs(fs);
    DifferInSuffix(fs, n);
    Apart(gops, i, j);
  }

  lemma {:induction false} Apart(gops: seq<GopDetectors.Gop>, i: nat, j: nat)
    requires i < j < |gops| && IdsDiffer(GopDetectors.AllFrames(gops))
    ensures forall x, y :: x in GopDetectors.FramesOf(gops[i].frames) && y in GopDetectors.FramesOf(gops[j].frames) ==> x.id != y.id
    decreases |gops|
  {
    var front, last := gops[..|gops| - 1], GopDetectors.Last(gops);
    DifferInParts(GopDetectors.AllFrames(front), GopDetectors.FramesOf(last.frames));
    if j < |front| {
      Apart(front, i, j);
    } else {
      InAllFrames(front, i);
    }
  }

  lemma {:induction false} InAllFrames(gops: seq<GopDetectors.Gop>, i: nat)
    requires i < |gops|
    ensures forall f :: f in GopDetectors.FramesOf(gops[i].frames) ==> f in GopDetectors.AllFrames(gops)
    decreases |gops|
  {
    if i < |gops| - 1 {
      InAllFrames(gops[..|gops| - 1], i);
    }
  }

  // What the buffer holds has been closed by the detector.

  ghost predicate Known(lists: seq<seq<Frame>>, closed: seq<GopDetectors.Gop>) {
    forall f :: f in Flatten(lists) ==> f in GopDetectors.AllFrames(closed)
  }

  lemma {:induction false} InFlatten(lists: seq<seq<Frame>>, i: nat, p: nat)
    requires i < |lists| && p < |lists[i]|
    ensures lists[i][p] in Flatten(lists)
    decreases i
  {
    if i > 0 {
      InFlatten(lists[1..], i - 1, p);
    }
  }

  /** Ids that no closed frame has are not in the index. */
  lemma NewToIndex(gops: seq<GopIndex.Gop>, lists: seq<seq<Frame>>, index: map<nat, GopIndex.Location>, closed: seq<GopDetectors.Gop>, frames: seq<Frame>)
    requires GopIndex.Indexed(gops, lists, index) && Known(lists, closed) && IdsDiffer(frames)
    requires forall x, y :: x in GopDetectors.AllFrames(closed) && y in frames ==> x.id != y.id
    ensures GopIndex.NewIds(frames, index)
  {
    forall id | id in index ensures id in GopIndex.Ids(GopDetectors.AllFrames(closed)) {
      assert GopIndex.Leads(gops, lists, index[id], id);
      var i := GopIndex.LeadsTo(gops, lists, index[id], id);
      InFlatten(lists, i, index[id].position);
    }
    forall p | 0 <= p < |frames| ensures frames[p].id !in index {
      assert frames[p] in frames;
    }
  }

  lemma KnownMore(lists: seq<seq<Frame>>, closed: seq<GopDetectors.Gop>, c: GopDetectors.Gop, r: nat)
    requires Known(lists, closed) && r <= |lists| + 1
    ensures Known((lists + [GopDetectors.FramesOf(c.frames)])[r..], closed + [c])
  {
    var frames := GopDetectors.FramesOf(c.frames);
    var all := lists + [frames];
    GopDetectors.AllFramesSnoc(closed, c);
    FlattenSnoc(lists, frames);
    assert all == all[..r] + all[r..];
    FlattenAppend(all[..r], all[r..]);
    assert forall f :: f in Flatten(all[r..]) ==> f in Flatten(all);
  }

  lemma KnownLess(before: seq<seq<Frame>>, after: seq<seq<Frame>>, dropped: seq<Frame>, closed: seq<GopDetectors.Gop>)
    requires Known(before, closed) && Conserves(Flatten(before), Shed(Flatten(after), dropped))
    ensures Known(after, closed)
  {
    forall f | f in Flatten(after) ensures f in Flatten(before) {
      assert f in multiset(Flatten(after)) && f in multiset(Flatten(before));
    }
  }

  // A stream whose frames are captured in order.

  ghost predicate CapturedInOrder(fs: seq<Frame>, captured: Frame -> nat) {
    forall p, q :: 0 <= p < q < |fs| ==> captured(fs[p]) <= captured(fs[q])
  }

  /** The time of the newest group that has been closed: that of its keyframe. */
  function NewestStart(closed: seq<GopDetectors.Gop>, captured: Frame -> nat): nat {
    if closed == [] || closed[|closed| - 1].frames == [] then 0 else captured(closed[|closed| - 1].frames[0].frame)
  }

  /** A group that closes starts no earlier than those closed before. */
  lemma StartsLater(past: seq<Frame>, f: Frame, captured: Frame -> nat)
    requires CapturedInOrder(past, captured) && GopDetectors.ClosedBy(GopDetectors.After(past).state, f).Some?
    ensures var closed, c := GopDetectors.After(past).closed, GopDetectors.ClosedBy(GopDetectors.After(past).state, f).value;
            c.frames != [] && NewestStart(closed, captured) <= captured(c.frames[0].frame) == NewestStart(closed + [c], captured)
  {
    var closed, c := GopDetectors.After(past).closed, GopDetectors.ClosedBy(GopDetectors.After(past).state, f).value;
    GopDetectors.AlwaysInvariant(past);
    FramesAt(c.frames, 0);
    if closed != [] && closed[|closed| - 1].frames != [] {
      FramesAt(closed[|closed| - 1].frames, 0);
      var n := FromKeyframeIs(past);
      InAllFrames(closed, |closed| - 1);
      var first := GopDetectors.FramesOf(closed[|closed| - 1].frames)[0];
      assert first in GopDetectors.FramesOf(closed[|closed| - 1].frames);
      EarlierCaptured(past, n, GopDetectors.AllFrames(closed), GopDetectors.FramesOf(c.frames), first, captured);
    }
  }

  lemma EarlierCaptured(past: seq<Frame>, n: nat, a: seq<Frame>, b: seq<Frame>, x: Frame, captured: Frame -> nat)
    requires CapturedInOrder(past, captured) && n <= |past| && past[n..] == a + b && x in a && b != []
    ensures captured(x) <= captured(b[0])
  {
    var p :| 0 <= p < |a| && a[p] == x;
    assert past[n + p] == (a + b)[p];
    assert past[n + |a|] == (a + b)[|a|];
  }

  lemma ClosedFramesArePast(past: seq<Frame>, f: Frame)
    requires GopDetectors.ClosedBy(GopDetectors.After(past).state, f).Some?
    ensures var c := GopDetectors.ClosedBy(GopDetectors.After(past).state, f).value;
            forall x :: x in GopDetectors.FramesOf(c.frames) ==> x in past
  {
    var closed, c := GopDetectors.After(past).closed, GopDetectors.ClosedBy(GopDetectors.After(past).state, f).value;
    GopDetectors.AlwaysInvariant(past);
    var n := FromKeyframeIs(past);
    assert GopDetectors.AllFrames(closed) + GopDetectors.FramesOf(c.frames) == past[n..];
    forall x | x in GopDetectors.FramesOf(c.frames) ensures x in past {
      assert x in GopDetectors.AllFrames(closed) + GopDetectors.FramesOf(c.frames);
    }
  }

  /** What the handler of a stream does with its groups of pictures. */
  class StreamHandler {
    const gopDetector: GopDetectors.Detector
    const gopBuffer: Buffer
    const captured: Frame -> nat

    /** The frames processed so far. */
    ghost var past: seq<Frame>

    /** The limits leave room for a group, frames are captured in order, and no keyframe is of type B. */
    ghost predicate Steady()
      reads this
    {
      gopBuffer.limits.maxGops >= 1 && CapturedInOrder(past, captured) && NoKeyIsB(past)
    }

    /** The buffer is sound, and holds frames and groups that the detector has closed. */
    ghost predicate Holding(closed: seq<GopDetectors.Gop>)
      reads gopBuffer, gopBuffer.gops
    {
      gopBuffer.Valid() && Known(gopBuffer.lists, closed) && NumberedUpTo(gopBuffer.gops, |closed|)
    }

    /** It is within its limits, with what that needs to stay so. */
    ghost predicate Tidy(closed: seq<GopDetectors.Gop>)
      requires |gopBuffer.lists| == |gopBuffer.gops| == |gopBuffer.sizes|
      reads gopBuffer, gopBuffer.gops
    {
      && gopBuffer.Covered() && gopBuffer.Ordered() && gopBuffer.Within()
      && gopBuffer.newestTime == NewestStart(closed, captured)
    }

    /** In a steady stream the buffer is within its limits. */
    ghost predicate Valid()
      reads this, gopDetector, gopBuffer, gopBuffer.gops
    {
      && gopDetector.Valid() && gopDetector.View() == GopDetectors.After(past).state
      && IdsDiffer(past) && gopBuffer.limits.maxGops >= 0
      && Holding(GopDetectors.After(past).closed)
      && (Steady() ==> Tidy(GopDetectors.After(past).closed))
    }

    constructor (limits: GopLimits.Limits, captured: Frame -> nat)
      requires limits.maxGops >= 0
      ensures Valid() && past == [] && gopBuffer.limits == limits && this.captured == captured
    {
      gopDetector := new GopDetectors.Detector();
      gopBuffer := new Buffer(limits);
      this.captured := captured;
      past := [];
      new;
      assert Holding([]);
    }

    /** Frames are numbered by the assembler, so that their ids differ. */
    method ProcessFrame(frame: Frame)
      requires Valid() && frame.id !in GopIndex.Ids(past)
      modifies this, gopDetector, gopBuffer
      ensures Valid() && past == old(past) + [frame]
    {
      ghost var before := past;
      var closedGop := Detect(frame);
      PrefixSteady(before, frame, captured);
      if closedGop.Some? {
        ClosedIsNew(before, frame);
        AddClosed(before, frame, closedGop.value);
      }
    }

    method Detect(frame: Frame) returns (closedGop: Option<GopDetectors.Gop>)
      requires gopDetector.Valid() && gopDetector.View() == GopDetectors.After(past).state
      requires IdsDiffer(past) && frame.id !in GopIndex.Ids(past)
      modifies this`past, gopDetector
      ensures past == old(past) + [frame] && IdsDiffer(past)
      ensures gopDetector.Valid() && gopDetector.View() == GopDetectors.After(past).state
      ensures closedGop == GopDetectors.ClosedBy(GopDetectors.After(old(past)).state, frame)
      ensures closedGop.None? ==> GopDetectors.After(past).closed == GopDetectors.After(old(past)).closed
    {
      closedGop := gopDetector.ProcessFrame(frame);
      NewToPast(past, frame);
      PrefixSteady(past, frame, captured);
      past := past + [frame];
    }

    /** Hands a closed group over to the buffer. */
    method AddClosed(ghost before: seq<Frame>, ghost frame: Frame, closedGop: GopDetectors.Gop)
      requires past == before + [frame] && IdsDiffer(past) && gopBuffer.limits.maxGops >= 0
      requires GopDetectors.ClosedBy(GopDetectors.After(before).state, frame) == Some(closedGop)
      requires Holding(GopDetectors.After(before).closed) && (Steady() ==> Tidy(GopDetectors.After(before).closed))
      modifies gopBuffer
      ensures Holding(GopDetectors.After(before).closed + [closedGop])
      ensures Steady() ==> Tidy(GopDetectors.After(before).closed + [closedGop])
    {
      ghost var closed := GopDetectors.After(before).closed;
      ClosedIsNew(before, frame);
      var frames := GopDetectors.FramesOf(closedGop.frames);
      FramesAt(closedGop.frames, 0);
      var gop := new GopIndex.Gop(closedGop.id, captured(frames[0]), closedGop.complete, closedGop.closed, frames,
                                  closedGop.pFrameCount, closedGop.bFrameCount, closedGop.totalSize);
      if Steady() {
        PrefixSteady(before, frame, captured);
        StartsLater(before, frame, captured);
        ClosedFramesArePast(before, frame);
      }
      AddGroup(closed, closedGop, gop, Steady());
    }

    /** The group as an object. */
    method AddGroup(ghost closed: seq<GopDetectors.Gop>, ghost c: GopDetectors.Gop, gop: GopIndex.Gop, ghost steady: bool)
      requires Holding(closed) && gopBuffer.limits.maxGops >= 0 && gop.Sound() && gop.closed && gop.id == |closed| + 1
      requires gop.frames == GopDetectors.FramesOf(c.frames) && IdsDiffer(gop.frames)
      requires forall x, y :: x in GopDetectors.AllFrames(closed) && y in gop.frames ==> x.id != y.id
      requires steady ==>
                 && gopBuffer.limits.maxGops >= 1 && Tidy(closed)
                 && Covers(gop.frames, gop.totalSize - BytesIn(gop.frames)) && gop.totalSize >= 0
                 && gop.startTime == NewestStart(closed + [c], captured) >= NewestStart(closed, captured)
      modifies gopBuffer
      ensures Holding(closed + [c]) && (steady ==> Tidy(closed + [c]))
    {
      ghost var gopsBefore, listsBefore := gopBuffer.gops, gopBuffer.lists;
      Admitted(gopBuffer.gops, gopBuffer.lists, gopBuffer.gopIndex, gopBuffer.frameIndex, closed, gop.frames);
      HeldMore(gopsBefore, listsBefore, closed, c, gop);
      gopBuffer.AddGop(gop);
    }

    /** Sheds frames; what is dropped is accounted for by the buffer. */
    method ShedFrames(pressure: real) returns (dropped: seq<Frame>)
      requires Valid()
      modifies gopBuffer, gopBuffer.gops
      ensures Valid() && gopBuffer.lists == Left(old(gopBuffer.lists), pressure)
      ensures Conserves(Flatten(old(gopBuffer.lists)), Shed(Flatten(gopBuffer.lists), dropped))
    {
      dropped := ShedHeld(pressure, GopDetectors.After(past).closed);
    }

    /** Drops the frames of a group from a corrupted one on. */
    method DropCorrupted(gopId: nat, startIndex: int) returns (dropped: seq<Frame>)
      requires Valid()
      modifies gopBuffer, gopBuffer.gops
      ensures Valid() && Conserves(Flatten(old(gopBuffer.lists)), Shed(Flatten(gopBuffer.lists), dropped))
    {
      dropped := CutHeld(gopId, startIndex, GopDetectors.After(past).closed);
    }

    method CutHeld(gopId: nat, startIndex: int, ghost closed: seq<GopDetectors.Gop>) returns (dropped: seq<Frame>)
      requires Holding(closed)
      modifies gopBuffer, gopBuffer.gops
      ensures Holding(closed) && (old(Tidy(closed)) ==> Tidy(closed))
      ensures Conserves(Flatten(old(gopBuffer.lists)), Shed(Flatten(gopBuffer.lists), dropped))
    {
      ghost var listsBefore := gopBuffer.lists;
      dropped := gopBuffer.DropFramesFromGop(gopId, startIndex);
      KnownLess(listsBefore, gopBuffer.lists, dropped, closed);
    }

    method ShedHeld(pressure: real, ghost closed: seq<GopDetectors.Gop>) returns (dropped: seq<Frame>)
      requires Holding(closed)
      modifies gopBuffer, gopBuffer.gops
      ensures Holding(closed) && (old(Tidy(closed)) ==> Tidy(closed))
      ensures gopBuffer.lists == Left(old(gopBuffer.lists), pressure)
      ensures Conserves(Flatten(old(gopBuffer.lists)), Shed(Flatten(gopBuffer.lists), dropped))
    {
      ghost var gopsBefore, listsBefore := gopBuffer.gops, gopBuffer.lists;
      dropped := gopBuffer.DropFramesForPressure(pressure);
      KnownLess(listsBefore, gopBuffer.lists, dropped, closed);
      NumberedSuffix(gopsBefore, gopBuffer.gops, |closed|);
    }
  }

  /** A closed group is new to both indexes. */
  lemma Admitted(gops: seq<GopIndex.Gop>, lists: seq<seq<Frame>>, gopIndex: map<nat, GopIndex.Gop>, frameIndex: map<nat, GopIndex.Location>,
                 closed: seq<GopDetectors.Gop>, frames: seq<Frame>)
    requires GopIndex.GopsIndexed(gops, gopIndex) && GopIndex.Indexed(gops, lists, frameIndex)
    requires Known(lists, closed) && NumberedUpTo(gops, |closed|) && IdsDiffer(frames)
    requires forall x, y :: x in GopDetectors.AllFrames(closed) && y in frames ==> x.id != y.id
    ensures |closed| + 1 !in gopIndex && GopIndex.NewIds(frames, frameIndex)
  {
    NewToIndex(gops, lists, frameIndex, closed, frames);
    NewId(gops, gopIndex, |closed|);
  }

  /** With it, and without however many of the oldest groups, the buffer still holds closed groups only. */
  lemma HeldMore(gops: seq<GopIndex.Gop>, lists: seq<seq<Frame>>, closed: seq<GopDetectors.Gop>, c: GopDetectors.Gop, g: GopIndex.Gop)
    requires |gops| == |lists| && Known(lists, closed) && NumberedUpTo(gops, |closed|) && g.id == |closed| + 1
    ensures forall r {:trigger (gops + [g])[r..]} :: 0 <= r <= |gops| + 1 ==>
              NumberedUpTo((gops + [g])[r..], |closed + [c]|) && Known((lists + [GopDetectors.FramesOf(c.frames)])[r..], closed + [c])
  {
    forall r | 0 <= r <= |gops| + 1
      ensures NumberedUpTo((gops + [g])[r..], |closed + [c]|) && Known((lists + [GopDetectors.FramesOf(c.frames)])[r..], closed + [c])
    {
      KnownMore(lists, closed, c, r);
      NumberedMore(gops, g, r);
    }
  }

  ghost predicate NumberedUpTo(gops: seq<GopIndex.Gop>, n: nat) { forall i :: 0 <= i < |gops| ==> gops[i].id <= n }

  lemma NumberedMore(gops: seq<GopIndex.Gop>, g: GopIndex.Gop, r: nat)
    requires NumberedUpTo(gops, g.id) && r <= |gops| + 1
    ensures NumberedUpTo((gops + [g])[r..], g.id)
  {
  }

  lemma NumberedSuffix(gops: seq<GopIndex.Gop>, left: seq<GopIndex.Gop>, n: nat)
    requires NumberedUpTo(gops, n) && Suffix(left, gops)
    ensures NumberedUpTo(left, n)
  {
  }

  lemma NewToPast(past: seq<Frame>, f: Frame)
    requires IdsDiffer(past) && f.id !in GopIndex.Ids(past)
    ensures IdsDiffer(past + [f])
  {
    forall p | 0 <= p < |past| ensures past[p].id != f.id {
      assert past[p] in past;
    }
  }

  lemma PrefixSteady(past: seq<Frame>, f: Frame, captured: Frame -> nat)
    ensures (past + [f])[..|past|] == past
    ensures CapturedInOrder(past + [f], captured) ==> CapturedInOrder(past, captured)
    ensures NoKeyIsB(past + [f]) ==> NoKeyIsB(past)
  {
    forall p | 0 <= p < |past| ensures (past + [f])[p] == past[p] {
    }
    assert forall g :: g in past ==> g in past + [f];
  }

  lemma NewId(gops: seq<GopIndex.Gop>, index: map<nat, GopIndex.Gop>, n: nat)
    requires GopIndex.GopsIndexed(gops, index) && NumberedUpTo(gops, n)
    ensures n + 1 !in index
  {
    forall id | id in index ensures id <= n {
      assert GopIndex.Member(gops, index[id], id);
    }
  }
}
