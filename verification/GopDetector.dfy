/** The detector that cuts a stream of frames into groups of pictures. */
module GopDetectors {
  import opened Sequences
  import opened VideoFrames

  const PTS_WRAP: int := 0x2_0000_0000
  const MAX_RECENT := 10
  const FRAME_COUNT_THRESHOLD := 120

  /** A frame with the group and the position that the detector writes into it. */
  datatype Placed = Placed(frame: Frame, gopId: nat, position: nat)

  datatype Gop = Gop(
    id: nat, frames: seq<Placed>, startPts: int, endPts: int, duration: int,
    pFrameCount: nat, bFrameCount: nat, totalSize: nat, complete: bool, closed: bool)

  datatype State = State(current: Option<Gop>, gopCounter: nat, recentGops: seq<Gop>)

  function PtsDurationWithWrap(endPts: int, startPts: int): int {
    var d := endPts - startPts;
    if d < 0 then d + PTS_WRAP else d
  }

  /** The duration is the difference modulo 2^33 exactly when the two times are less than one wrap apart. */
  lemma DurationIsModular(endPts: int, startPts: int)
    ensures PtsDurationWithWrap(endPts, startPts) == (endPts - startPts) % PTS_WRAP <==> -PTS_WRAP <= endPts - startPts < PTS_WRAP
  {
    var d := endPts - startPts;
    if -PTS_WRAP <= d < 0 {
      assert (d + PTS_WRAP) / PTS_WRAP == 0;
    }
  }

  function Nanoseconds(pts: int): int { pts * 1000000 / 90 }

  // The detector on values.

  function Opened(id: nat, f: Frame): Gop {
    Gop(id, [Placed(f, id, 0)], f.pts, 0, 0, 0, 0, 0, false, false)
  }

  function Extended(g: Gop, f: Frame): Gop {
    g.(frames := g.frames + [Placed(f, g.id, |g.frames|)],
       pFrameCount := g.pFrameCount + if f.kind == P then 1 else 0,
       bFrameCount := g.bFrameCount + if f.kind == B then 1 else 0,
       totalSize := g.totalSize + f.size)
  }

  /** Half a second makes a group complete; two seconds or 120 frames also close it, though frames still join it. */
  function Checked(g: Gop): Gop
    requires g.frames != []
  {
    var ptsDuration := PtsDurationWithWrap(g.frames[|g.frames| - 1].frame.pts, g.frames[0].frame.pts);
    var g1 := if Nanoseconds(ptsDuration) >= 500_000_000 then g.(complete := true, duration := ptsDuration) else g;
    var g2 := if Nanoseconds(ptsDuration) >= 2_000_000_000 then g1.(closed := true) else g1;
    if |g.frames| >= FRAME_COUNT_THRESHOLD then
      g2.(complete := true, closed := true, duration := if g2.duration == 0 then ptsDuration else g2.duration)
    else g2
  }

  function Closed(g: Gop, nextKeyframePts: int): Gop {
    g.(endPts := nextKeyframePts, duration := PtsDurationWithWrap(nextKeyframePts, g.startPts), closed := true, complete := true)
  }

  function Trimmed(gops: seq<Gop>): seq<Gop> {
    if |gops| > MAX_RECENT then gops[1..] else gops
  }

  function AfterFrame(s: State, f: Frame): State
    requires s.current.Some? ==> s.current.value.frames != []
  {
    if IsKeyframe(f) then
      State(Some(Opened(s.gopCounter + 1, f)), s.gopCounter + 1,
            if s.current.Some? then Trimmed(s.recentGops + [Closed(s.current.value, f.pts)]) else s.recentGops)
    else if s.current.Some? then s.(current := Some(Checked(Extended(s.current.value, f))))
    else s
  }

  function ClosedBy(s: State, f: Frame): Option<Gop> {
    if IsKeyframe(f) && s.current.Some? then Some(Closed(s.current.value, f.pts)) else None
  }

  // The detector.

  class Detector {
    var currentGop: Option<Gop>
    var gopCounter: nat
    var recentGops: seq<Gop>

    function View(): State
      reads this
    {
      State(currentGop, gopCounter, recentGops)
    }

    ghost predicate Valid()
      reads this
    {
      currentGop.Some? ==> currentGop.value.frames != []
    }

    constructor ()
      ensures Valid() && View() == State(None, 0, [])
    {
      currentGop, gopCounter, recentGops := None, 0, [];
    }

    method ProcessFrame(frame: Frame) returns (closedGop: Option<Gop>)
      requires Valid()
      modifies this
      ensures Valid() && View() == AfterFrame(old(View()), frame)
      ensures closedGop == ClosedBy(old(View()), frame)
    {
      closedGop := None;
      if IsKeyframe(frame) {
        if currentGop.Some? {
          CloseCurrentGop(frame.pts);
          closedGop := currentGop;
        }
        gopCounter := gopCounter + 1;
        currentGop := Some(Gop(gopCounter, [Placed(frame, gopCounter, 0)], frame.pts, 0, 0, 0, 0, 0, false, false));
        return;
      }
      if currentGop.Some? {
        var gop := currentGop.value;
        gop := gop.(frames := gop.frames + [Placed(frame, gop.id, |gop.frames|)]);
        match frame.kind {
          case P => gop := gop.(pFrameCount := gop.pFrameCount + 1);
          case B => gop := gop.(bFrameCount := gop.bFrameCount + 1);
          case _ =>
        }
        currentGop := Some(gop.(totalSize := gop.totalSize + frame.size));
        CheckGopCompletion();
      }
    }

    method CloseCurrentGop(nextKeyframePts: int)
      requires Valid()
      modifies this
      ensures Valid() && gopCounter == old(gopCounter)
      ensures old(currentGop).None? ==> View() == old(View())
      ensures old(currentGop).Some? ==>
                currentGop == Some(Closed(old(currentGop.value), nextKeyframePts)) &&
                recentGops == Trimmed(old(recentGops) + [currentGop.value])
    {
      if currentGop.None? {
        return;
      }
      var gop := currentGop.value.(endPts := nextKeyframePts);
      if |gop.frames| > 0 {
        gop := gop.(duration := PtsDurationWithWrap(gop.endPts, gop.startPts));
      }
      currentGop := Some(gop.(closed := true, complete := true));
      recentGops := recentGops + [currentGop.value];
      if |recentGops| > MAX_RECENT {
        recentGops := recentGops[1..];
      }
    }

    method CheckGopCompletion()
      requires Valid()
      modifies this`currentGop
      ensures Valid()
      ensures currentGop == if old(currentGop).None? then None else Some(Checked(old(currentGop).value))
    {
      if currentGop.None? {
        return;
      }
      var gop := currentGop.value;
      var ptsDuration := PtsDurationWithWrap(gop.frames[|gop.frames| - 1].frame.pts, gop.frames[0].frame.pts);
      var temporalDuration := Nanoseconds(ptsDuration);
      if temporalDuration >= 500_000_000 {
        gop := gop.(complete := true, duration := ptsDuration);
      }
      if temporalDuration >= 2_000_000_000 {
        gop := gop.(complete := true, closed := true, duration := ptsDuration);
      }
      if |gop.frames| >= FRAME_COUNT_THRESHOLD {
        gop := gop.(complete := true, closed := true);
        if gop.duration == 0 {
          gop := gop.(duration := ptsDuration);
        }
      }
      currentGop := Some(gop);
    }
  }

  // Whole runs.

  function Last<T>(s: seq<T>): T
    requires s != []
  {
    s[|s| - 1]
  }

  /** The state of a new detector after `fs`, and the groups it has returned as closed. */
  datatype Trace = Trace(state: State, closed: seq<Gop>)

  function After(fs: seq<Frame>): (t: Trace)
    ensures t.state.current.Some? ==> t.state.current.value.frames != []
    decreases |fs|
  {
    if fs == [] then Trace(State(None, 0, []), [])
    else
      var t := After(fs[..|fs| - 1]);
      var c := ClosedBy(t.state, Last(fs));
      Trace(AfterFrame(t.state, Last(fs)), if c.Some? then t.closed + [c.value] else t.closed)
  }

  /** The stream from its first keyframe on. */
  function FromKeyframe(fs: seq<Frame>): seq<Frame>
    decreases |fs|
  {
    if fs == [] || IsKeyframe(fs[0]) then fs else FromKeyframe(fs[1..])
  }

  lemma {:induction false} FromKeyframeSnoc(fs: seq<Frame>, f: Frame)
    ensures FromKeyframe(fs + [f]) == if FromKeyframe(fs) != [] || IsKeyframe(f) then FromKeyframe(fs) + [f] else []
    decreases |fs|
  {
    if fs == [] {
      assert [] + [f] == [f] && [f][1..] == [];
    } else if !IsKeyframe(fs[0]) {
      assert (fs + [f])[1..] == fs[1..] + [f];
      FromKeyframeSnoc(fs[1..], f);
    }
  }

  function FramesOf(ps: seq<Placed>): (fs: seq<Frame>)
    ensures |fs| == |ps|
    decreases |ps|
  {
    if ps == [] then [] else FramesOf(ps[..|ps| - 1]) + [Last(ps).frame]
  }

  lemma FramesOfSnoc(ps: seq<Placed>, p: Placed)
    ensures FramesOf(ps + [p]) == FramesOf(ps) + [p.frame]
  {
    assert (ps + [p])[..|ps|] == ps;
  }

  /** All frames of the groups, in order. */
  function AllFrames(gops: seq<Gop>): seq<Frame>
    decreases |gops|
  {
    if gops == [] then [] else AllFrames(gops[..|gops| - 1]) + FramesOf(Last(gops).frames)
  }

  lemma AllFramesSnoc(gops: seq<Gop>, g: Gop)
    ensures AllFrames(gops + [g]) == AllFrames(gops) + FramesOf(g.frames)
  {
    assert (gops + [g])[..|gops|] == gops;
  }

  ghost predicate Numbered(g: Gop) {
    forall i :: 0 <= i < |g.frames| ==> g.frames[i].gopId == g.id && g.frames[i].position == i
  }

  ghost predicate OneKeyframe(g: Gop) {
    && g.frames != [] && IsKeyframe(g.frames[0].frame) && g.startPts == g.frames[0].frame.pts
    && forall i :: 1 <= i < |g.frames| ==> !IsKeyframe(g.frames[i].frame)
  }

  /** The size counts every frame but the keyframe. */
  ghost predicate SizedWithoutKeyframe(g: Gop) {
    g.frames != [] && g.totalSize + g.frames[0].frame.size == BytesIn(FramesOf(g.frames))
  }

  /** The frames behind the keyframe are counted by type. */
  ghost predicate CountsOthers(g: Gop) {
    && g.frames != []
    && g.pFrameCount == |Filter(IsP, FramesOf(g.frames)[1..])| && g.bFrameCount == |Filter(IsB, FramesOf(g.frames)[1..])|
  }

  ghost predicate GoodGop(g: Gop, id: nat) {
    g.id == id && Numbered(g) && OneKeyframe(g) && SizedWithoutKeyframe(g) && CountsOthers(g)
  }

  /** The closed groups are numbered from 1 on, and each ends where the next one starts. */
  ghost predicate GoodClosed(closed: seq<Gop>, next: int)
    decreases |closed|
  {
    closed != [] ==>
      && GoodGop(Last(closed), |closed|) && Last(closed).closed && Last(closed).complete
      && Last(closed).endPts == next && Last(closed).duration == PtsDurationWithWrap(next, Last(closed).startPts)
      && GoodClosed(closed[..|closed| - 1], Last(closed).startPts)
  }

  lemma GoodClosedSnoc(closed: seq<Gop>, g: Gop, next: int)
    requires GoodClosed(closed, g.startPts) && GoodGop(g, |closed| + 1) && g.closed && g.complete
    requires g.endPts == next && g.duration == PtsDurationWithWrap(next, g.startPts)
    ensures GoodClosed(closed + [g], next)
  {
    assert (closed + [g])[..|closed|] == closed;
  }

  lemma OpenedIsGood(id: nat, f: Frame)
    requires IsKeyframe(f)
    ensures GoodGop(Opened(id, f), id) && FramesOf(Opened(id, f).frames) == [f]
  {
    FramesOfSnoc([], Placed(f, id, 0));
    assert [] + [Placed(f, id, 0)] == [Placed(f, id, 0)] && FramesOf([]) + [f] == [f];
    assert BytesIn([f]) == f.size;
  }

  lemma CheckedKeeps(g: Gop)
    requires g.frames != []
    ensures var c := Checked(g);
            && c.id == g.id && c.frames == g.frames && c.startPts == g.startPts && c.totalSize == g.totalSize
            && c.pFrameCount == g.pFrameCount && c.bFrameCount == g.bFrameCount
  {
  }

  lemma ExtendedIsGood(g: Gop, f: Frame)
    requires GoodGop(g, g.id) && !IsKeyframe(f)
    ensures GoodGop(Extended(g, f), g.id) && FramesOf(Extended(g, f).frames) == FramesOf(g.frames) + [f]
  {
    FramesOfSnoc(g.frames, Placed(f, g.id, |g.frames|));
    ExtendedCounts(g, f);
    ExtendedIsPlaced(g, f);
  }

  lemma ExtendedIsPlaced(g: Gop, f: Frame)
    requires Numbered(g) && OneKeyframe(g) && !IsKeyframe(f)
    ensures Numbered(Extended(g, f)) && OneKeyframe(Extended(g, f))
  {
  }

  lemma ExtendedCounts(g: Gop, f: Frame)
    requires SizedWithoutKeyframe(g) && CountsOthers(g)
    ensures SizedWithoutKeyframe(Extended(g, f)) && CountsOthers(Extended(g, f))
  {
    var fs := FramesOf(g.frames);
    FramesOfSnoc(g.frames, Placed(f, g.id, |g.frames|));
    BytesSnoc(fs, f);
    assert (fs + [f])[1..] == fs[1..] + [f];
    FilterSnoc(IsP, fs[1..], f);
    FilterSnoc(IsB, fs[1..], f);
  }

  lemma JoinedIsGood(g: Gop, f: Frame)
    requires GoodGop(g, g.id) && !IsKeyframe(f)
    ensures var e := Checked(Extended(g, f));
            GoodGop(e, g.id) && e.startPts == g.startPts && FramesOf(e.frames) == FramesOf(g.frames) + [f]
  {
    ExtendedIsGood(g, f);
    CheckedKeeps(Extended(g, f));
  }

  /** The last ten of a sequence. */
  function LastTen(gops: seq<Gop>): seq<Gop> {
    if |gops| > MAX_RECENT then gops[|gops| - MAX_RECENT..] else gops
  }

  /** What holds of the closed groups and the open one, for the frames `fs` from the first keyframe on. */
  ghost predicate Open(closed: seq<Gop>, g: Gop, fs: seq<Frame>) {
    GoodGop(g, |closed| + 1) && GoodClosed(closed, g.startPts) && fs == AllFrames(closed) + FramesOf(g.frames)
  }

  /** What holds after every run. */
  ghost predicate Invariant(t: Trace, fs: seq<Frame>) {
    && t.state.gopCounter == |t.closed| + (if t.state.current.Some? then 1 else 0)
    && t.state.recentGops == LastTen(t.closed)
    && (if t.state.current.Some? then FromKeyframe(fs) != [] && Open(t.closed, t.state.current.value, FromKeyframe(fs))
        else t.closed == [] && FromKeyframe(fs) == [])
  }

  lemma FirstOpened(f: Frame)
    requires IsKeyframe(f)
    ensures Open([], Opened(1, f), [f])
  {
    OpenedIsGood(1, f);
    assert AllFrames([]) + [f] == [f];
  }

  /** A keyframe closes the open group and opens the next. */
  lemma NextOpened(closed: seq<Gop>, g: Gop, fs: seq<Frame>, f: Frame)
    requires Open(closed, g, fs) && IsKeyframe(f)
    ensures Open(closed + [Closed(g, f.pts)], Opened(|closed| + 2, f), fs + [f])
  {
    var c := Closed(g, f.pts);
    OpenedIsGood(|closed| + 2, f);
    assert GoodGop(c, |closed| + 1);
    GoodClosedSnoc(closed, c, f.pts);
    AllFramesSnoc(closed, c);
  }

  /** Any other frame joins the open group. */
  lemma Joined(closed: seq<Gop>, g: Gop, fs: seq<Frame>, f: Frame)
    requires Open(closed, g, fs) && !IsKeyframe(f)
    ensures Open(closed, Checked(Extended(g, f)), fs + [f])
  {
    JoinedIsGood(g, f);
    Associative(AllFrames(closed), FramesOf(g.frames), [f]);
  }

  lemma KeptTen(closed: seq<Gop>, g: Gop)
    ensures Trimmed(LastTen(closed) + [g]) == LastTen(closed + [g])
  {
  }

  lemma {:induction false} AlwaysInvariant(fs: seq<Frame>)
    ensures Invariant(After(fs), fs)
    decreases |fs|
  {
    if fs != [] {
      var before, f := fs[..|fs| - 1], Last(fs);
      AlwaysInvariant(before);
      assert before + [f] == fs;
      FromKeyframeSnoc(before, f);
      Step(After(before), before, f);
    }
  }

  lemma Step(t: Trace, fs: seq<Frame>, f: Frame)
    requires Invariant(t, fs) && (t.state.current.Some? ==> t.state.current.value.frames != [])
    requires FromKeyframe(fs + [f]) == if FromKeyframe(fs) != [] || IsKeyframe(f) then FromKeyframe(fs) + [f] else []
    ensures var c := ClosedBy(t.state, f);
            Invariant(Trace(AfterFrame(t.state, f), if c.Some? then t.closed + [c.value] else t.closed), fs + [f])
  {
    if t.state.current.None? {
      StepBefore(t, fs, f);
    } else if IsKeyframe(f) {
      StepKeyframe(t, t.state.current.value, fs, f);
    } else {
      Joined(t.closed, t.state.current.value, FromKeyframe(fs), f);
    }
  }

  lemma StepKeyframe(t: Trace, g: Gop, fs: seq<Frame>, f: Frame)
    requires Invariant(t, fs) && t.state.current == Some(g) && g.frames != [] && IsKeyframe(f)
    requires FromKeyframe(fs + [f]) == FromKeyframe(fs) + [f]
    ensures Invariant(Trace(AfterFrame(t.state, f), t.closed + [Closed(g, f.pts)]), fs + [f])
  {
    var next, closed := Opened(t.state.gopCounter + 1, f), t.closed + [Closed(g, f.pts)];
    NextOpened(t.closed, g, FromKeyframe(fs), f);
    KeptTen(t.closed, Closed(g, f.pts));
    assert AfterFrame(t.state, f) == State(Some(next), t.state.gopCounter + 1, LastTen(closed));
  }

  /** A step of a detector that has seen no keyframe. */
  lemma StepBefore(t: Trace, fs: seq<Frame>, f: Frame)
    requires Invariant(t, fs) && t.state.current.None?
    requires FromKeyframe(fs + [f]) == if IsKeyframe(f) then FromKeyframe(fs) + [f] else []
    ensures Invariant(Trace(AfterFrame(t.state, f), t.closed), fs + [f])
  {
    if IsKeyframe(f) {
      FirstOpened(f);
      assert [] + [f] == [f];
    }
  }

  // When the open group becomes complete and when it is closed.

  const HALF_SECOND := 500_000_000
  const TWO_SECONDS := 2_000_000_000

  /** With frame `i` the group has lasted for `span` nanoseconds, or has reached 120 frames. */
  ghost predicate Reached(g: Gop, i: nat, span: int)
    requires i < |g.frames|
  {
    Nanoseconds(PtsDurationWithWrap(g.frames[i].frame.pts, g.frames[0].frame.pts)) >= span || i + 1 >= FRAME_COUNT_THRESHOLD
  }

  ghost predicate EverReached(g: Gop, span: int) { exists i :: 1 <= i < |g.frames| && Reached(g, i, span) }

  /** The flags of the open group. */
  ghost predicate Flagged(g: Gop) {
    (g.complete <==> EverReached(g, HALF_SECOND)) && (g.closed <==> EverReached(g, TWO_SECONDS))
  }

  /** Ticks of the 90 kHz clock. */
  lemma ReachedInTicks(g: Gop, i: nat)
    requires i < |g.frames|
    ensures var ticks := PtsDurationWithWrap(g.frames[i].frame.pts, g.frames[0].frame.pts);
            && (Reached(g, i, HALF_SECOND) <==> ticks >= 45000 || i + 1 >= FRAME_COUNT_THRESHOLD)
            && (Reached(g, i, TWO_SECONDS) <==> ticks >= 180000 || i + 1 >= FRAME_COUNT_THRESHOLD)
  {
  }

  lemma JoinedIsFlagged(g: Gop, f: Frame)
    requires g.frames != [] && Flagged(g)
    ensures Flagged(Checked(Extended(g, f)))
  {
    var e, c := Extended(g, f), Checked(Extended(g, f));
    CheckedKeeps(e);
    var n := |g.frames|;
    ReachedLonger(g, f, c, HALF_SECOND);
    ReachedLonger(g, f, c, TWO_SECONDS);
    assert c.complete <==> g.complete || Reached(c, n, HALF_SECOND);
    assert c.closed <==> g.closed || Reached(c, n, TWO_SECONDS);
  }

  /** One frame more can only add to what has been reached. */
  lemma ReachedLonger(g: Gop, f: Frame, c: Gop, span: int)
    requires g.frames != [] && c.frames == g.frames + [Placed(f, g.id, |g.frames|)]
    ensures EverReached(c, span) <==> EverReached(g, span) || Reached(c, |g.frames|, span)
  {
    forall i | 0 <= i < |g.frames| ensures Reached(c, i, span) <==> Reached(g, i, span) {
    }
    if EverReached(g, span) {
      var i :| 1 <= i < |g.frames| && Reached(g, i, span);
      assert Reached(c, i, span);
    }
    if EverReached(c, span) && !Reached(c, |g.frames|, span) {
      var i :| 1 <= i < |c.frames| && Reached(c, i, span);
      assert Reached(g, i, span);
    }
  }

  /** After every run the open group is complete exactly when it has lasted half a second, or held 120 frames, with some
      frame behind its keyframe; and closed exactly when the same holds of two seconds. Later frames do not undo either. */
  lemma {:induction false} CompletedExactly(fs: seq<Frame>)
    ensures After(fs).state.current.Some? ==> Flagged(After(fs).state.current.value)
    decreases |fs|
  {
    if fs != [] {
      var before := fs[..|fs| - 1];
      CompletedExactly(before);
      var s := After(before).state;
      if !IsKeyframe(Last(fs)) && s.current.Some? {
        JoinedIsFlagged(s.current.value, Last(fs));
      }
    }
  }

  /** How long the group had lasted at frame `i`. */
  function SpanAt(g: Gop, i: nat): int
    requires i < |g.frames|
  {
    PtsDurationWithWrap(g.frames[i].frame.pts, g.frames[0].frame.pts)
  }

  predicate Noted(g: Gop, i: nat)
    requires i < |g.frames|
  {
    Nanoseconds(SpanAt(g, i)) >= HALF_SECOND
  }

  ghost predicate LastNotedAt(g: Gop, i: nat) {
    1 <= i < |g.frames| && Noted(g, i) && forall j :: i < j < |g.frames| ==> !Noted(g, j)
  }

  ghost predicate NoneNoted(g: Gop) { forall j :: 1 <= j < |g.frames| ==> !Noted(g, j) }

  /** The first frame from the 120th on at which the span is not zero. */
  ghost predicate FirstLateAt(g: Gop, i: nat) {
    FRAME_COUNT_THRESHOLD - 1 <= i < |g.frames| && SpanAt(g, i) != 0 && forall j :: FRAME_COUNT_THRESHOLD - 1 <= j < i ==> SpanAt(g, j) == 0
  }

  ghost predicate NoneLate(g: Gop) { forall j :: FRAME_COUNT_THRESHOLD - 1 <= j < |g.frames| ==> SpanAt(g, j) == 0 }

  /** The duration of the open group is its span at the last frame by which it had lasted half a second; without one, its span at
      the first frame from the 120th on at which that is not zero; and zero before. */
  ghost predicate Timed(g: Gop) {
    && (forall i: nat :: LastNotedAt(g, i) ==> g.duration == SpanAt(g, i))
    && (NoneNoted(g) ==> (forall i: nat :: FirstLateAt(g, i) ==> g.duration == SpanAt(g, i)) && (NoneLate(g) ==> g.duration == 0))
  }

  /** What the last frame does to the duration. */
  lemma LastTimes(g: Gop, f: Frame)
    requires g.frames != []
    ensures var c, n := Checked(Extended(g, f)), |g.frames|;
            && |c.frames| == n + 1 && (forall i :: 0 <= i < n ==> SpanAt(c, i) == SpanAt(g, i) && Noted(c, i) == Noted(g, i))
            && c.duration == if Noted(c, n) || (n + 1 >= FRAME_COUNT_THRESHOLD && g.duration == 0) then SpanAt(c, n) else g.duration
  {
    CheckedKeeps(Extended(g, f));
  }

  /** One group is the other with one frame more. */
  ghost predicate OneMoreFrame(g: Gop, c: Gop) {
    |c.frames| == |g.frames| + 1 && forall i :: 0 <= i < |g.frames| ==> SpanAt(c, i) == SpanAt(g, i) && Noted(c, i) == Noted(g, i)
  }

  lemma JoinedIsTimed(g: Gop, f: Frame)
    requires g.frames != [] && Timed(g)
    ensures Timed(Checked(Extended(g, f)))
  {
    var c, n := Checked(Extended(g, f)), |g.frames|;
    LastTimes(g, f);
    if Noted(c, n) {
    } else if k :| 1 <= k < n && Noted(g, k) {
      var i := LastNoted(g, k);
      StillNoted(g, c, i);
    } else {
      NeverNoted(g, c);
    }
  }

  lemma StillNoted(g: Gop, c: Gop, i: nat)
    requires Timed(g) && OneMoreFrame(g, c) && !Noted(c, |g.frames|) && LastNotedAt(g, i)
    requires c.duration == if |g.frames| + 1 >= FRAME_COUNT_THRESHOLD && g.duration == 0 then SpanAt(c, |g.frames|) else g.duration
    ensures Timed(c)
  {
    assert g.duration == SpanAt(g, i) != 0;
    assert LastNotedAt(c, i);
    assert !NoneNoted(c);
    forall k: nat | LastNotedAt(c, k) ensures k == i {
    }
  }

  lemma NeverNoted(g: Gop, c: Gop)
    requires g.frames != [] && Timed(g) && NoneNoted(g) && OneMoreFrame(g, c) && !Noted(c, |g.frames|)
    requires c.duration == if |g.frames| + 1 >= FRAME_COUNT_THRESHOLD && g.duration == 0 then SpanAt(c, |g.frames|) else g.duration
    ensures Timed(c)
  {
    var n := |g.frames|;
    forall j | 1 <= j < |c.frames| ensures !Noted(c, j) {
      if j < n {
        assert Noted(c, j) == Noted(g, j);
      }
    }
    if NoneLate(g) {
      NeverLate(g, c);
    } else {
      var i := FirstLate(g);
      StillLate(g, c, i);
    }
  }

  lemma NeverLate(g: Gop, c: Gop)
    requires OneMoreFrame(g, c) && NoneLate(g)
    requires c.duration == if |g.frames| + 1 >= FRAME_COUNT_THRESHOLD then SpanAt(c, |g.frames|) else 0
    ensures forall i: nat :: FirstLateAt(c, i) ==> c.duration == SpanAt(c, i)
    ensures NoneLate(c) ==> c.duration == 0
  {
    forall j | FRAME_COUNT_THRESHOLD - 1 <= j < |g.frames| ensures SpanAt(c, j) == 0 {
      assert SpanAt(c, j) == SpanAt(g, j);
    }
  }

  lemma StillLate(g: Gop, c: Gop, i: nat)
    requires OneMoreFrame(g, c) && FirstLateAt(g, i) && c.duration == SpanAt(g, i)
    ensures !NoneLate(c) && forall k: nat :: FirstLateAt(c, k) ==> c.duration == SpanAt(c, k)
  {
    assert SpanAt(c, i) == SpanAt(g, i) != 0;
    forall k | FRAME_COUNT_THRESHOLD - 1 <= k < i ensures SpanAt(c, k) == 0 {
      assert SpanAt(c, k) == SpanAt(g, k);
    }
  }

  lemma FirstLate(g: Gop) returns (i: nat)
    requires !NoneLate(g)
    ensures FirstLateAt(g, i)
  {
    i := FRAME_COUNT_THRESHOLD - 1;
    while SpanAt(g, i) == 0
      invariant FRAME_COUNT_THRESHOLD - 1 <= i < |g.frames| && forall j :: FRAME_COUNT_THRESHOLD - 1 <= j < i ==> SpanAt(g, j) == 0
      decreases |g.frames| - i
    {
      if i + 1 == |g.frames| {
        assert NoneLate(g);
      }
      i := i + 1;
    }
  }

  lemma LastNoted(g: Gop, k: nat) returns (i: nat)
    requires 1 <= k < |g.frames| && Noted(g, k)
    ensures LastNotedAt(g, i)
  {
    i := |g.frames| - 1;
    while !Noted(g, i)
      invariant k <= i < |g.frames| && forall j :: i < j < |g.frames| ==> !Noted(g, j)
      decreases i
    {
      i := i - 1;
    }
  }

  /** So it is after every run. */
  lemma {:induction false} TimedExactly(fs: seq<Frame>)
    ensures After(fs).state.current.Some? ==> Timed(After(fs).state.current.value)
    decreases |fs|
  {
    if fs != [] {
      var before := fs[..|fs| - 1];
      TimedExactly(before);
      var s := After(before).state;
      if !IsKeyframe(Last(fs)) && s.current.Some? {
        JoinedIsTimed(s.current.value, Last(fs));
      }
    }
  }

  /** All groups of a run, the open one last. */
  function Gops(t: Trace): seq<Gop> {
    if t.state.current.Some? then t.closed + [t.state.current.value] else t.closed
  }

  /** The groups partition the frames from the first keyframe on, and are numbered 1, 2, 3, ... */
  lemma Partition(fs: seq<Frame>)
    ensures AllFrames(Gops(After(fs))) == FromKeyframe(fs)
    ensures forall i :: 0 <= i < |Gops(After(fs))| ==> GoodGop(Gops(After(fs))[i], i + 1)
  {
    AlwaysInvariant(fs);
    var t := After(fs);
    if t.state.current.Some? {
      AllFramesSnoc(t.closed, t.state.current.value);
      EachIsGood(t.closed, t.state.current.value.startPts);
    }
  }

  lemma {:induction false} EachIsGood(closed: seq<Gop>, next: int)
    requires GoodClosed(closed, next)
    ensures forall i :: 0 <= i < |closed| ==> GoodGop(closed[i], i + 1)
    decreases |closed|
  {
    if closed != [] {
      var front := closed[..|closed| - 1];
      EachIsGood(front, Last(closed).startPts);
      forall i | 0 <= i < |front| ensures closed[i] == front[i] {
      }
    }
  }

  lemma {:induction false} EachLasts(closed: seq<Gop>, next: int, i: nat)
    requires GoodClosed(closed, next) && i < |closed|
    ensures closed[i].duration == PtsDurationWithWrap(if i + 1 < |closed| then closed[i + 1].startPts else next, closed[i].startPts)
    decreases |closed|
  {
    var front := closed[..|closed| - 1];
    if i < |front| {
      EachLasts(front, Last(closed).startPts, i);
    }
  }

  /** A closed group lasts until the next one starts, whatever was noted while it was open. */
  lemma Durations(fs: seq<Frame>, i: nat)
    requires i + 1 < |Gops(After(fs))|
    ensures var gops := Gops(After(fs));
            gops[i].duration == PtsDurationWithWrap(gops[i + 1].startPts, gops[i].startPts)
  {
    AlwaysInvariant(fs);
    var t := After(fs);
    EachLasts(t.closed, t.state.current.value.startPts, i);
  }

  /** The recorded size of a group is the sum of its frame sizes exactly when its keyframe is empty. */
  lemma SizeOmitsKeyframe(fs: seq<Frame>, i: nat)
    requires i < |Gops(After(fs))|
    ensures var g := Gops(After(fs))[i];
            g.frames != [] && (g.totalSize == BytesIn(FramesOf(g.frames)) <==> g.frames[0].frame.size == 0)
  {
    Partition(fs);
  }
}
