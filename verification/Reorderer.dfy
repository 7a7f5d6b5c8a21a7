/** The B-frame reorderer: a binary min-heap on decode time, a release policy, and a filter on the output order. */
module Reorderer {
  import opened Sequences

  datatype FrameType = I | IDR | P | B | Other

  datatype Frame = Frame(id: nat, kind: FrameType, pts: int, dts: int, captureTime: int)

  // ---- The heap (the sift operations of container/heap) --------------------------------------------------------

  function Parent(i: nat): nat
    requires i > 0
  {
    (i - 1) / 2
  }

  predicate Heap(h: seq<Frame>) { forall i :: 0 < i < |h| ==> h[Parent(i)].dts <= h[i].dts }

  /** The heap order holds except between `j` and its parent. */
  predicate HeapBut(h: seq<Frame>, j: nat) {
    && (forall i :: 0 < i < |h| && i != j ==> h[Parent(i)].dts <= h[i].dts)
    && (j > 0 ==> forall i :: 0 < i < |h| && Parent(i) == j < |h| ==> h[Parent(j)].dts <= h[i].dts)
  }

  /** The heap order holds except between `j` and its children. */
  predicate HeapAbove(h: seq<Frame>, j: nat) {
    && (forall i :: 0 < i < |h| && Parent(i) != j ==> h[Parent(i)].dts <= h[i].dts)
    && (j > 0 ==> forall i :: 0 < i < |h| && Parent(i) == j < |h| ==> h[Parent(j)].dts <= h[i].dts)
  }

  function Swap(h: seq<Frame>, i: nat, j: nat): (r: seq<Frame>)
    requires i < |h| && j < |h|
    ensures |r| == |h| && multiset(r) == multiset(h)
  {
    h[i := h[j]][j := h[i]]
  }

  lemma SwapUp(h: seq<Frame>, j: nat)
    requires 0 < j < |h| && HeapBut(h, j) && h[j].dts < h[Parent(j)].dts
    ensures HeapBut(Swap(h, Parent(j), j), Parent(j))
  {
    var i := Parent(j);
    var r := Swap(h, i, j);
    forall k | 0 < k < |r| && k != i ensures r[Parent(k)].dts <= r[k].dts {
      if k == j || Parent(k) == i || Parent(k) == j {
        assert r[i] == h[j] && r[j] == h[i];
      }
    }
  }

  lemma SwapDown(h: seq<Frame>, i: nat, j: nat)
    requires 0 < j < |h| && i == Parent(j) && HeapAbove(h, i) && h[j].dts < h[i].dts
    requires forall k :: 0 < k < |h| && Parent(k) == i ==> h[j].dts <= h[k].dts
    ensures HeapAbove(Swap(h, i, j), j)
  {
    var r := Swap(h, i, j);
    forall k | 0 < k < |r| && Parent(k) != j ensures r[Parent(k)].dts <= r[k].dts {
      if Parent(k) == i {
        assert r[i] == h[j];
      } else if k == i {
        assert r[k] == h[j];
      }
    }
  }

  method SiftUp(h: seq<Frame>, start: nat) returns (r: seq<Frame>)
    requires start < |h| && HeapBut(h, start)
    ensures Heap(r) && multiset(r) == multiset(h)
  {
    r := h;
    var j: nat := start;
    while j > 0 && r[j].dts < r[Parent(j)].dts
      invariant j < |r| == |h| && HeapBut(r, j) && multiset(r) == multiset(h)
    {
      var i := Parent(j);
      SwapUp(r, j);
      r := Swap(r, i, j);
      j := i;
    }
  }

  /** The child with the lower decode time, the left one on a tie. */
  function LowerChild(h: seq<Frame>, i: nat): (j: nat)
    requires 2 * i + 1 < |h|
    ensures 0 < j < |h| && Parent(j) == i && forall k :: 0 < k < |h| && Parent(k) == i ==> h[j].dts <= h[k].dts
  {
    if 2 * i + 2 < |h| && h[2 * i + 2].dts < h[2 * i + 1].dts then 2 * i + 2 else 2 * i + 1
  }

  lemma Settled(h: seq<Frame>, i: nat)
    requires HeapAbove(h, i) && (2 * i + 1 < |h| ==> h[i].dts <= h[LowerChild(h, i)].dts)
    ensures Heap(h)
  {
    forall k | 0 < k < |h| ensures h[Parent(k)].dts <= h[k].dts {
      if Parent(k) == i {
        assert 2 * i + 1 < |h|;
      }
    }
  }

  method SiftDown(h: seq<Frame>, start: nat) returns (r: seq<Frame>)
    requires HeapAbove(h, start)
    ensures Heap(r) && multiset(r) == multiset(h)
  {
    r := h;
    var i := start;
    while 2 * i + 1 < |r| && r[LowerChild(r, i)].dts < r[i].dts
      invariant |r| == |h| && HeapAbove(r, i) && multiset(r) == multiset(h)
      decreases |r| - i
    {
      var j := LowerChild(r, i);
      SwapDown(r, i, j);
      r := Swap(r, i, j);
      i := j;
    }
    Settled(r, i);
  }

  method Push(h: seq<Frame>, f: Frame) returns (r: seq<Frame>)
    requires Heap(h)
    ensures Heap(r) && multiset(r) == multiset(h) + multiset{f}
  {
    r := SiftUp(h + [f], |h|);
  }

  lemma {:induction false} RootIsLeast(h: seq<Frame>, i: nat)
    requires Heap(h) && i < |h|
    ensures h[0].dts <= h[i].dts
  {
    if i > 0 {
      RootIsLeast(h, Parent(i));
    }
  }

  method Pop(h: seq<Frame>) returns (least: Frame, r: seq<Frame>)
    requires Heap(h) && h != []
    ensures least == h[0] && Heap(r) && multiset(h) == multiset(r) + multiset{least}
    ensures |r| == |h| - 1
    ensures forall x :: x in r ==> least.dts <= x.dts && x in h
  {
    var n := |h| - 1;
    least := h[0];
    var swapped := Swap(h, 0, n);
    assert swapped == swapped[..n] + [least];
    r := SiftDown(swapped[..n], 0);
    assert |multiset(r)| == |multiset(swapped[..n])|;
    forall x | x in r ensures least.dts <= x.dts && x in h {
      assert x in multiset(r) && x in multiset(h);
      var i :| 0 <= i < |h| && h[i] == x;
      RootIsLeast(h, i);
    }
  }

  /** The smaller of slots 1 and 2, as the release policy looks it up. */
  function Second(h: seq<Frame>): Frame
    requires |h| > 1
  {
    if |h| > 2 && h[2].dts < h[1].dts then h[2] else h[1]
  }

  /** It has the second-smallest decode time. */
  lemma {:induction false} SecondIsLeastOfRest(h: seq<Frame>, i: nat)
    requires Heap(h) && 1 <= i < |h|
    ensures Second(h).dts <= h[i].dts
  {
    if i > 2 {
      SecondIsLeastOfRest(h, Parent(i));
    }
  }

  // ---- The release policy -----------------------------------------------------------------------------------------

  function EstimatedDuration(first: Frame, second: Frame): int {
    var diff := second.dts - first.dts;
    if diff <= 0 || diff > 10000 then 3000 else diff
  }

  datatype Policy = Policy(maxReorderDepth: nat, maxDelay: int)

  /** Whether the frame with the lowest decode time may leave; a base time of zero means that none is set. */
  predicate ShouldOutput(policy: Policy, h: seq<Frame>, baseTime: int, now: int)
    requires h != []
  {
    var next := h[0];
    || |h| > policy.maxReorderDepth
    || (baseTime != 0 && now - next.captureTime > policy.maxDelay)
    || |h| >= policy.maxReorderDepth
    || next.kind == IDR
    || (next.kind == I && |h| > 1)
    || (next.kind == P && |h| > 1 &&
        (var second := Second(h);
         || ((second.kind == I || second.kind == P) && second.dts - next.dts > 2 * EstimatedDuration(next, second))
         || |h| >= (policy.maxReorderDepth + 1) / 2))
  }

  /** The rule "more than twice the usual frame duration" compares a gap with itself, so it comes down to a fixed gap. */
  lemma GapRule(first: Frame, second: Frame)
    ensures second.dts - first.dts > 2 * EstimatedDuration(first, second) <==> second.dts - first.dts > 10000
  {
  }

  // ---- The order filter -------------------------------------------------------------------------------------------

  const HALF_WRAP := 0x1_0000_0000           // half of the 33-bit timestamp range
  const MAX_REASONABLE_JUMP := 90000 * 10    // ten seconds

  /** The last output timestamps; -1 stands for none. */
  datatype Marks = Marks(pts: int, dts: int)

  const NO_MARKS := Marks(-1, -1)

  /** Whether the frame may be output, and the marks afterwards: the check itself resets them on a stream reset. */
  function Judge(m: Marks, f: Frame): (bool, Marks) {
    if m.pts < 0 then (true, m)
    else if f.dts < m.dts then
      var back := m.dts - f.dts;
      if back > HALF_WRAP then (true, m)
      else if back > MAX_REASONABLE_JUMP then (true, NO_MARKS)
      else (false, m)
    else if f.kind != B && f.pts < m.pts then
      var back := m.pts - f.pts;
      if back > HALF_WRAP then (true, m)
      else if back > MAX_REASONABLE_JUMP then (true, NO_MARKS)
      else (false, m)
    else (true, m)
  }

  function Updated(m: Marks, f: Frame): Marks { Marks(if f.kind != B then f.pts else m.pts, f.dts) }

  // ---- What the output of a whole run looks like ----------------------------------------------------------------

  /** The PTS of the last frame that is not a B-frame, or -1. */
  function Anchor(out: seq<Frame>): int {
    if out == [] then -1
    else if out[|out| - 1].kind != B then out[|out| - 1].pts
    else Anchor(out[..|out| - 1])
  }

  /** A step back that the filter takes for a reset: by more than ten seconds and at most half the timestamp range. */
  predicate Far(back: int) { MAX_REASONABLE_JUMP < back <= HALF_WRAP }

  /** Output `i` is taken for a stream reset: it steps back that far in DTS from its predecessor, or, where DTS does not step
      back and it is no B-frame, in PTS from the last frame that is not one. */
  predicate Reset(out: seq<Frame>, i: nat)
    requires 0 < i < |out|
  {
    var back := out[i - 1].dts - out[i].dts;
    if back > 0 then Far(back) else out[i].kind != B && Far(Anchor(out[..i]) - out[i].pts)
  }

  /** The outputs behind `k` up to `j` are no resets. */
  predicate NoReset(out: seq<Frame>, k: nat, j: nat)
    requires j < |out|
  {
    forall i :: k < i <= j ==> !Reset(out, i)
  }

  /** Output `j` wraps around in DTS: it steps back by more than half the timestamp range. */
  predicate Wraps(out: seq<Frame>, j: nat)
    requires 0 < j < |out|
  {
    out[j - 1].dts - out[j].dts > HALF_WRAP
  }

  /** Output `j` wraps around, or is at or after its predecessor in DTS and, unless it is a B-frame, at or after the last
      frame that is not one in PTS, where PTS may wrap around by itself. */
  predicate InPlace(out: seq<Frame>, j: nat)
    requires 0 < j < |out|
  {
    || Wraps(out, j)
    || (&& out[j - 1].dts <= out[j].dts
        && (out[j].kind != B ==> Anchor(out[..j]) <= out[j].pts || Anchor(out[..j]) - out[j].pts > HALF_WRAP))
  }

  /** From a frame that is not a B-frame on, and up to the next stream reset, every output is in place. */
  ghost predicate Ordered(out: seq<Frame>) {
    forall k, j :: 0 <= k < j < |out| && out[k].kind != B && NoReset(out, k, j) ==> InPlace(out, j)
  }

  /** The marks are those of the last outputs, and are in force after any frame that is not a B-frame until a reset. */
  ghost predicate MarksOf(m: Marks, out: seq<Frame>) {
    && (out != [] ==> m.dts == out[|out| - 1].dts)
    && (forall k :: 0 <= k < |out| && out[k].kind != B && NoReset(out, k, |out| - 1) ==> m.pts == Anchor(out))
    && (forall f :: f in out ==> f.pts >= 0)
  }

  lemma {:induction false} AnchorIsSet(out: seq<Frame>, k: nat)
    requires k < |out| && out[k].kind != B && forall f :: f in out ==> f.pts >= 0
    ensures Anchor(out) >= 0
  {
    var n := |out| - 1;
    if out[n].kind != B {
      assert out[n] in out;
    } else {
      assert out[..n][k] == out[k];
      AnchorIsSet(out[..n], k);
    }
  }

  /** With the marks in force, a frame is accepted and leaves them exactly if it is in place, and is taken for a reset exactly
      if it is accepted and clears them. */
  lemma JudgedExactly(m: Marks, out: seq<Frame>, f: Frame, k: nat)
    requires MarksOf(m, out) && k < |out| && out[k].kind != B && NoReset(out, k, |out| - 1)
    ensures m.pts == Anchor(out) >= 0
    ensures Judge(m, f) == (true, m) <==> InPlace(out + [f], |out|)
    ensures Judge(m, f) == (true, NO_MARKS) <==> Reset(out + [f], |out|)
  {
    AnchorIsSet(out, k);
    assert (out + [f])[..|out|] == out;
  }

  lemma AcceptKeepsOrdered(m: Marks, out: seq<Frame>, f: Frame)
    requires MarksOf(m, out) && Ordered(out) && Judge(m, f).0
    ensures Ordered(out + [f])
  {
    var longer, n := out + [f], |out|;
    forall k, j | 0 <= k < j < |longer| && longer[k].kind != B && NoReset(longer, k, j)
      ensures InPlace(longer, j)
    {
      if j == n {
        NoResetPrefix(out, f, k, n - 1);
        JudgedExactly(m, out, f, k);
      } else {
        NoResetPrefix(out, f, k, j);
        assert InPlace(out, j);
        assert longer[..j] == out[..j];
      }
    }
  }

  lemma AcceptKeepsMarks(m: Marks, out: seq<Frame>, f: Frame)
    requires MarksOf(m, out) && f.pts >= 0 && Judge(m, f).0
    ensures MarksOf(Updated(Judge(m, f).1, f), out + [f])
  {
    var longer, n := out + [f], |out|;
    assert longer[..n] == out;
    forall k | 0 <= k < |longer| && longer[k].kind != B && NoReset(longer, k, n)
      ensures Updated(Judge(m, f).1, f).pts == Anchor(longer)
    {
      if k < n {
        NoResetPrefix(out, f, k, n - 1);
        JudgedExactly(m, out, f, k);
      }
    }
  }

  /** The marks that a run of outputs leaves. */
  function Replay(out: seq<Frame>): Marks {
    if out == [] then NO_MARKS
    else
      var n := |out| - 1;
      Updated(Judge(Replay(out[..n]), out[n]).1, out[n])
  }

  /** Every output passed the filter when its turn came. */
  predicate Accepted(out: seq<Frame>) {
    out == [] ||
    var n := |out| - 1;
    Accepted(out[..n]) && Judge(Replay(out[..n]), out[n]).0
  }

  ghost predicate Stamped(out: seq<Frame>) { forall f :: f in out ==> f.pts >= 0 }

  /** So the output of every run of frames with timestamps is in order; a negative mark stands for no output at all. */
  lemma {:induction false} AcceptedIsOrdered(out: seq<Frame>)
    requires Accepted(out) && Stamped(out)
    ensures Ordered(out) && MarksOf(Replay(out), out)
  {
    if out != [] {
      var n := |out| - 1;
      AcceptedIsOrdered(out[..n]);
      AcceptKeepsOrdered(Replay(out[..n]), out[..n], out[n]);
      AcceptKeepsMarks(Replay(out[..n]), out[..n], out[n]);
      assert out == out[..n] + [out[n]];
    }
  }

  lemma InOrderIfStamped(out: seq<Frame>)
    requires Accepted(out)
    ensures Stamped(out) ==> Ordered(out)
  {
    if Stamped(out) {
      AcceptedIsOrdered(out);
    }
  }

  lemma NoResetPrefix(out: seq<Frame>, f: Frame, k: nat, j: nat)
    requires j < |out|
    ensures NoReset(out + [f], k, j) == NoReset(out, k, j)
  {
    forall i | k < i <= j ensures Reset(out + [f], i) == Reset(out, i) {
      assert (out + [f])[..i] == out[..i];
    }
  }

  /** How often DTS wraps around among the outputs behind `i` up to `j`. */
  function Wraparounds(out: seq<Frame>, i: nat, j: nat): nat
    requires i <= j < |out|
    decreases j
  {
    if i == j then 0 else Wraparounds(out, i, j - 1) + if Wraps(out, j) then 1 else 0
  }

  ghost predicate Fits33Bits(out: seq<Frame>) { forall f :: f in out ==> 0 <= f.dts < 2 * HALF_WRAP }

  /** Between resets the decode times, with the wraparounds counted, never fall over any distance. */
  lemma {:induction false} UnwrappedIsMonotone(out: seq<Frame>, k: nat, i: nat, j: nat)
    requires Ordered(out) && Fits33Bits(out)
    requires k <= i <= j < |out| && out[k].kind != B && NoReset(out, k, j)
    ensures out[i].dts <= out[j].dts + Wraparounds(out, i, j) * (2 * HALF_WRAP)
    decreases j
  {
    if i < j {
      assert NoReset(out, k, j - 1);
      UnwrappedIsMonotone(out, k, i, j - 1);
      assert InPlace(out, j);
      assert out[j] in out && out[j - 1] in out;
    }
  }

  /** So without a wraparound they do not fall, whatever the range of the timestamps. */
  lemma {:induction false} SmoothIsMonotone(out: seq<Frame>, k: nat, i: nat, j: nat)
    requires Ordered(out) && k <= i <= j < |out| && out[k].kind != B && NoReset(out, k, j) && Wraparounds(out, i, j) == 0
    ensures out[i].dts <= out[j].dts
    decreases j
  {
    if i < j {
      assert NoReset(out, k, j - 1);
      SmoothIsMonotone(out, k, i, j - 1);
      assert InPlace(out, j);
    }
  }

  // ---- What one call releases ----------------------------------------------------------------------------------------

  /** The frames judged one after the other: those output, those refused, and the marks at the end. */
  function JudgeAll(m: Marks, fs: seq<Frame>): (seq<Frame>, seq<Frame>, Marks)
    decreases |fs|
  {
    if fs == [] then ([], [], m)
    else
      var f := fs[|fs| - 1];
      var (output, refused, before) := JudgeAll(m, fs[..|fs| - 1]);
      var (ok, after) := Judge(before, f);
      if ok then (output + [f], refused, Updated(after, f)) else (output, refused + [f], before)
  }

  lemma JudgeNext(m: Marks, fs: seq<Frame>, f: Frame)
    ensures var (output, refused, before) := JudgeAll(m, fs);
            var (ok, after) := Judge(before, f);
            JudgeAll(m, fs + [f]) == if ok then (output + [f], refused, Updated(after, f)) else (output, refused + [f], before)
  {
    assert (fs + [f])[..|fs|] == fs;
  }

  /** The heaps that a call looks at, each the one before less its root. */
  ghost predicate Popped(heaps: seq<seq<Frame>>) {
    forall k :: 0 <= k < |heaps| - 1 ==> heaps[k] != [] && Heap(heaps[k]) && multiset(heaps[k]) == multiset(heaps[k + 1]) + multiset{heaps[k][0]}
  }

  function Roots(heaps: seq<seq<Frame>>): seq<Frame>
    requires forall k :: 0 <= k < |heaps| - 1 ==> heaps[k] != []
  {
    seq(if heaps == [] then 0 else |heaps| - 1, k requires 0 <= k < |heaps| - 1 => heaps[k][0])
  }

  /** At every look but the last the root was due. */
  ghost predicate AllDue(policy: Policy, heaps: seq<seq<Frame>>, baseTime: int, clock: nat -> int) {
    forall k :: 0 <= k < |heaps| - 1 ==> heaps[k] != [] && ShouldOutput(policy, heaps[k], baseTime, clock(k))
  }

  lemma LookNext(heaps: seq<seq<Frame>>, next: seq<Frame>)
    requires heaps != [] && Popped(heaps)
    requires var last := heaps[|heaps| - 1]; last != [] && Heap(last) && multiset(last) == multiset(next) + multiset{last[0]}
    ensures Popped(heaps + [next]) && Roots(heaps + [next]) == Roots(heaps) + [heaps[|heaps| - 1][0]]
  {
  }

  predicate NonDecreasing(s: seq<Frame>) { forall i, j :: 0 <= i < j < |s| ==> s[i].dts <= s[j].dts }

  /** The roots come off in the order of their decode times, before all that is left. */
  lemma {:induction false} RootsInOrder(heaps: seq<seq<Frame>>)
    requires heaps != [] && Popped(heaps)
    ensures var roots, last := Roots(heaps), heaps[|heaps| - 1];
            && NonDecreasing(roots) && multiset(heaps[0]) == multiset(roots) + multiset(last)
            && forall x, y :: x in roots && y in last ==> x.dts <= y.dts
    decreases |heaps|
  {
    if |heaps| > 1 {
      var n := |heaps| - 1;
      PoppedFront(heaps);
      RootsInOrder(heaps[..n]);
      RootNext(Roots(heaps[..n]), heaps[n - 1], heaps[n]);
    }
  }

  lemma PoppedFront(heaps: seq<seq<Frame>>)
    requires |heaps| > 1 && Popped(heaps)
    ensures var n := |heaps| - 1;
            && Popped(heaps[..n]) && heaps[n - 1] != [] && Heap(heaps[n - 1])
            && multiset(heaps[n - 1]) == multiset(heaps[n]) + multiset{heaps[n - 1][0]}
            && Roots(heaps) == Roots(heaps[..n]) + [heaps[n - 1][0]]
  {
    var n := |heaps| - 1;
    assert forall k :: 0 <= k < n ==> heaps[..n][k] == heaps[k];
  }

  lemma RootNext(roots: seq<Frame>, before: seq<Frame>, after: seq<Frame>)
    requires NonDecreasing(roots) && forall x, y :: x in roots && y in before ==> x.dts <= y.dts
    requires before != [] && Heap(before) && multiset(before) == multiset(after) + multiset{before[0]}
    ensures NonDecreasing(roots + [before[0]])
    ensures forall x, y :: x in roots + [before[0]] && y in after ==> x.dts <= y.dts
    ensures multiset(roots) + multiset(before) == multiset(roots + [before[0]]) + multiset(after)
  {
    RootBefore(before, after);
    assert forall i :: 0 <= i < |roots| ==> roots[i] in roots;
  }

  lemma RootBefore(before: seq<Frame>, after: seq<Frame>)
    requires before != [] && Heap(before) && multiset(before) == multiset(after) + multiset{before[0]}
    ensures forall y :: y in after ==> before[0].dts <= y.dts && y in before
    ensures before[0] in before
  {
    forall y | y in after ensures before[0].dts <= y.dts && y in before {
      assert y in multiset(after) && y in multiset(before);
      var i :| 0 <= i < |before| && before[i] == y;
      RootIsLeast(before, i);
    }
  }

  /** Judging shares the frames out and keeps their order. */
  lemma {:induction false} JudgedInOrder(m: Marks, fs: seq<Frame>)
    requires NonDecreasing(fs)
    ensures var (output, refused, _) := JudgeAll(m, fs);
            && NonDecreasing(output) && multiset(fs) == multiset(output) + multiset(refused)
            && forall x :: x in output ==> x in fs
    decreases |fs|
  {
    if fs != [] {
      var front, f := fs[..|fs| - 1], fs[|fs| - 1];
      JudgedInOrder(m, front);
      assert fs == front + [f];
      assert forall x :: x in front ==> x.dts <= f.dts;
    }
  }

  lemma ReleasedInOrder(m: Marks, first: seq<Frame>, heaps: seq<seq<Frame>>, left: seq<Frame>, output: seq<Frame>, refused: seq<Frame>, after: Marks)
    requires heaps != [] && heaps[0] == first && heaps[|heaps| - 1] == left && Popped(heaps)
    requires (output, refused, after) == JudgeAll(m, Roots(heaps))
    ensures NonDecreasing(output) && multiset(first) == multiset(output) + multiset(refused) + multiset(left)
  {
    RootsInOrder(heaps);
    JudgedInOrder(m, Roots(heaps));
  }

  lemma DueNext(policy: Policy, heaps: seq<seq<Frame>>, next: seq<Frame>, baseTime: int, clock: nat -> int)
    requires AllDue(policy, heaps, baseTime, clock) && heaps != []
    requires var n := |heaps| - 1; heaps[n] != [] && ShouldOutput(policy, heaps[n], baseTime, clock(n))
    ensures AllDue(policy, heaps + [next], baseTime, clock)
  {
    var more := heaps + [next];
    forall k | 0 <= k < |more| - 1 ensures more[k] != [] && ShouldOutput(policy, more[k], baseTime, clock(k)) {
      assert more[k] == heaps[k];
    }
  }

  /** A frame that is alone in the buffer is due only by its age or as an IDR frame, or if no more than one is ever kept. */
  lemma LoneFrame(policy: Policy, f: Frame, baseTime: int, now: int)
    ensures ShouldOutput(policy, [f], baseTime, now) <==>
            policy.maxReorderDepth <= 1 || (baseTime != 0 && now - f.captureTime > policy.maxDelay) || f.kind == IDR
  {
  }

  /** Among others, and before the depth or the delay forces it out: an I or IDR frame is due at once, a P frame when half the
      depth is reached or the next frame is an I or P frame more than 10000 ticks later, and any other frame is not. */
  lemma DueExactly(policy: Policy, h: seq<Frame>, baseTime: int, now: int)
    requires 1 < |h| < policy.maxReorderDepth && (baseTime == 0 || now - h[0].captureTime <= policy.maxDelay)
    ensures ShouldOutput(policy, h, baseTime, now) <==>
            match h[0].kind
            case IDR | I => true
            case P => |h| >= (policy.maxReorderDepth + 1) / 2 || (Second(h).kind in {I, P} && Second(h).dts - h[0].dts > 10000)
            case _ => false
  {
    GapRule(h[0], Second(h));
  }

  /** A full buffer, and a root that is too old, are always due. */
  lemma DueAnyway(policy: Policy, h: seq<Frame>, baseTime: int, now: int)
    requires h != [] && (|h| >= policy.maxReorderDepth || (baseTime != 0 && now - h[0].captureTime > policy.maxDelay))
    ensures ShouldOutput(policy, h, baseTime, now)
  {
  }

  /** Until the first frame that is not a B-frame everything passes the filter. */
  lemma {:induction false} UnanchoredPasses(out: seq<Frame>, f: Frame)
    requires forall x :: x in out ==> x.kind == B
    ensures Judge(Replay(out), f) == (true, Replay(out)) && Replay(out).pts == -1
    decreases |out|
  {
    if out != [] {
      var n := |out| - 1;
      assert out[n] in out;
      UnanchoredPasses(out[..n], out[n]);
    }
  }

  // ---- The reorderer ------------------------------------------------------------------------------------------------

  /** A frame without DTS gets its PTS. */
  function WithDts(f: Frame): Frame { if f.dts == 0 && f.pts != 0 then f.(dts := f.pts) else f }

  /** Nothing but a missing DTS is filled in, and it stays missing only where PTS is missing too. */
  lemma DtsFilledIn(f: Frame)
    ensures WithDts(f) == f.(dts := WithDts(f).dts) && (f.dts != 0 ==> WithDts(f) == f)
    ensures WithDts(f).dts == 0 <==> f.dts == 0 && f.pts == 0
    ensures f.dts == 0 ==> WithDts(f).dts == f.pts
  {
  }

  class BFrameReorderer {
    const policy: Policy
    var buffer: seq<Frame>
    var marks: Marks
    var baseTime: int
    var framesReordered: nat
    var framesDropped: nat
    ghost var history: seq<Frame>  // everything output so far

    ghost predicate Valid()
      reads `buffer, `marks, `history
    {
      && policy.maxReorderDepth >= 1
      && Heap(buffer)
      && marks == Replay(history) && Accepted(history)
    }

    constructor (maxReorderDepth: int, maxDelay: int)
      ensures Valid() && buffer == [] && history == []
      ensures policy == Policy(if maxReorderDepth <= 0 then 3 else maxReorderDepth, if maxDelay <= 0 then 200 else maxDelay)
    {
      policy := Policy(if maxReorderDepth <= 0 then 3 else maxReorderDepth, if maxDelay <= 0 then 200 else maxDelay);
      buffer, marks, baseTime, framesReordered, framesDropped, history := [], NO_MARKS, 0, 0, 0, [];
    }

    /** `clock(i)` is the time at the i-th look at the buffer. */
    method AddFrame(f: Option<Frame>, clock: nat -> int) returns (output: Option<seq<Frame>>, ghost refused: seq<Frame>, ghost heaps: seq<seq<Frame>>)
      requires Valid()
      modifies this
      ensures Valid() && (Stamped(history) ==> Ordered(history))
      ensures |buffer| < (if f.Some? then policy.maxReorderDepth else |old(buffer)| + 1)
      ensures f.None? <==> output.None?
      ensures f.None? ==> buffer == old(buffer) && history == old(history) && baseTime == old(baseTime) && marks == old(marks)
      ensures f.Some? ==>
                && NonDecreasing(output.value)
                && history == old(history) + output.value
                && multiset(old(buffer)) + multiset{WithDts(f.value)} == multiset(output.value) + multiset(refused) + multiset(buffer)
                && baseTime == (if old(baseTime) == 0 then f.value.captureTime else old(baseTime))
      // What leaves was due, look by look, from the buffer with the new frame on; nothing is due that stays.
      ensures f.Some? ==>
                && heaps != [] && multiset(heaps[0]) == multiset(old(buffer)) + multiset{WithDts(f.value)}
                && LooksFrom(heaps[0], heaps, clock) && (output.value, refused, marks) == JudgeAll(old(marks), Roots(heaps))
    {
      refused, heaps := [], [];
      if f.None? {
        framesDropped := framesDropped + 1;
        InOrderIfStamped(history);
        return None, [], [];
      }
      var frame := WithDts(f.value);
      if baseTime == 0 {
        baseTime := frame.captureTime;
      }
      buffer := Push(buffer, frame);
      var released;
      released, refused, heaps := CheckOutput(clock);
      output := Some(released);
      InOrderIfStamped(history);
    }

    /** The looks at the buffer: its root was due at each but the last, and is not now. */
    ghost predicate LooksFrom(first: seq<Frame>, heaps: seq<seq<Frame>>, clock: nat -> int)
      reads this
    {
      && heaps != [] && heaps[0] == first && heaps[|heaps| - 1] == buffer && Popped(heaps)
      && AllDue(policy, heaps, baseTime, clock)
      && (buffer == [] || !ShouldOutput(policy, buffer, baseTime, clock(|heaps| - 1)))
    }

    method CheckOutput(clock: nat -> int) returns (output: seq<Frame>, ghost refused: seq<Frame>, ghost heaps: seq<seq<Frame>>)
      requires Valid()
      modifies this`buffer, this`marks, this`framesReordered, this`framesDropped, this`history
      ensures Valid() && |buffer| < policy.maxReorderDepth && NonDecreasing(output)
      ensures history == old(history) + output
      ensures multiset(old(buffer)) == multiset(output) + multiset(refused) + multiset(buffer)
      ensures LooksFrom(old(buffer), heaps, clock) && (output, refused, marks) == JudgeAll(old(marks), Roots(heaps))
      ensures framesReordered == old(framesReordered) + |output| && framesDropped == old(framesDropped) + |refused|
    {
      ghost var marksBefore := marks;
      var reordered, dropped;
      output, reordered, dropped, refused, heaps := ReleaseDue(clock);
      framesReordered, framesDropped := framesReordered + reordered, framesDropped + dropped;
      ReleasedInOrder(marksBefore, old(buffer), heaps, buffer, output, refused, marks);
    }

    /** Its loop, with the frames output and refused counted. */
    method ReleaseDue(clock: nat -> int)
      returns (output: seq<Frame>, reordered: nat, dropped: nat, ghost refused: seq<Frame>, ghost heaps: seq<seq<Frame>>)
      requires Valid()
      modifies this`buffer, this`marks, this`history
      ensures Valid() && Releasing(old(buffer), old(history), old(marks), output, refused, heaps) && AllDue(policy, heaps, baseTime, clock)
      ensures buffer == [] || !ShouldOutput(policy, buffer, baseTime, clock(|heaps| - 1))
      ensures reordered == |output| && dropped == |refused|
    {
      output, refused, heaps := [], [], [buffer];
      reordered, dropped := 0, 0;
      ghost var past, marksBefore := history, marks;
      var n := 0;
      while |buffer| > 0 && ShouldOutput(policy, buffer, baseTime, clock(n))
        invariant Valid() && Releasing(old(buffer), past, marksBefore, output, refused, heaps)
        invariant |heaps| == n + 1 && AllDue(policy, heaps, baseTime, clock)
        invariant reordered == |output| && dropped == |refused|
        decreases |buffer|
      {
        var ok;
        ok, output, refused, heaps := TakeDue(old(buffer), past, marksBefore, output, refused, heaps, clock);
        n := n + 1;
        reordered, dropped := if ok then reordered + 1 else reordered, if ok then dropped else dropped + 1;
      }
    }

    method Flush() returns (output: seq<Frame>, ghost refused: seq<Frame>, ghost heaps: seq<seq<Frame>>)
      requires Valid()
      modifies this`buffer, this`marks, this`history
      ensures Valid() && (Stamped(history) ==> Ordered(history)) && buffer == [] && NonDecreasing(output)
      ensures history == old(history) + output
      ensures multiset(old(buffer)) == multiset(output) + multiset(refused)
      ensures heaps != [] && heaps[0] == old(buffer) && heaps[|heaps| - 1] == [] && Popped(heaps)
      ensures (output, refused, marks) == JudgeAll(old(marks), Roots(heaps))
    {
      output, refused, heaps := [], [], [buffer];
      ghost var past, marksBefore := history, marks;
      while |buffer| > 0
        invariant Valid() && Releasing(old(buffer), past, marksBefore, output, refused, heaps)
        decreases |buffer|
      {
        var ok;
        ok, output, refused, heaps := TakeNext(old(buffer), past, marksBefore, output, refused, heaps);
      }
      ReleasedInOrder(marksBefore, old(buffer), heaps, buffer, output, refused, marks);
      InOrderIfStamped(history);
    }

    /** Either loop at work: what it has output and refused are the roots of the heaps looked at, judged one after the other. */
    ghost predicate Releasing(first: seq<Frame>, past: seq<Frame>, marksBefore: Marks, output: seq<Frame>, refused: seq<Frame>, heaps: seq<seq<Frame>>)
      reads this`buffer, this`marks, this`history
    {
      && history == past + output && heaps != [] && heaps[0] == first && heaps[|heaps| - 1] == buffer && Popped(heaps)
      && (output, refused, marks) == JudgeAll(marksBefore, Roots(heaps))
    }

    /** One turn of either loop: pop, check, and append the frame to the output unless it is refused. */
    method TakeNext(ghost first: seq<Frame>, ghost past: seq<Frame>, ghost marksBefore: Marks, output: seq<Frame>, ghost refused: seq<Frame>,
                    ghost heaps: seq<seq<Frame>>)
      returns (ok: bool, output': seq<Frame>, ghost refused': seq<Frame>, ghost heaps': seq<seq<Frame>>)
      requires Valid() && buffer != [] && Releasing(first, past, marksBefore, output, refused, heaps)
      modifies this`buffer, this`marks, this`history
      ensures Valid() && |buffer| == |old(buffer)| - 1 && Releasing(first, past, marksBefore, output', refused', heaps')
      ensures |output'| == |output| + (if ok then 1 else 0) && |refused'| == |refused| + (if ok then 0 else 1)
      ensures heaps' == heaps + [buffer]
    {
      var frame;
      ok, frame := PopAndJudge();
      heaps' := heaps + [buffer];
      LookNext(heaps, buffer);
      JudgeNext(marksBefore, Roots(heaps), frame);
      output', refused' := output, refused;
      if ok {
        Associative(past, output, [frame]);
        output' := output + [frame];
      } else {
        refused' := refused + [frame];
      }
    }

    /** One turn of the first loop: the root was due. */
    method TakeDue(ghost first: seq<Frame>, ghost past: seq<Frame>, ghost marksBefore: Marks, output: seq<Frame>, ghost refused: seq<Frame>,
                   ghost heaps: seq<seq<Frame>>, ghost clock: nat -> int)
      returns (ok: bool, output': seq<Frame>, ghost refused': seq<Frame>, ghost heaps': seq<seq<Frame>>)
      requires Valid() && buffer != [] && Releasing(first, past, marksBefore, output, refused, heaps)
      requires AllDue(policy, heaps, baseTime, clock) && ShouldOutput(policy, buffer, baseTime, clock(|heaps| - 1))
      modifies this`buffer, this`marks, this`history
      ensures Valid() && |buffer| == |old(buffer)| - 1 && Releasing(first, past, marksBefore, output', refused', heaps')
      ensures |output'| == |output| + (if ok then 1 else 0) && |refused'| == |refused| + (if ok then 0 else 1)
      ensures |heaps'| == |heaps| + 1 && AllDue(policy, heaps', baseTime, clock)
    {
      ok, output', refused', heaps' := TakeNext(first, past, marksBefore, output, refused, heaps);
      DueNext(policy, heaps, buffer, baseTime, clock);
    }

    /** Takes the frame with the lowest decode time off the heap, and on acceptance records it as output. */
    method PopAndJudge() returns (ok: bool, frame: Frame)
      requires Valid() && buffer != []
      modifies this`buffer, this`marks, this`history
      ensures Valid() && |buffer| == |old(buffer)| - 1
      ensures frame == old(buffer)[0] && multiset(old(buffer)) == multiset(buffer) + multiset{frame}
      ensures forall x :: x in buffer ==> frame.dts <= x.dts && x in old(buffer)
      ensures ok == Judge(old(marks), frame).0
      ensures history == if ok then old(history) + [frame] else old(history)
      ensures marks == if ok then Updated(Judge(old(marks), frame).1, frame) else old(marks)
    {
      frame, buffer := Pop(buffer);
      ok := IsValidOutput(frame);
      if ok {
        UpdateOutputState(frame);
        assert (history + [frame])[..|history|] == history;
        history := history + [frame];
      }
    }

    method IsValidOutput(frame: Frame) returns (ok: bool)
      modifies this`marks
      ensures (ok, marks) == Judge(old(marks), frame)
    {
      if marks.pts < 0 {
        return true;
      }
      if frame.dts < marks.dts {
        var dtsDiff := marks.dts - frame.dts;
        if dtsDiff > HALF_WRAP {
          return true;
        }
        if dtsDiff > MAX_REASONABLE_JUMP {
          marks := NO_MARKS;
          return true;
        }
        return false;
      }
      if frame.kind != B && frame.pts < marks.pts {
        var ptsDiff := marks.pts - frame.pts;
        if ptsDiff > HALF_WRAP {
          return true;
        }
        if ptsDiff > MAX_REASONABLE_JUMP {
          marks := NO_MARKS;
          return true;
        }
        return false;
      }
      return true;
    }

    method UpdateOutputState(frame: Frame)
      modifies this`marks
      ensures marks == Updated(old(marks), frame)
    {
      if frame.kind != B {
        marks := marks.(pts := frame.pts);
      }
      marks := marks.(dts := frame.dts);
    }
  }
}
