/** Groups of pictures as objects, and the two indexes that find them and their frames. */
module GopIndex {
  import opened Sequences
  import opened VideoFrames
  import opened GopShedding

  predicate OtherP(f: Frame) { IsP(f) && !IsKeyframe(f) }
  predicate OtherB(f: Frame) { IsB(f) && !IsKeyframe(f) }

  /** The counters of a group agree with its frames; as the detector has it, the keyframe is not counted. */
  ghost predicate Counted(frames: seq<Frame>, pFrameCount: int, bFrameCount: int) {
    pFrameCount == |Filter(OtherP, frames)| && bFrameCount == |Filter(OtherB, frames)|
  }

  /** The counters are exact while the group has its keyframe. A drop that takes a keyframe of type P or B takes it off a counter
      that never counted it. */
  ghost predicate Tallied(frames: seq<Frame>, pFrameCount: int, bFrameCount: int) {
    || Counted(frames, pFrameCount, bFrameCount)
    || (NoKey(frames) && (Counted(frames, pFrameCount + 1, bFrameCount) || Counted(frames, pFrameCount, bFrameCount + 1)))
  }

  class Gop {
    const id: nat
    const startTime: nat
    const complete: bool
    const closed: bool
    var frames: seq<Frame>
    var pFrameCount: int
    var bFrameCount: int
    var totalSize: int

    constructor (id: nat, startTime: nat, complete: bool, closed: bool, frames: seq<Frame>, pFrameCount: int, bFrameCount: int, totalSize: int)
      ensures this.id == id && this.startTime == startTime && this.complete == complete && this.closed == closed
      ensures this.frames == frames && this.pFrameCount == pFrameCount && this.bFrameCount == bFrameCount && this.totalSize == totalSize
    {
      this.id, this.startTime, this.complete, this.closed := id, startTime, complete, closed;
      this.frames, this.pFrameCount, this.bFrameCount, this.totalSize := frames, pFrameCount, bFrameCount, totalSize;
    }

    /** No keyframe but in front. The recorded size may be any number. */
    ghost predicate Sound()
      reads this
    {
      KeyInFront(frames) && Tallied(frames, pFrameCount, bFrameCount)
    }

    /** Whether a frame can go without breaking others. */
    method CanDropFrame(position: int) returns (ok: bool)
      ensures ok == (position >= 0 && CanDrop(frames, position))
    {
      if position < 0 || position >= |frames| {
        return false;
      }
      var frame := frames[position];
      if IsKeyframe(frame) {
        return false;
      }
      if frame.kind == B {
        return true;
      }
      if frame.kind == P {
        var i := position + 1;
        while i < |frames|
          invariant position < i <= |frames| && NoBNext(frames, position + 1) == NoBNext(frames, i)
        {
          if frames[i].kind == B {
            return false;
          }
          if frames[i].kind == P || IsKeyframe(frames[i]) {
            break;
          }
          i := i + 1;
        }
        return true;
      }
      return false;
    }

    /** Takes one P or B frame out. The counters stay exact unless it is the keyframe. */
    method TakeOut(p: nat)
      requires Sound() && p < |frames| && (IsB(frames[p]) || (IsP(frames[p]) && !IsKeyframe(frames[p])))
      modifies this
      ensures Sound() && frames == RemoveAt(old(frames), p) && totalSize == old(totalSize) - old(frames)[p].size
      ensures old(Counted(frames, pFrameCount, bFrameCount)) ==>
                (Counted(frames, pFrameCount, bFrameCount) <==> !IsKeyframe(old(frames)[p]))
    {
      TalliedRemoval(frames, p, pFrameCount, bFrameCount);
      var frame := frames[p];
      frames := RemoveAt(frames, p);
      if IsB(frame) {
        bFrameCount := bFrameCount - 1;
      } else {
        pFrameCount := pFrameCount - 1;
      }
      totalSize := totalSize - frame.size;
    }

    /** Keeps only the given frames, of which only the first one counts. */
    method KeepOnly(newFrames: seq<Frame>)
      modifies this
      ensures frames == newFrames && pFrameCount == bFrameCount == 0
      ensures totalSize == if newFrames == [] then 0 else newFrames[0].size
    {
      frames := newFrames;
      pFrameCount, bFrameCount := 0, 0;
      if |newFrames| > 0 {
        totalSize := newFrames[0].size;
      } else {
        totalSize := 0;
      }
    }

    /** Cuts off the frames from a position on. */
    method CutAt(startIndex: nat) returns (dropped: seq<Frame>)
      requires Sound() && startIndex < |frames|
      modifies this
      ensures Sound() && frames == old(frames)[..startIndex] && dropped == old(frames)[startIndex..]
      ensures totalSize == BytesIn(frames)
    {
      dropped := frames[startIndex..];
      assert frames == frames[..startIndex] + dropped;
      TalliedParts(frames[..startIndex], dropped, pFrameCount, bFrameCount);
      frames := frames[..startIndex];
      var newTotalSize := SizeOfAll(frames);
      totalSize := newTotalSize;
      Uncount(dropped);
    }

    /** Takes the dropped frames out of the counts. */
    method Uncount(dropped: seq<Frame>)
      modifies this`pFrameCount, this`bFrameCount
      ensures pFrameCount == old(pFrameCount) - |Filter(IsP, dropped)|
      ensures bFrameCount == old(bFrameCount) - |Filter(IsB, dropped)|
    {
      var i := 0;
      assert dropped[..0] == [];
      while i < |dropped|
        invariant i <= |dropped|
        invariant pFrameCount == old(pFrameCount) - |Filter(IsP, dropped[..i])|
        invariant bFrameCount == old(bFrameCount) - |Filter(IsB, dropped[..i])|
      {
        assert dropped[..i + 1] == dropped[..i] + [dropped[i]];
        FilterSnoc(IsP, dropped[..i], dropped[i]);
        FilterSnoc(IsB, dropped[..i], dropped[i]);
        match dropped[i].kind {
          case P => pFrameCount := pFrameCount - 1;
          case B => bFrameCount := bFrameCount - 1;
          case _ =>
        }
        i := i + 1;
      }
      assert dropped[..i] == dropped;
    }
  }

  method SizeOfAll(frames: seq<Frame>) returns (size: nat)
    ensures size == BytesIn(frames)
  {
    size := 0;
    assert frames[..0] == [];
    for i := 0 to |frames|
      invariant size == BytesIn(frames[..i])
    {
      assert frames[..i + 1] == frames[..i] + [frames[i]];
      BytesSnoc(frames[..i], frames[i]);
      size := size + frames[i].size;
    }
    assert frames[..|frames|] == frames;
  }

  // Sums and counts under removal.

  /** Cutting off a tail keeps the tally, whether or not the keyframe goes. */
  lemma TalliedParts(a: seq<Frame>, b: seq<Frame>, p: int, q: int)
    requires KeyInFront(a + b) && Tallied(a + b, p, q)
    ensures KeyInFront(a) && Tallied(a, p - |Filter(IsP, b)|, q - |Filter(IsB, b)|)
  {
    if a == [] {
      assert a + b == b;
      AllCut(b, p, q);
    } else {
      TailCut(a, b, p, q);
    }
  }

  lemma AllCut(b: seq<Frame>, p: int, q: int)
    requires KeyInFront(b) && Tallied(b, p, q)
    ensures Tallied([], p - |Filter(IsP, b)|, q - |Filter(IsB, b)|)
  {
    KeyCounted(b);
    if b != [] && NoKey(b) {
      assert b[0] in b;
    }
    assert NoKey([]);
  }

  lemma TailCut(a: seq<Frame>, b: seq<Frame>, p: int, q: int)
    requires a != [] && KeyInFront(a + b) && Tallied(a + b, p, q)
    ensures KeyInFront(a) && Tallied(a, p - |Filter(IsP, b)|, q - |Filter(IsB, b)|)
  {
    FilterAppend(OtherP, a, b);
    FilterAppend(OtherB, a, b);
    forall f | f in b ensures !IsKeyframe(f) {
      var i :| 0 <= i < |b| && b[i] == f;
      assert (a + b)[|a| + i] == f;
    }
    CountsOfOthers(b);
    assert NoKey(a + b) ==> NoKey(a) by {
      assert forall f :: f in a ==> f in a + b;
    }
    forall i | 0 <= i < |a| && IsKeyframe(a[i]) ensures i == 0 {
      assert (a + b)[i] == a[i];
    }
  }

  /** Without a keyframe every P or B frame is counted. */
  lemma CountsOfOthers(frames: seq<Frame>)
    requires NoKey(frames)
    ensures Filter(OtherP, frames) == Filter(IsP, frames) && Filter(OtherB, frames) == Filter(IsB, frames)
  {
    FilterSame(OtherP, IsP, frames);
    FilterSame(OtherB, IsB, frames);
  }

  lemma {:induction false} FilterSame(p: Frame -> bool, q: Frame -> bool, frames: seq<Frame>)
    requires forall f :: f in frames ==> p(f) == q(f)
    ensures Filter(p, frames) == Filter(q, frames)
    decreases |frames|
  {
    if frames != [] {
      FilterSame(p, q, frames[1..]);
    }
  }

  /** A keyframe in front is all that the two ways of counting differ by. */
  lemma KeyCounted(frames: seq<Frame>)
    requires KeyInFront(frames)
    ensures var key := if frames != [] && IsKeyframe(frames[0]) then [frames[0]] else [];
            && |Filter(IsP, frames)| == |Filter(OtherP, frames)| + |Filter(IsP, key)|
            && |Filter(IsB, frames)| == |Filter(OtherB, frames)| + |Filter(IsB, key)|
            && |Filter(IsP, key)| + |Filter(IsB, key)| <= 1 && (key == [] ==> NoKey(frames))
  {
    if frames != [] {
      assert forall f :: f in frames[1..] ==> !IsKeyframe(f);
      CountsOfOthers(frames[1..]);
      assert [frames[0]][1..] == [];
      if !IsKeyframe(frames[0]) {
        CountsOfOthers(frames);
      }
    }
  }

  function One(yes: bool): nat { if yes then 1 else 0 }

  lemma {:induction false} CountRemoval(p: Frame -> bool, frames: seq<Frame>, i: nat)
    requires i < |frames|
    ensures |Filter(p, RemoveAt(frames, i))| == |Filter(p, frames)| - One(p(frames[i]))
    decreases i
  {
    if i == 0 {
      assert RemoveAt(frames, 0) == frames[1..];
    } else {
      CountRemoval(p, frames[1..], i - 1);
      assert RemoveAt(frames, i)[1..] == RemoveAt(frames[1..], i - 1);
    }
  }

  /** One frame less. */
  lemma TalliedRemoval(frames: seq<Frame>, i: nat, p: int, q: int)
    requires i < |frames| && KeyInFront(frames) && Tallied(frames, p, q)
    requires IsB(frames[i]) || (IsP(frames[i]) && !IsKeyframe(frames[i]))
    ensures var less, p2, q2 := RemoveAt(frames, i), p - One(IsP(frames[i])), q - One(IsB(frames[i]));
            && KeyInFront(less) && Tallied(less, p2, q2)
            && (Counted(frames, p, q) ==> (Counted(less, p2, q2) <==> !IsKeyframe(frames[i])))
  {
    CountRemoval(OtherP, frames, i);
    CountRemoval(OtherB, frames, i);
    KeyRemoval(frames, i);
  }

  lemma KeyRemoval(frames: seq<Frame>, i: nat)
    requires KeyInFront(frames) && i < |frames|
    ensures KeyInFront(RemoveAt(frames, i)) && (NoKey(frames) || IsKeyframe(frames[i]) ==> NoKey(RemoveAt(frames, i)))
  {
    var less := RemoveAt(frames, i);
    forall p | 0 <= p < |less| && IsKeyframe(less[p]) ensures p == 0 && i > 0 {
      assert less[p] == frames[if p < i then p else p + 1];
    }
    if NoKey(frames) || IsKeyframe(frames[i]) {
      forall f | f in less ensures !IsKeyframe(f) {
        var p :| 0 <= p < |less| && less[p] == f;
        assert less[p] == frames[if p < i then p else p + 1];
        assert frames[if p < i then p else p + 1] in frames;
      }
    }
  }

  /** How many frames stay when only keyframes do. */
  function KeyCount(frames: seq<Frame>): nat { if frames != [] && IsKeyframe(frames[0]) then 1 else 0 }

  lemma OnlyKeyIsFirst(frames: seq<Frame>)
    requires KeyInFront(frames)
    ensures KeyCount(frames) <= |frames| && OnlyKey(frames) == Shed(frames[..KeyCount(frames)], frames[KeyCount(frames)..])
    ensures KeyInFront(OnlyKey(frames).kept)
    ensures var kept := OnlyKey(frames).kept; Counted(kept, 0, 0) && BytesIn(kept) == if kept == [] then 0 else kept[0].size
  {
    var n := KeyCount(frames);
    var first, rest := frames[..n], frames[n..];
    assert frames == first + rest;
    NoneOf(IsKeyframe, rest);
    AllOf(NotKey, rest);
    FilterAppend(IsKeyframe, first, rest);
    FilterAppend(NotKey, first, rest);
    AllOf(IsKeyframe, first);
    NoneOf(NotKey, first);
    NoneOf(OtherP, first);
    NoneOf(OtherB, first);
    assert first + [] == first && [] + rest == rest;
    assert first != [] ==> first[1..] == [];
  }

  lemma OnlyKeySnoc(frames: seq<Frame>, f: Frame)
    ensures OnlyKey(frames + [f]) ==
            if IsKeyframe(f) then OnlyKey(frames).(kept := OnlyKey(frames).kept + [f])
            else OnlyKey(frames).(dropped := OnlyKey(frames).dropped + [f])
  {
    FilterSnoc(IsKeyframe, frames, f);
    FilterSnoc(NotKey, frames, f);
  }

  lemma {:induction false} NoneOf(p: Frame -> bool, s: seq<Frame>)
    requires forall i :: 0 <= i < |s| ==> !p(s[i])
    ensures Filter(p, s) == []
    decreases |s|
  {
    if s != [] {
      NoneOf(p, s[1..]);
    }
  }

  lemma {:induction false} AllOf(p: Frame -> bool, s: seq<Frame>)
    requires forall i :: 0 <= i < |s| ==> p(s[i])
    ensures Filter(p, s) == s
    decreases |s|
  {
    if s != [] {
      AllOf(p, s[1..]);
      assert s == [s[0]] + s[1..];
    }
  }

  // The indexes. `lists` are the frames of the groups `gops`.

  datatype Location = Location(gop: Gop, position: nat)

  // The triggers below name the fact that is wanted, so that the solver does not follow one index into the other.

  ghost predicate Differ(gops: seq<Gop>, i: nat, j: nat)
    requires i < |gops| && j < |gops|
  {
    gops[i].id != gops[j].id
  }

  ghost predicate Distinct(gops: seq<Gop>) {
    forall i, j {:trigger Differ(gops, i, j)} :: 0 <= i < j < |gops| ==> Differ(gops, i, j)
  }

  lemma OpenDistinct(gops: seq<Gop>)
    requires Distinct(gops)
    ensures forall i, j :: 0 <= i < j < |gops| ==> gops[i].id != gops[j].id
  {
    forall i, j | 0 <= i < j < |gops| ensures gops[i].id != gops[j].id {
      assert Differ(gops, i, j);
    }
  }

  ghost predicate Entry(index: map<nat, Gop>, g: Gop) { g.id in index && index[g.id] == g }
  ghost predicate Member(gops: seq<Gop>, g: Gop, id: nat) { g in gops && g.id == id }

  /** The group index holds the groups of the list, and no others. */
  ghost predicate GopsIndexed(gops: seq<Gop>, index: map<nat, Gop>) {
    && (forall i {:trigger Entry(index, gops[i])} :: 0 <= i < |gops| ==> Entry(index, gops[i]))
    && (forall id {:trigger Member(gops, index[id], id)} :: id in index ==> Member(gops, index[id], id))
  }

  /** The oldest group leaves the list and the index. */
  lemma GopsFront(gops: seq<Gop>, index: map<nat, Gop>)
    requires gops != [] && Distinct(gops) && GopsIndexed(gops, index)
    ensures Distinct(gops[1..]) && GopsIndexed(gops[1..], index - {gops[0].id})
  {
    OpenDistinct(gops);
    var rest, less := gops[1..], index - {gops[0].id};
    forall i | 0 <= i < |rest| ensures Entry(less, rest[i]) {
      assert Entry(index, gops[i + 1]);
    }
    forall id | id in less ensures Member(rest, less[id], id) {
      assert Member(gops, index[id], id);
    }
  }

  /** A group with a new id joins the list and the index. */
  lemma GopsAdded(gops: seq<Gop>, index: map<nat, Gop>, g: Gop)
    requires Distinct(gops) && GopsIndexed(gops, index) && g.id !in index
    ensures Distinct(gops + [g]) && GopsIndexed(gops + [g], index[g.id := g])
  {
    var more, index2 := gops + [g], index[g.id := g];
    forall i, j | 0 <= i < j < |more| ensures Differ(more, i, j) {
      assert Entry(index, gops[i]);
      if j < |gops| {
        assert Differ(gops, i, j);
      }
    }
    forall i | 0 <= i < |more| ensures Entry(index2, more[i]) {
      if i < |gops| {
        assert Entry(index, gops[i]);
      }
    }
    forall id | id in index2 ensures Member(more, index2[id], id) {
      if id in index {
        assert Member(gops, index[id], id);
      }
    }
  }

  ghost predicate FoundAt(gops: seq<Gop>, lists: seq<seq<Frame>>, index: map<nat, Location>, i: nat, p: nat)
    requires |gops| == |lists| && i < |lists| && p < |lists[i]|
  {
    lists[i][p].id in index && index[lists[i][p].id] == Location(gops[i], p)
  }

  /** Every frame is found where it is. */
  ghost predicate Finds(gops: seq<Gop>, lists: seq<seq<Frame>>, index: map<nat, Location>)
    requires |gops| == |lists|
  {
    forall i, p {:trigger FoundAt(gops, lists, index, i, p)} :: 0 <= i < |lists| && 0 <= p < |lists[i]| ==> FoundAt(gops, lists, index, i, p)
  }

  lemma OpenFinds(gops: seq<Gop>, lists: seq<seq<Frame>>, index: map<nat, Location>)
    requires |gops| == |lists| && Finds(gops, lists, index)
    ensures forall i, p :: 0 <= i < |lists| && 0 <= p < |lists[i]| ==>
              lists[i][p].id in index && index[lists[i][p].id] == Location(gops[i], p)
  {
    forall i, p | 0 <= i < |lists| && 0 <= p < |lists[i]|
      ensures lists[i][p].id in index && index[lists[i][p].id] == Location(gops[i], p)
    {
      assert FoundAt(gops, lists, index, i, p);
    }
  }

  /** Every entry leads to a frame with its id. */
  ghost predicate Leads(gops: seq<Gop>, lists: seq<seq<Frame>>, loc: Location, id: nat)
    requires |gops| == |lists|
  {
    exists i :: 0 <= i < |gops| && gops[i] == loc.gop && loc.position < |lists[i]| && lists[i][loc.position].id == id
  }

  ghost predicate Indexed(gops: seq<Gop>, lists: seq<seq<Frame>>, index: map<nat, Location>) {
    && |gops| == |lists| && Finds(gops, lists, index)
    && forall id {:trigger Leads(gops, lists, index[id], id)} :: id in index ==> Leads(gops, lists, index[id], id)
  }

  ghost function Ids(frames: seq<Frame>): set<nat> { set f | f in frames :: f.id }

  lemma IdsSnoc(frames: seq<Frame>, f: Frame)
    ensures Ids(frames + [f]) == Ids(frames) + {f.id}
  {
    assert forall g :: g in frames + [f] <==> g in frames || g == f;
  }

  lemma LeadsAt(gops: seq<Gop>, lists: seq<seq<Frame>>, loc: Location, id: nat, i: nat)
    requires |gops| == |lists| && i < |gops| && gops[i] == loc.gop && loc.position < |lists[i]| && lists[i][loc.position].id == id
    ensures Leads(gops, lists, loc, id)
  {
  }

  lemma LeadsTo(gops: seq<Gop>, lists: seq<seq<Frame>>, loc: Location, id: nat) returns (i: nat)
    requires |gops| == |lists| && Leads(gops, lists, loc, id)
    ensures i < |gops| && gops[i] == loc.gop && loc.position < |lists[i]| && lists[i][loc.position].id == id
  {
    i :| 0 <= i < |gops| && gops[i] == loc.gop && loc.position < |lists[i]| && lists[i][loc.position].id == id;
  }

  lemma TailIds(gops: seq<Gop>, lists: seq<seq<Frame>>, index: map<nat, Location>, i: nat, n: nat, id: nat)
    requires |gops| == |lists| && Finds(gops, lists, index) && i < |lists| && n <= |lists[i]|
    requires id in Ids(lists[i][n..])
    ensures id in index && index[id].gop == gops[i] && index[id].position >= n
  {
    OpenFinds(gops, lists, index);
    var f :| f in lists[i][n..] && f.id == id;
    var q :| 0 <= q < |lists[i][n..]| && lists[i][n..][q] == f;
    assert lists[i][n + q] == f;
  }

  lemma InTail(frames: seq<Frame>, n: nat)
    requires n <= |frames|
    ensures forall q :: n <= q < |frames| ==> frames[q].id in Ids(frames[n..])
  {
    forall q | n <= q < |frames| ensures frames[q].id in Ids(frames[n..]) {
      assert frames[n..][q - n] in frames[n..];
    }
  }

  /** The frames from position `n` on leave group `i`. */
  lemma IndexTruncated(gops: seq<Gop>, lists: seq<seq<Frame>>, index: map<nat, Location>, i: nat, n: nat)
    requires Distinct(gops) && Indexed(gops, lists, index) && i < |lists| && n <= |lists[i]|
    ensures Indexed(gops, lists[i := lists[i][..n]], index - Ids(lists[i][n..]))
  {
    OpenDistinct(gops);
    OpenFinds(gops, lists, index);
    var after: seq<seq<Frame>> := lists[i := lists[i][..n]];
    var gone := Ids(lists[i][n..]);
    var less := index - gone;
    forall j, p | 0 <= j < |after| && 0 <= p < |after[j]|
      ensures FoundAt(gops, after, less, j, p)
    {
      assert after[j][p] == lists[j][p];
      if after[j][p].id in gone {
        TailIds(gops, lists, index, i, n, after[j][p].id);
      }
    }
    InTail(lists[i], n);
    forall id | id in less ensures Leads(gops, after, less[id], id) {
      var j := LeadsTo(gops, lists, index[id], id);
      LeadsAt(gops, after, index[id], id, j);
    }
  }

  /** The oldest group leaves. */
  lemma IndexFront(gops: seq<Gop>, lists: seq<seq<Frame>>, index: map<nat, Location>)
    requires Distinct(gops) && Indexed(gops, lists, index) && gops != []
    ensures Indexed(gops[1..], lists[1..], index - Ids(lists[0]))
  {
    IndexTruncated(gops, lists, index, 0, 0);
    assert lists[0][0..] == lists[0];
    var less := index - Ids(lists[0]);
    var after: seq<seq<Frame>> := lists[0 := []];
    assert lists[0][..0] == [];
    OpenDistinct(gops);
    OpenFinds(gops, after, less);
    forall j, p | 0 <= j < |lists[1..]| && 0 <= p < |lists[1..][j]|
      ensures FoundAt(gops[1..], lists[1..], less, j, p)
    {
      assert lists[1..][j][p] == after[j + 1][p];
    }
    forall id | id in less ensures Leads(gops[1..], lists[1..], less[id], id) {
      var j := LeadsTo(gops, after, less[id], id);
      LeadsAt(gops[1..], lists[1..], less[id], id, j - 1);
    }
  }

  /** The ids of a new group's frames are new and differ from each other. */
  ghost predicate NewIds(frames: seq<Frame>, index: map<nat, Location>) {
    && (forall p :: 0 <= p < |frames| ==> frames[p].id !in index)
    && (forall p, q :: 0 <= p < q < |frames| ==> frames[p].id != frames[q].id)
  }

  /** The index with the first `n` frames of a group entered. */
  ghost predicate Entered(index: map<nat, Location>, g: Gop, frames: seq<Frame>, n: nat, more: map<nat, Location>)
    requires n <= |frames|
  {
    && (forall id :: id in index ==> id in more && more[id] == index[id])
    && (forall p :: 0 <= p < n ==> frames[p].id in more && more[frames[p].id] == Location(g, p))
    && (forall id :: id in more && id !in index ==> Leads([g], [frames[..n]], more[id], id))
  }

  /** A group is added. */
  lemma IndexAdded(gops: seq<Gop>, lists: seq<seq<Frame>>, index: map<nat, Location>, g: Gop, frames: seq<Frame>, more: map<nat, Location>)
    requires Indexed(gops, lists, index) && NewIds(frames, index) && Entered(index, g, frames, |frames|, more)
    ensures Indexed(gops + [g], lists + [frames], more)
  {
    OpenFinds(gops, lists, index);
    var gops2: seq<Gop> := gops + [g];
    var lists2: seq<seq<Frame>> := lists + [frames];
    forall j, p | 0 <= j < |lists2| && 0 <= p < |lists2[j]|
      ensures FoundAt(gops2, lists2, more, j, p)
    {
      if j < |lists| {
        assert lists2[j][p] == lists[j][p];
      }
    }
    forall id | id in more ensures Leads(gops2, lists2, more[id], id) {
      if id in index {
        var j := LeadsTo(gops, lists, index[id], id);
        LeadsAt(gops2, lists2, more[id], id, j);
      } else {
        assert frames[..|frames|] == frames;
        var j := LeadsTo([g], [frames], more[id], id);
        LeadsAt(gops2, lists2, more[id], id, |gops|);
      }
    }
  }

  ghost predicate WrittenAt(index: map<nat, Location>, frames: seq<Frame>, k: nat, after: map<nat, Location>)
    requires k < |frames|
  {
    var id := frames[k].id;
    id in index ==> id in after && after[id] == index[id].(position := k)
  }

  ghost predicate KeptAt(index: map<nat, Location>, after: map<nat, Location>, id: nat) {
    id in index ==> id in after && after[id] == index[id]
  }

  /** The index after the positions from `from` on are written for the frames of one group. */
  ghost predicate Renumbered(index: map<nat, Location>, frames: seq<Frame>, from: nat, to: nat, after: map<nat, Location>)
    requires from <= to <= |frames|
  {
    && after.Keys == index.Keys
    && (forall k {:trigger WrittenAt(index, frames, k, after)} :: from <= k < to ==> WrittenAt(index, frames, k, after))
    && (forall id {:trigger KeptAt(index, after, id)} :: id in index && id !in Ids(frames[from..to]) ==> KeptAt(index, after, id))
  }

  lemma OpenRenumbered(index: map<nat, Location>, frames: seq<Frame>, from: nat, to: nat, after: map<nat, Location>)
    requires from <= to <= |frames| && Renumbered(index, frames, from, to, after)
    ensures forall k :: from <= k < to && frames[k].id in index ==> after[frames[k].id] == index[frames[k].id].(position := k)
    ensures forall id :: id in index && id !in Ids(frames[from..to]) ==> after[id] == index[id]
  {
    forall k | from <= k < to && frames[k].id in index ensures after[frames[k].id] == index[frames[k].id].(position := k) {
      assert WrittenAt(index, frames, k, after);
    }
    forall id | id in index && id !in Ids(frames[from..to]) ensures after[id] == index[id] {
      assert KeptAt(index, after, id);
    }
  }

  /** One frame leaves group `i`, and those behind it move up. */
  lemma IndexRemoved(gops: seq<Gop>, lists: seq<seq<Frame>>, index: map<nat, Location>, i: nat, p: nat, after: map<nat, Location>)
    requires Distinct(gops) && Indexed(gops, lists, index) && i < |lists| && p < |lists[i]|
    requires var frames := RemoveAt(lists[i], p);
             Renumbered(index - {lists[i][p].id}, frames, p, |frames|, after)
    ensures Indexed(gops, lists[i := RemoveAt(lists[i], p)], after)
  {
    var frames := RemoveAt(lists[i], p);
    var lists2: seq<seq<Frame>> := lists[i := frames];
    forall j, q | 0 <= j < |lists2| && 0 <= q < |lists2[j]|
      ensures FoundAt(gops, lists2, after, j, q)
    {
      FindsAfterRemoval(gops, lists, index, i, p, after, j, q);
    }
    forall id | id in after ensures Leads(gops, lists2, after[id], id) {
      var j := LeadsTo(gops, lists, index[id], id);
      LeadsAfterRemoval(gops, lists, index, i, p, after, j, id);
    }
  }

  /** An id among the frames that move up belongs to a later position of group `i`. */
  lemma MovedIds(gops: seq<Gop>, lists: seq<seq<Frame>>, index: map<nat, Location>, i: nat, p: nat, id: nat)
    requires |gops| == |lists| && Finds(gops, lists, index) && i < |lists| && p < |lists[i]|
    requires var frames := RemoveAt(lists[i], p); id in Ids(frames[p..|frames|])
    ensures id in index && index[id].gop == gops[i] && index[id].position > p
  {
    OpenFinds(gops, lists, index);
    var frames := RemoveAt(lists[i], p);
    var f :| f in frames[p..|frames|] && f.id == id;
    var k :| 0 <= k < |frames[p..|frames|]| && frames[p..|frames|][k] == f;
    assert frames[p + k] == f == lists[i][p + k + 1];
  }

  lemma FindsAfterRemoval(gops: seq<Gop>, lists: seq<seq<Frame>>, index: map<nat, Location>, i: nat, p: nat, after: map<nat, Location>, j: nat, q: nat)
    requires Distinct(gops) && |gops| == |lists| && Finds(gops, lists, index) && i < |lists| && p < |lists[i]|
    requires var frames := RemoveAt(lists[i], p);
             Renumbered(index - {lists[i][p].id}, frames, p, |frames|, after)
    requires j < |lists| && q < |lists[i := RemoveAt(lists[i], p)][j]|
    ensures var f: Frame := lists[i := RemoveAt(lists[i], p)][j][q];
            f.id in after && after[f.id] == Location(gops[j], q)
  {
    OpenRenumbered(index - {lists[i][p].id}, RemoveAt(lists[i], p), p, |lists[i]| - 1, after);
    OpenDistinct(gops);
    OpenFinds(gops, lists, index);
    var frames := RemoveAt(lists[i], p);
    var lists2: seq<seq<Frame>> := lists[i := frames];
    var f := lists2[j][q];
    if j == i && q >= p {
      assert f == frames[q] == lists[i][q + 1];
      assert index[f.id] == Location(gops[i], q + 1);
    } else {
      assert f == lists[j][q];
      assert index[f.id] == Location(gops[j], q) && index[lists[i][p].id] == Location(gops[i], p);
      if f.id in Ids(frames[p..|frames|]) {
        MovedIds(gops, lists, index, i, p, f.id);
        assert false;
      }
    }
  }

  lemma LeadsAfterRemoval(gops: seq<Gop>, lists: seq<seq<Frame>>, index: map<nat, Location>, i: nat, p: nat, after: map<nat, Location>, j: nat, id: nat)
    requires Distinct(gops) && |gops| == |lists| && Finds(gops, lists, index) && i < |lists| && p < |lists[i]|
    requires var frames := RemoveAt(lists[i], p);
             Renumbered(index - {lists[i][p].id}, frames, p, |frames|, after)
    requires id in after && j < |gops| && gops[j] == index[id].gop && index[id].position < |lists[j]| && lists[j][index[id].position].id == id
    ensures Leads(gops, lists[i := RemoveAt(lists[i], p)], after[id], id)
  {
    OpenRenumbered(index - {lists[i][p].id}, RemoveAt(lists[i], p), p, |lists[i]| - 1, after);
    OpenDistinct(gops);
    OpenFinds(gops, lists, index);
    var frames, q := RemoveAt(lists[i], p), index[id].position;
    var lists2: seq<seq<Frame>> := lists[i := frames];
    if j == i && q > p {
      assert frames[q - 1] == lists[i][q];
      FindsAfterRemoval(gops, lists, index, i, p, after, i, q - 1);
      LeadsAt(gops, lists2, after[id], id, i);
    } else {
      assert j == i ==> q != p;
      assert lists2[j][q] == lists[j][q];
      FindsAfterRemoval(gops, lists, index, i, p, after, j, q);
      LeadsAt(gops, lists2, after[id], id, j);
    }
  }

  // What the frame index is for.

  /** The first frame with the given id, looked for in one group after the other. */
  function Find(frames: seq<Frame>, id: nat): Option<Frame>
    decreases |frames|
  {
    if frames == [] then None else if frames[0].id == id then Some(frames[0]) else Find(frames[1..], id)
  }

  function Search(lists: seq<seq<Frame>>, id: nat): Option<Frame>
    decreases |lists|
  {
    if lists == [] then None
    else
      var here := Find(lists[0], id);
      if here.Some? then here else Search(lists[1..], id)
  }

  lemma {:induction false} FindIs(frames: seq<Frame>, id: nat) returns (p: nat)
    ensures Find(frames, id).Some? ==> p < |frames| && frames[p] == Find(frames, id).value && frames[p].id == id
    ensures Find(frames, id).None? ==> forall q :: 0 <= q < |frames| ==> frames[q].id != id
    decreases |frames|
  {
    p := 0;
    if frames != [] && frames[0].id != id {
      p := FindIs(frames[1..], id);
      p := p + 1;
    }
  }

  lemma {:induction false} SearchIs(lists: seq<seq<Frame>>, id: nat) returns (i: nat, p: nat)
    ensures Search(lists, id).Some? ==> i < |lists| && p < |lists[i]| && lists[i][p] == Search(lists, id).value && lists[i][p].id == id
    ensures Search(lists, id).None? ==> forall j, q :: 0 <= j < |lists| && 0 <= q < |lists[j]| ==> lists[j][q].id != id
    decreases |lists|
  {
    i, p := 0, 0;
    if lists != [] {
      p := FindIs(lists[0], id);
      if Find(lists[0], id).None? {
        i, p := SearchIs(lists[1..], id);
        i := i + 1;
      }
    }
  }

  /** Following the index is the same as searching. */
  lemma IndexIsSearch(gops: seq<Gop>, lists: seq<seq<Frame>>, index: map<nat, Location>, id: nat)
    requires Distinct(gops) && Indexed(gops, lists, index)
    ensures id !in index ==> Search(lists, id) == None
    ensures forall i :: 0 <= i < |gops| && id in index && index[id].gop == gops[i] ==>
              index[id].position < |lists[i]| && Search(lists, id) == Some(lists[i][index[id].position])
  {
    OpenDistinct(gops);
    OpenFinds(gops, lists, index);
    var i, p := SearchIs(lists, id);
    if id in index {
      var j := LeadsTo(gops, lists, index[id], id);
      assert Search(lists, id).Some?;
      assert index[lists[i][p].id] == Location(gops[i], p);
    }
  }
}
