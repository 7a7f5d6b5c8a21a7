/** Where reassembly fails: for every way of breaking a premise of `NothingForged`, a stream and a delivery of it after
    which a unit comes out that was never sent. */
module Forgeries {
  import opened Sequences
  import opened Bytes
  import opened RtpStream
  import opened Reassembly

  // ---- Streams ------------------------------------------------------------------------------------------------

  lemma {:induction false} StreamAppend(a: seq<Item>, b: seq<Item>)
    ensures Stream(a + b) == Stream(a) + Stream(b)
    decreases |a|
  {
    if a == [] {
      assert a + b == b;
    } else {
      assert (a + b)[1..] == a[1..] + b;
      StreamAppend(a[1..], b);
    }
  }

  lemma StreamOne(item: Item)
    ensures Stream([item]) == SlotsOf(item)
  {
    assert [item][1..] == [];
  }

  function Repeat<T>(x: T, n: nat): (r: seq<T>)
    ensures |r| == n && forall i :: 0 <= i < n ==> r[i] == x
  {
    seq(n, _ => x)
  }

  lemma {:induction false} StreamOfQuiet(quiet: Item, n: nat)
    requires !quiet.Fragmented?
    ensures Stream(Repeat(quiet, n)) == Repeat(Whole(quiet), n)
    decreases n
  {
    if n > 0 {
      assert Repeat(quiet, n)[1..] == Repeat(quiet, n - 1);
      StreamOfQuiet(quiet, n - 1);
      assert Repeat(Whole(quiet), n) == [Whole(quiet)] + Repeat(Whole(quiet), n - 1);
    }
  }

  lemma StreamOfThree(first: Item, quiet: Item, n: nat, second: Item)
    requires !quiet.Fragmented?
    ensures Stream([first] + Repeat(quiet, n) + [second]) == SlotsOf(first) + Repeat(Whole(quiet), n) + SlotsOf(second)
  {
    StreamAppend([first] + Repeat(quiet, n), [second]);
    StreamAppend([first], Repeat(quiet, n));
    StreamOne(first);
    StreamOne(second);
    StreamOfQuiet(quiet, n);
  }

  lemma {:induction false} SentBySome(items: seq<Item>, nal: Bytes)
    requires nal in SentNals(items)
    ensures exists item :: item in items && nal in NalsOf(item)
    decreases |items|
  {
    if nal !in NalsOf(items[0]) {
      SentBySome(items[1..], nal);
    }
  }

  ghost predicate CarriedByNone(items: seq<Item>, nal: Bytes) {
    forall item :: item in items ==> nal !in NalsOf(item)
  }

  /** A unit that no item carries is forged. */
  lemma NotSent(items: seq<Item>, nal: Bytes, units: seq<Bytes>)
    requires units == [Unit(nal)] && CarriedByNone(items, nal)
    ensures !AllSent(items, units)
  {
    assert Unit(nal) in units;
    forall sent | sent in SentNals(items) ensures Unit(nal) != Unit(sent) {
      SentBySome(items, sent);
      assert Unit(nal)[4..] == nal && Unit(sent)[4..] == sent;
    }
  }

  // ---- Runs ---------------------------------------------------------------------------------------------------

  /** The deliveries of the positions from `from` up to `to`. */
  function Walk(from: nat, to: nat): (ds: seq<Delivery>)
    requires from <= to
    ensures |ds| == to - from && forall i :: 0 <= i < |ds| ==> ds[i] == Delivery(from + i, 0)
  {
    seq(to - from, i requires 0 <= i => Delivery(from + i, 0))
  }

  /** The stream holds the fragments of the unit from position `base` on. */
  predicate Carries(slots: seq<Slot>, base: nat, nal: Bytes, pieces: seq<Bytes>) {
    base + |pieces| <= |slots| && forall i :: 0 <= i < |pieces| ==> slots[base + i] == Fragment(nal, pieces, i)
  }

  /** There is room for the pieces from `j` on behind `size` bytes in `parts` parts, and none of them is passed over. */
  predicate RoomFor(lim: Limits, size: nat, parts: nat, pieces: seq<Bytes>, j: nat) {
    && j <= |pieces|
    && size + |Flatten(pieces[j..])| <= lim.maxUnit
    && !Exceeds(parts + (|pieces| - j), lim.maxParts)
    && (forall k :: j <= k < |pieces| ==> pieces[k] != [] && !Exceeds(|pieces[k]|, lim.maxPiece))
  }

  /** Whatever the assembly holds, fragments that follow each other up to the last one complete it. */
  lemma {:induction false} TailCompletes(h: nat, lim: Limits, slots: seq<Slot>, start: nat, base: nat, nal: Bytes, pieces: seq<Bytes>, j: nat, bytes: Bytes, parts: nat)
    requires Fragmentable(h, Fragmented(nal, pieces)) && Carries(slots, base, nal, pieces) && 0 < j < |pieces|
    requires RoomFor(lim, |bytes|, parts, pieces, j)
    ensures Returned(h, lim, State(Assembling(bytes, parts, 0), SeqNo(start, base + j - 1)), Arrivals(slots, start, Walk(base + j, base + |pieces|)))
            == [bytes + Flatten(pieces[j..])]
    decreases |pieces| - j
  {
    var st := State(Assembling(bytes, parts, 0), SeqNo(start, base + j - 1));
    var walk, rest := Walk(base + j, base + |pieces|), Walk(base + j + 1, base + |pieces|);
    var grown := bytes + pieces[j];
    assert walk[1..] == rest;
    assert slots[base + j] == Fragment(nal, pieces, j);
    RoomNext(lim, bytes, parts, pieces, j);
    GapIsDistance(start, base + j, base + j - 1);
    OnePiece(h, lim, st, slots[base + j], SeqNo(start, base + j));
    Head(h, lim, st, slots, start, walk);
    if j + 1 < |pieces| {
      TailCompletes(h, lim, slots, start, base, nal, pieces, j + 1, grown, parts + 1);
    }
  }

  lemma RoomNext(lim: Limits, bytes: Bytes, parts: nat, pieces: seq<Bytes>, j: nat)
    requires j < |pieces| && RoomFor(lim, |bytes|, parts, pieces, j)
    ensures var grown := bytes + pieces[j];
            && grown + Flatten(pieces[j + 1..]) == bytes + Flatten(pieces[j..])
            && RoomFor(lim, |grown|, parts + 1, pieces, j + 1) && |grown| <= lim.maxUnit
            && (j + 1 == |pieces| ==> grown == bytes + Flatten(pieces[j..]))
  {
    TailSize(pieces, j);
    Associative(bytes, pieces[j], Flatten(pieces[j + 1..]));
    var grown := bytes + pieces[j];
    if j + 1 == |pieces| {
      assert grown + Flatten(pieces[j + 1..]) == grown;
    }
  }

  /** One fragment that follows directly. */
  lemma OnePiece(h: nat, lim: Limits, st: State, s: Slot, seqNo: nat)
    requires s.Fragment? && SlotOk(h, s) && s.index > 0 && st.assembly.Assembling? && st.assembly.since == 0
    requires Gap(seqNo, st.lastSeq) == 1
    requires var piece := s.pieces[s.index];
             && piece != [] && !Exceeds(|piece|, lim.maxPiece)
             && |st.assembly.bytes| + |piece| <= lim.maxUnit && !Exceeds(st.assembly.parts + 1, lim.maxParts)
    ensures var grown := st.assembly.bytes + s.pieces[s.index];
            SlotStep(h, lim, st, s, seqNo, 0) ==
            if s.index == |s.pieces| - 1 then (State(Idle, seqNo), [grown])
            else (State(Assembling(grown, st.assembly.parts + 1, 0), seqNo), [])
  {
  }

  /** One opening fragment of one byte. */
  lemma Opened(h: nat, lim: Limits, st: State, s: Slot, seqNo: nat)
    requires s.Fragment? && SlotOk(h, s) && s.index == 0 && |s.pieces| >= 2 && |s.pieces[0]| == 1
    requires 4 + h + 1 <= lim.maxUnit && !Exceeds(1, lim.maxPiece) && !Exceeds(2, lim.maxParts)
    ensures SlotStep(h, lim, st, s, seqNo, 0) == (State(Assembling(Unit(s.nal[..h]) + s.pieces[0], 2, 0), seqNo), [])
  {
  }

  lemma Head(h: nat, lim: Limits, st: State, slots: seq<Slot>, start: nat, ds: seq<Delivery>)
    requires Delivers(|slots|, ds) && ds != []
    ensures var (st', out) := SlotStep(h, lim, st, slots[ds[0].pos], SeqNo(start, ds[0].pos), ds[0].now);
            Returned(h, lim, st, Arrivals(slots, start, ds)) == out + Returned(h, lim, st', Arrivals(slots, start, ds[1..]))
  {
    assert Arrivals(slots, start, ds)[1..] == Arrivals(slots, start, ds[1..]);
  }

  // ---- Fragments that are passed over -----------------------------------------------------------------------------

  /** The last piece before the end that is empty. */
  lemma LastEmpty(pieces: seq<Bytes>) returns (j: nat)
    requires |pieces| >= 2 && pieces[|pieces| - 1] != [] && exists i :: 0 <= i < |pieces| - 1 && pieces[i] == []
    ensures j < |pieces| - 1 && pieces[j] == [] && forall k :: j < k < |pieces| ==> pieces[k] != []
  {
    j := |pieces| - 2;
    while pieces[j] != []
      invariant j < |pieces| - 1 && forall k :: j < k < |pieces| ==> pieces[k] != []
      invariant exists i :: 0 <= i <= j && pieces[i] == []
      decreases j
    {
      j := j - 1;
    }
  }

  /** Room for all fragments of the unit and two bytes more. */
  predicate Room(h: nat, lim: Limits, nal: Bytes, pieces: seq<Bytes>) {
    && |nal| + 5 <= lim.maxUnit && !Exceeds(|pieces| + 1, lim.maxParts) && |pieces| < 0x8000
    && !Exceeds(1, lim.maxPiece) && forall k :: 0 <= k < |pieces| ==> !Exceeds(|pieces[k]|, lim.maxPiece)
  }

  /** Two fragments of one byte each. */
  function Short(header: Bytes, a: byte, b: byte): Item { Fragmented(header + [a, b], [[a], [b]]) }

  lemma ShortIsFragmentable(header: Bytes, a: byte, b: byte)
    ensures Fragmentable(|header|, Short(header, a, b))
  {
    assert Flatten([[a], [b]]) == [a] + Flatten([[b]]) by { assert [[a], [b]][1..] == [[b]]; }
    FlattenOne([b]);
    assert (header + [a, b])[|header|..] == [a] + [b];
  }

  /** What follows the last empty piece. */
  lemma TailSize(pieces: seq<Bytes>, j: nat)
    requires j < |pieces|
    ensures Flatten(pieces[j..]) == pieces[j] + Flatten(pieces[j + 1..])
    ensures |Flatten(pieces[j..])| <= |Flatten(pieces)|
  {
    assert pieces[j..][1..] == pieces[j + 1..];
    assert pieces == pieces[..j] + pieces[j..];
    FlattenAppend(pieces[..j], pieces[j..]);
  }

  /** The delivery: the first fragment of the second unit, and the fragments of the first from the passed-over one on. */
  function Mixed(n: nat, j: nat): seq<Delivery>
    requires j <= n
  {
    [Delivery(n, 0)] + Walk(j, n)
  }

  lemma {:induction false} WalkIsSpaced(lim: Limits, slots: seq<Slot>, base: nat, nal: Bytes, pieces: seq<Bytes>, from: nat, last: Option<nat>)
    requires Carries(slots, base, nal, pieces) && from <= |pieces|
    requires last.Some? && from < |pieces| ==> Unmistakable(base + from - last.value)
    ensures Spaced(lim, slots, last, Walk(base + from, base + |pieces|), Unmistakable)
    decreases |pieces| - from
  {
    if from < |pieces| {
      var walk := Walk(base + from, base + |pieces|);
      assert walk[1..] == Walk(base + from + 1, base + |pieces|);
      assert slots[base + from] == Fragment(nal, pieces, from);
      WalkIsSpaced(lim, slots, base, nal, pieces, from + 1, Some(base + from));
    }
  }

  /** A unit with an empty fragment before the last and a last one that is not empty does harm in every layout: with
      room for it, there is another unit, and a plausible delivery of the two, that yields a unit never sent. */
  lemma UntameForges(h: nat, lim: Limits, nal: Bytes, pieces: seq<Bytes>, header: Bytes, start: nat) returns (b: byte, ds: seq<Delivery>)
    requires lim.skipsEmpty && Fragmentable(h, Fragmented(nal, pieces)) && !Tame(lim, Fragmented(nal, pieces)) && Room(h, lim, nal, pieces)
    requires |header| == h && header != nal[..h]
    ensures var other := Short(header, 1, b);
            var items := [Fragmented(nal, pieces), other];
            && Fragmentable(h, other) && Tame(lim, other) && Plausible(lim, Stream(items), ds)
            && (forall d :: d in ds ==> d.now == 0)
            && !AllSent(items, Returned(h, lim, State(Idle, 0), Arrivals(Stream(items), start, ds)))
  {
    var j := LastEmpty(pieces);
    TailSize(pieces, j + 1);
    b := if pieces[j + 1][0] == 0 then 1 else 0;
    ds := Mixed(|pieces|, j);
    ForgesAt(h, lim, nal, pieces, header, start, j, b);
  }

  lemma ForgesAt(h: nat, lim: Limits, nal: Bytes, pieces: seq<Bytes>, header: Bytes, start: nat, j: nat, b: byte)
    requires lim.skipsEmpty && Fragmentable(h, Fragmented(nal, pieces)) && Room(h, lim, nal, pieces)
    requires |header| == h && header != nal[..h]
    requires j + 1 < |pieces| && pieces[j] == [] && (forall k :: j < k < |pieces| ==> pieces[k] != []) && b != pieces[j + 1][0]
    ensures var other, ds := Short(header, 1, b), Mixed(|pieces|, j);
            var items := [Fragmented(nal, pieces), other];
            && Fragmentable(h, other) && Tame(lim, other) && Plausible(lim, Stream(items), ds)
            && !AllSent(items, Returned(h, lim, State(Idle, 0), Arrivals(Stream(items), start, ds)))
  {
    var other := Short(header, 1, b);
    var slots := Stream([Fragmented(nal, pieces), other]);
    ShortIsFragmentable(header, 1, b);
    TwoUnits(nal, pieces, other);
    MixedIsPlausible(lim, slots, nal, pieces, j, other);
    MixedReturns(h, lim, slots, start, nal, pieces, j, other);
    assert (header + [1, b])[..h] == header;
    MixtureIsNew(nal, pieces, header, j, b);
    NotSent([Fragmented(nal, pieces), other], Mixture(header, pieces, j),
            Returned(h, lim, State(Idle, 0), Arrivals(slots, start, Mixed(|pieces|, j))));
  }

  /** The unit that comes out: the opening of the one, and what follows the passed-over fragment of the other. */
  function Mixture(header: Bytes, pieces: seq<Bytes>, j: nat): Bytes
    requires j < |pieces|
  {
    header + [1] + Flatten(pieces[j + 1..])
  }

  lemma MixtureIsNew(nal: Bytes, pieces: seq<Bytes>, header: Bytes, j: nat, b: byte)
    requires |nal| >= |header| && header != nal[..|header|]
    requires j + 1 < |pieces| && pieces[j + 1] != [] && b != pieces[j + 1][0]
    ensures CarriedByNone([Fragmented(nal, pieces), Short(header, 1, b)], Mixture(header, pieces, j))
  {
    TailSize(pieces, j + 1);
    Differs(header, Flatten(pieces[j + 1..]), nal, b);
  }

  lemma MixedIsPlausible(lim: Limits, slots: seq<Slot>, nal: Bytes, pieces: seq<Bytes>, j: nat, other: Item)
    requires j < |pieces| < 0x8000 && other.Fragmented? && |other.pieces| == 2
    requires |slots| == |pieces| + 2 && Carries(slots, 0, nal, pieces) && Carries(slots, |pieces|, other.nal, other.pieces)
    ensures Plausible(lim, slots, Mixed(|pieces|, j))
  {
    var n := |pieces|;
    assert Mixed(n, j)[1..] == Walk(j, n);
    assert slots[n + 0] == Fragment(other.nal, other.pieces, 0);
    WalkIsSpaced(lim, slots, 0, nal, pieces, j, Some(n));
  }

  lemma Differs(header: Bytes, tail: Bytes, nal: Bytes, b: byte)
    requires tail != [] && b != tail[0] && |nal| >= |header| && header != nal[..|header|]
    ensures header + [1] + tail != nal && header + [1] + tail != header + [1, b]
  {
    var forged := header + [1] + tail;
    assert forged[..|header|] == header;
    assert forged[|header| + 1] == tail[0] && (header + [1, b])[|header| + 1] == b;
  }

  lemma TwoUnits(nal: Bytes, pieces: seq<Bytes>, other: Item)
    requires other.Fragmented?
    ensures var slots := Stream([Fragmented(nal, pieces), other]);
            && |slots| == |pieces| + |other.pieces|
            && Carries(slots, 0, nal, pieces) && Carries(slots, |pieces|, other.nal, other.pieces)
  {
    StreamAppend([Fragmented(nal, pieces)], [other]);
    StreamOne(Fragmented(nal, pieces));
    StreamOne(other);
    assert [Fragmented(nal, pieces), other] == [Fragmented(nal, pieces)] + [other];
  }

  lemma MixedReturns(h: nat, lim: Limits, slots: seq<Slot>, start: nat, nal: Bytes, pieces: seq<Bytes>, j: nat, other: Item)
    requires lim.skipsEmpty && Fragmentable(h, Fragmented(nal, pieces)) && Room(h, lim, nal, pieces)
    requires j + 1 < |pieces| && pieces[j] == [] && forall k :: j < k < |pieces| ==> pieces[k] != []
    requires other.Fragmented? && |other.pieces| == 2 && |other.pieces[0]| == 1 && Fragmentable(h, other)
    requires Carries(slots, 0, nal, pieces) && Carries(slots, |pieces|, other.nal, other.pieces)
    ensures Returned(h, lim, State(Idle, 0), Arrivals(slots, start, Mixed(|pieces|, j)))
            == [Unit(other.nal[..h] + other.pieces[0] + Flatten(pieces[j + 1..]))]
  {
    var n, ds := |pieces|, Mixed(|pieces|, j);
    var begun := Unit(other.nal[..h]) + other.pieces[0];
    assert slots[n + 0] == Fragment(other.nal, other.pieces, 0);
    Opened(h, lim, State(Idle, 0), slots[n], SeqNo(start, n));
    Head(h, lim, State(Idle, 0), slots, start, ds);
    assert ds[1..] == Walk(j, n);
    SkippedReturns(h, lim, slots, start, nal, pieces, j, begun);
    Associative(START_CODE, other.nal[..h], other.pieces[0]);
    Associative(START_CODE, other.nal[..h] + other.pieces[0], Flatten(pieces[j + 1..]));
  }

  /** The passed-over fragment only moves the sequence number on. */
  lemma SkippedReturns(h: nat, lim: Limits, slots: seq<Slot>, start: nat, nal: Bytes, pieces: seq<Bytes>, j: nat, begun: Bytes)
    requires lim.skipsEmpty && Fragmentable(h, Fragmented(nal, pieces)) && Room(h, lim, nal, pieces) && |begun| == 4 + h + 1
    requires j + 1 < |pieces| && pieces[j] == [] && forall k :: j < k < |pieces| ==> pieces[k] != []
    requires Carries(slots, 0, nal, pieces)
    ensures var n := |pieces|;
            Returned(h, lim, State(Assembling(begun, 2, 0), SeqNo(start, n)), Arrivals(slots, start, Walk(j, n)))
            == [begun + Flatten(pieces[j + 1..])]
  {
    var n := |pieces|;
    assert slots[0 + j] == Fragment(nal, pieces, j);
    Head(h, lim, State(Assembling(begun, 2, 0), SeqNo(start, n)), slots, start, Walk(j, n));
    assert Walk(j, n)[1..] == Walk(j + 1, n);
    TailSize(pieces, j + 1);
    TailCompletes(h, lim, slots, start, 0, nal, pieces, j + 1, begun, 2);
  }

  // ---- Packets that leave no trace ----------------------------------------------------------------------------------

  lemma {:induction false} QuietRun(h: nat, lim: Limits, st: State, slots: seq<Slot>, start: nat, last: Option<nat>, path: seq<Delivery>, rest: seq<Delivery>, ok: int -> bool)
    requires Delivers(|slots|, path) && Delivers(|slots|, rest) && forall d :: d in path ==> Unheard(lim, slots[d.pos])
    ensures Delivers(|slots|, path + rest)
    ensures Returned(h, lim, st, Arrivals(slots, start, path + rest)) == Returned(h, lim, st, Arrivals(slots, start, rest))
    ensures Spaced(lim, slots, last, path + rest, ok) == Spaced(lim, slots, last, rest, ok)
    decreases |path|
  {
    if path == [] {
      assert path + rest == rest;
    } else {
      assert (path + rest)[1..] == path[1..] + rest;
      assert path[0] in path;
      QuietRun(h, lim, st, slots, start, last, path[1..], rest, ok);
      Head(h, lim, st, slots, start, path + rest);
    }
  }

  /** Three fragments of one byte each. */
  function Long(header: Bytes): Item { Fragmented(header + [3, 4, 5], [[3], [4], [5]]) }

  lemma LongIsFragmentable(header: Bytes)
    ensures Fragmentable(|header|, Long(header))
    ensures Flatten(Long(header).pieces[1..]) == [4, 5] && Flatten(Long(header).pieces[2..]) == [5]
  {
    var pieces: seq<Bytes> := [[3], [4], [5]];
    FlattenOne([5]);
    assert pieces[1..] == [[4], [5]] && pieces[2..] == [[5]] && pieces[1..][1..] == [[5]];
    assert Flatten(pieces[1..]) == [4] + [5] == [4, 5];
    assert Flatten(pieces) == [3] + Flatten(pieces[1..]) == [3, 4, 5];
    assert (header + [3, 4, 5])[|header|..] == [3, 4, 5];
  }

  lemma LongFits(lim: Limits, header: Bytes, j: nat)
    requires 1 <= j <= 2 && |header| + 8 <= lim.maxUnit && !Exceeds(1, lim.maxPiece) && !Exceeds(4, lim.maxParts)
    ensures RoomFor(lim, |Unit(header) + [1]|, 2, Long(header).pieces, j)
  {
    LongIsFragmentable(header);
  }

  lemma FarApart(d: int)
    requires !Unmistakable(d)
    ensures d > 3 || d < -3
  {
  }

  /** A stream in which the second fragment of the long unit stands `d` positions behind the first of the short one. */
  function Apart(d: int, header: Bytes, quiet: Item): seq<Item>
    requires d > 3 || d < -3
  {
    if d > 0 then [Short(header, 1, 2)] + Repeat(quiet, d - 3) + [Long(header)]
    else [Long(header)] + Repeat(quiet, -d - 2) + [Short(header, 1, 2)]
  }

  function ShortAt(d: int): nat { if d > 0 then 0 else 1 - d }
  function LongAt(d: int): nat { if d > 0 then d - 1 else 0 }

  /** The packets between the two units, in the direction from the short one to the long one. */
  function Path(d: int): (ds: seq<Delivery>)
    requires d > 3 || d < -3
    ensures |ds| == (if d > 0 then d - 3 else -d - 2)
    ensures forall i :: 0 <= i < |ds| ==> ds[i] == Delivery(if d > 0 then 2 + i else -d - i, 0)
  {
    seq(if d > 0 then d - 3 else -d - 2, i requires 0 <= i < (if d > 0 then d - 3 else -d - 2) => Delivery(if d > 0 then 2 + i else -d - i, 0))
  }

  function ApartDelivery(d: int): seq<Delivery>
    requires d > 3 || d < -3
  {
    [Delivery(ShortAt(d), 0)] + (Path(d) + Walk(LongAt(d) + 1, LongAt(d) + 3))
  }

  lemma ApartStream(d: int, header: Bytes, quiet: Item)
    requires (d > 3 || d < -3) && !quiet.Fragmented?
    ensures var slots := Stream(Apart(d, header, quiet));
            && |slots| == (if d > 0 then d + 2 else 3 - d)
            && Carries(slots, ShortAt(d), Short(header, 1, 2).nal, Short(header, 1, 2).pieces)
            && Carries(slots, LongAt(d), Long(header).nal, Long(header).pieces)
            && (forall q :: q in Path(d) ==> q.pos < |slots| && slots[q.pos] == Whole(quiet))
  {
    if d > 0 {
      StreamOfThree(Short(header, 1, 2), quiet, d - 3, Long(header));
    } else {
      StreamOfThree(Long(header), quiet, -d - 2, Short(header, 1, 2));
    }
  }

  lemma ApartIsClose(d: int, n: nat)
    requires (d > 3 || d < -3) && n == if d > 0 then d + 2 else 3 - d
    ensures Close(n, ApartDelivery(d)) && forall x :: x in ApartDelivery(d) ==> x.now == 0
  {
  }

  predicate OrAt(d: int, x: int) { Unmistakable(x) || x == d }

  lemma WalkIsSpacedOr(lim: Limits, slots: seq<Slot>, d: int, nal: Bytes, pieces: seq<Bytes>)
    requires (d > 3 || d < -3) && |pieces| == 3 && Carries(slots, LongAt(d), nal, pieces)
    ensures Spaced(lim, slots, Some(ShortAt(d)), Walk(LongAt(d) + 1, LongAt(d) + 3), x => OrAt(d, x))
  {
    var base, ok := LongAt(d), x => OrAt(d, x);
    var walk := Walk(base + 1, base + 3);
    assert slots[base + 1] == Fragment(nal, pieces, 1);
    assert walk[1..] == Walk(base + 2, base + 3);
    WalkIsSpaced(lim, slots, base, nal, pieces, 2, Some(base + 1));
    SpacedMore(lim, slots, Some(base + 1), walk[1..], Unmistakable, ok);
  }

  lemma ApartIsSpaced(lim: Limits, d: int, slots: seq<Slot>, header: Bytes, quiet: Item, start: nat)
    requires (d > 3 || d < -3) && !quiet.Fragmented? && Unheard(lim, Whole(quiet)) && slots == Stream(Apart(d, header, quiet))
    ensures Delivers(|slots|, ApartDelivery(d)) && Spaced(lim, slots, None, ApartDelivery(d), x => OrAt(d, x))
  {
    ApartStream(d, header, quiet);
    ApartIsClose(d, |slots|);
    var long, ds, walk := Long(header), ApartDelivery(d), Walk(LongAt(d) + 1, LongAt(d) + 3);
    var ok := x => OrAt(d, x);
    assert slots[ShortAt(d) + 0] == Fragment(Short(header, 1, 2).nal, Short(header, 1, 2).pieces, 0);
    WalkIsSpacedOr(lim, slots, d, long.nal, long.pieces);
    QuietRun(0, lim, State(Idle, 0), slots, start, Some(ShortAt(d)), Path(d), walk, ok);
    assert ds[1..] == Path(d) + walk;
  }

  /** What comes out: the first byte of the short unit and the last ones of the long unit. */
  function Forged(d: int, header: Bytes): Bytes {
    header + [1] + if d % 0x1_0000 == 1 then [4, 5] else [5]
  }

  lemma ApartReturns(h: nat, lim: Limits, d: int, slots: seq<Slot>, header: Bytes, quiet: Item, start: nat)
    requires !Unmistakable(d) && |header| == h && slots == Stream(Apart(d, header, quiet))
    requires !quiet.Fragmented? && Unheard(lim, Whole(quiet))
    requires h + 8 <= lim.maxUnit && !Exceeds(1, lim.maxPiece) && !Exceeds(4, lim.maxParts)
    ensures Delivers(|slots|, ApartDelivery(d))
    ensures Returned(h, lim, State(Idle, 0), Arrivals(slots, start, ApartDelivery(d))) == [Unit(Forged(d, header))]
  {
    ApartStream(d, header, quiet);
    ApartIsClose(d, |slots|);
    var short, long, ds, walk := Short(header, 1, 2), Long(header), ApartDelivery(d), Walk(LongAt(d) + 1, LongAt(d) + 3);
    var begun := State(Assembling(Unit(header) + [1], 2, 0), SeqNo(start, ShortAt(d)));
    ShortIsFragmentable(header, 1, 2);
    LongIsFragmentable(header);
    assert slots[ShortAt(d) + 0] == Fragment(short.nal, short.pieces, 0) && short.nal[..h] == header;
    Opened(h, lim, State(Idle, 0), slots[ShortAt(d)], SeqNo(start, ShortAt(d)));
    Head(h, lim, State(Idle, 0), slots, start, ds);
    assert ds[1..] == Path(d) + walk;
    QuietRun(h, lim, begun, slots, start, None, Path(d), walk, Unmistakable);
    LongCompletes(h, lim, slots, start, d, header, begun);
  }

  lemma LongCompletes(h: nat, lim: Limits, slots: seq<Slot>, start: nat, d: int, header: Bytes, begun: State)
    requires !Unmistakable(d) && |header| == h && begun == State(Assembling(Unit(header) + [1], 2, 0), SeqNo(start, ShortAt(d)))
    requires h + 8 <= lim.maxUnit && !Exceeds(1, lim.maxPiece) && !Exceeds(4, lim.maxParts)
    requires Carries(slots, LongAt(d), Long(header).nal, Long(header).pieces)
    ensures Returned(h, lim, begun, Arrivals(slots, start, Walk(LongAt(d) + 1, LongAt(d) + 3))) == [Unit(Forged(d, header))]
  {
    if d % 0x1_0000 == 1 {
      TakenForNext(h, lim, slots, start, d, header, begun);
    } else {
      TakenForSame(h, lim, slots, start, d, header, begun);
    }
  }

  lemma TakenForNext(h: nat, lim: Limits, slots: seq<Slot>, start: nat, d: int, header: Bytes, begun: State)
    requires d % 0x1_0000 == 1 && (d > 3 || d < -3) && |header| == h
    requires begun == State(Assembling(Unit(header) + [1], 2, 0), SeqNo(start, ShortAt(d)))
    requires h + 8 <= lim.maxUnit && !Exceeds(1, lim.maxPiece) && !Exceeds(4, lim.maxParts)
    requires Carries(slots, LongAt(d), Long(header).nal, Long(header).pieces)
    ensures Returned(h, lim, begun, Arrivals(slots, start, Walk(LongAt(d) + 1, LongAt(d) + 3))) == [Unit(Forged(d, header))]
  {
    var base, long, bytes := LongAt(d), Long(header), Unit(header) + [1];
    LongIsFragmentable(header);
    LongFits(lim, header, 1);
    SameSeqNo(start, base, ShortAt(d));
    TailCompletes(h, lim, slots, start, base, long.nal, long.pieces, 1, bytes, 2);
    assert bytes + [4, 5] == Unit(Forged(d, header));
  }

  lemma TakenForSame(h: nat, lim: Limits, slots: seq<Slot>, start: nat, d: int, header: Bytes, begun: State)
    requires d % 0x1_0000 == 0 && (d > 3 || d < -3) && |header| == h
    requires begun == State(Assembling(Unit(header) + [1], 2, 0), SeqNo(start, ShortAt(d)))
    requires h + 8 <= lim.maxUnit && !Exceeds(1, lim.maxPiece) && !Exceeds(4, lim.maxParts)
    requires Carries(slots, LongAt(d), Long(header).nal, Long(header).pieces)
    ensures Returned(h, lim, begun, Arrivals(slots, start, Walk(LongAt(d) + 1, LongAt(d) + 3))) == [Unit(Forged(d, header))]
  {
    var base, long, bytes := LongAt(d), Long(header), Unit(header) + [1];
    var walk := Walk(base + 1, base + 3);
    LongIsFragmentable(header);
    LongFits(lim, header, 2);
    assert walk[1..] == Walk(base + 2, base + 3);
    assert slots[base + 1] == Fragment(long.nal, long.pieces, 1);
    GapMeans(start, base + 1, ShortAt(d));
    Ignored(h, lim, begun, slots[base + 1], SeqNo(start, base + 1));
    Head(h, lim, begun, slots, start, walk);
    TailCompletes(h, lim, slots, start, base, long.nal, long.pieces, 2, bytes, 2);
    assert bytes + [5] == Unit(Forged(d, header));
  }

  /** A fragment with the sequence number heard last is taken for a duplicate. */
  lemma Ignored(h: nat, lim: Limits, st: State, s: Slot, seqNo: nat)
    requires s.Fragment? && SlotOk(h, s) && s.index > 0 && st.assembly.Assembling? && st.assembly.since == 0
    requires Gap(seqNo, st.lastSeq) == 0 && !Exceeds(|s.pieces[s.index]|, lim.maxPiece)
    ensures SlotStep(h, lim, st, s, seqNo, 0) == (State(st.assembly, seqNo), [])
  {
  }

  lemma SameSeqNo(start: nat, p: nat, q: nat)
    requires (p - q) % 0x1_0000 == 0
    ensures SeqNo(start, p) == SeqNo(start, q)
  {
  }

  /** A distance between two packets that are heard one after the other does harm exactly when it is mistaken for another:
      with packets in between that leave no trace, and no two deliveries more than two positions apart. */
  lemma MistakenForges(h: nat, lim: Limits, d: int, header: Bytes, quiet: Item, start: nat)
    requires !Unmistakable(d) && |header| == h
    requires !quiet.Fragmented? && Unheard(lim, Whole(quiet)) && Forged(d, header) !in NalsOf(quiet)
    requires h + 8 <= lim.maxUnit && !Exceeds(1, lim.maxPiece) && !Exceeds(4, lim.maxParts)
    ensures var items, ds := Apart(d, header, quiet), ApartDelivery(d);
            var slots := Stream(items);
            && Orderly(h, lim, items)
            && Close(|slots|, ds) && Spaced(lim, slots, None, ds, x => OrAt(d, x))
            && !AllSent(items, Returned(h, lim, State(Idle, 0), Arrivals(slots, start, ds)))
  {
    FarApart(d);
    var slots := Stream(Apart(d, header, quiet));
    ApartStream(d, header, quiet);
    ApartIsClose(d, |slots|);
    ApartIsSpaced(lim, d, slots, header, quiet, start);
    ApartOrderly(h, lim, d, header, quiet);
    ApartNotSent(h, lim, d, slots, header, quiet, start);
  }

  lemma ApartNotSent(h: nat, lim: Limits, d: int, slots: seq<Slot>, header: Bytes, quiet: Item, start: nat)
    requires (d > 3 || d < -3) && !Unmistakable(d) && |header| == h && slots == Stream(Apart(d, header, quiet))
    requires !quiet.Fragmented? && Unheard(lim, Whole(quiet)) && Forged(d, header) !in NalsOf(quiet)
    requires h + 8 <= lim.maxUnit && !Exceeds(1, lim.maxPiece) && !Exceeds(4, lim.maxParts)
    requires Delivers(|slots|, ApartDelivery(d))
    ensures !AllSent(Apart(d, header, quiet), Returned(h, lim, State(Idle, 0), Arrivals(slots, start, ApartDelivery(d))))
  {
    ApartReturns(h, lim, d, slots, header, quiet, start);
    ForgedIsNew(d, header, quiet);
    var units := Returned(h, lim, State(Idle, 0), Arrivals(slots, start, ApartDelivery(d)));
    NotSent(Apart(d, header, quiet), Forged(d, header), units);
  }

  lemma ForgedIsNew(d: int, header: Bytes, quiet: Item)
    requires (d > 3 || d < -3) && Forged(d, header) !in NalsOf(quiet)
    ensures CarriedByNone(Apart(d, header, quiet), Forged(d, header))
  {
    ForgedDiffers(d, header);
    assert forall item :: item in Apart(d, header, quiet) ==> item == quiet || item == Long(header) || item == Short(header, 1, 2);
  }

  lemma ForgedDiffers(d: int, header: Bytes)
    ensures Forged(d, header) != Long(header).nal && Forged(d, header) != Short(header, 1, 2).nal
  {
    var h := |header|;
    assert Forged(d, header)[h] == 1 && Long(header).nal[h] == 3;
    assert Forged(d, header)[h + 1] != 2 && Short(header, 1, 2).nal[h + 1] == 2;
  }

  lemma ApartOrderly(h: nat, lim: Limits, d: int, header: Bytes, quiet: Item)
    requires (d > 3 || d < -3) && |header| == h && !quiet.Fragmented?
    ensures Orderly(h, lim, Apart(d, header, quiet))
    ensures forall item :: item in Apart(d, header, quiet) ==> item == quiet || item == Long(header) || item == Short(header, 1, 2)
  {
    ShortIsFragmentable(header, 1, 2);
    LongIsFragmentable(header);
  }
}
