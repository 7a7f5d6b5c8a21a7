/**
 * Reassembly of fragmentation units, common to both depacketizers: what one fragment does to an assembly in
 * progress, and what a run over any delivery of a packet stream returns.
 */
module Reassembly {
  import opened Sequences
  import opened Bytes
  import opened RtpStream
  import opened Aggregation

  /** `None` where a codec has no such limit; a timeout that is not positive is off. `skipsEmpty` says that a fragment
      without data is passed over before anything else is looked at. `rules` are those for aggregation packets. */
  datatype Limits = Limits(
    maxUnit: nat, maxPiece: Option<nat>, maxParts: Option<nat>, timeout: int, skipsEmpty: bool, rules: Rules)

  /** The assembly in progress: the bytes so far, start code included, the number of parts they came in, and the start time. */
  datatype Assembly = Idle | Assembling(bytes: Bytes, parts: nat, since: int)

  datatype State = State(assembly: Assembly, lastSeq: nat)

  /** A parsed fragment; `header` is the start code and the rebuilt NAL unit header. */
  datatype Fu = Fu(start: bool, end: bool, header: Bytes, body: Bytes)

  predicate Exceeds(n: nat, limit: Option<nat>) { limit.Some? && n > limit.value }

  predicate TimedOut(lim: Limits, a: Assembly, now: int) {
    lim.timeout > 0 && a.Assembling? && now - a.since > lim.timeout
  }

  /** The effect of one fragment: the next assembly, and the unit it completes, if any. */
  function Accept(lim: Limits, st: State, fu: Fu, seqNo: nat, now: int): (Assembly, Option<Bytes>) {
    if lim.skipsEmpty && fu.body == [] then (st.assembly, None)
    else if Exceeds(|fu.body|, lim.maxPiece) then (Idle, None)
    else
      var kept := if TimedOut(lim, st.assembly, now) then Idle else st.assembly;
      var a := if fu.start then Assembling(fu.header, 1, now) else kept;
      if a.Idle? then (Idle, None)
      else if !fu.start && Gap(seqNo, st.lastSeq) == 0 then (a, None)
      else if !fu.start && Gap(seqNo, st.lastSeq) != 1 then (Idle, None)
      else Append(lim, a, fu)
  }

  function Append(lim: Limits, a: Assembly, fu: Fu): (Assembly, Option<Bytes>)
    requires a.Assembling?
  {
    if |a.bytes| + |fu.body| > lim.maxUnit then (Idle, None)
    else if Exceeds(a.parts + 1, lim.maxParts) then (Idle, None)
    else if fu.end then (Idle, Some(a.bytes + fu.body))
    else (Assembling(a.bytes + fu.body, a.parts + 1, a.since), None)
  }

  /** The two loops over the fragments that both depacketizers have: their total size, and their concatenation. */
  method TotalSize(fragments: seq<Bytes>) returns (n: nat)
    ensures n == |Flatten(fragments)|
  {
    n := 0;
    for i := 0 to |fragments|
      invariant n == |Flatten(fragments[..i])|
    {
      assert fragments[..i + 1] == fragments[..i] + [fragments[i]];
      FlattenSnoc(fragments[..i], fragments[i]);
      n := n + |fragments[i]|;
    }
    assert fragments[..|fragments|] == fragments;
  }

  method Joined(fragments: seq<Bytes>) returns (unit: Bytes)
    ensures unit == Flatten(fragments)
  {
    unit := [];
    for i := 0 to |fragments|
      invariant unit == Flatten(fragments[..i])
    {
      assert fragments[..i + 1] == fragments[..i] + [fragments[i]];
      FlattenSnoc(fragments[..i], fragments[i]);
      unit := unit + fragments[i];
    }
    assert fragments[..|fragments|] == fragments;
  }

  /** A unit as the depacketizers return it. */
  function Unit(nal: Bytes): Bytes { START_CODE + nal }

  function Units(nals: seq<Bytes>): (r: seq<Bytes>)
    ensures |r| == |nals|
    ensures forall i :: 0 <= i < |r| ==> r[i] == Unit(nals[i])
  {
    seq(|nals|, i requires 0 <= i < |nals| => Unit(nals[i]))
  }

  lemma UnitsFit(nals: seq<Bytes>, max: nat)
    requires forall nal :: nal in nals ==> 0 < |nal| <= max
    ensures forall u :: u in Units(nals) ==> 4 < |u| <= 4 + max
  {
    forall u | u in Units(nals) ensures 4 < |u| <= 4 + max {
      var i :| 0 <= i < |nals| && Units(nals)[i] == u;
      assert nals[i] in nals;
    }
  }

  lemma UnitsAppend(a: seq<Bytes>, b: seq<Bytes>)
    ensures Units(a + b) == Units(a) + Units(b)
  {
  }

  /** The fragment that the slot carries, with `h` header bytes per NAL unit. */
  function FuOf(h: nat, s: Slot): Fu
    requires s.Fragment? && s.index < |s.pieces| && h <= |s.nal|
  {
    Fu(s.index == 0, s.index == |s.pieces| - 1, Unit(s.nal[..h]), s.pieces[s.index])
  }

  /** A unit with a fragment that is passed over is never completed by its own last fragment: that one is passed over too,
      or else no other is. */
  predicate Tame(lim: Limits, item: Item) {
    lim.skipsEmpty && item.Fragmented? && item.pieces != [] ==>
      item.pieces[|item.pieces| - 1] == [] || forall j :: 0 <= j < |item.pieces| - 1 ==> item.pieces[j] != []
  }

  /** The packet is refused or ignored, and leaves no trace: not even its sequence number is noted. */
  predicate Unheard(lim: Limits, s: Slot) {
    s.Whole? && (s.item.Other? || (s.item.Aggregate? && !Admissible(lim.rules, s.item.nals, 0)))
  }

  predicate SlotOk(h: nat, s: Slot) {
    match s
    case Whole(item) => !item.Fragmented?
    case Fragment(nal, pieces, j) => j < |pieces| && Fragmentable(h, Fragmented(nal, pieces))
  }

  /** What one packet of a stream does to a depacketizer. Only slots that are `SlotOk` occur in a stream. */
  function SlotStep(h: nat, lim: Limits, st: State, s: Slot, seqNo: nat, now: int): (State, seq<Bytes>) {
    if s.Fragment? && SlotOk(h, s) then
      var (a, unit) := Accept(lim, st, FuOf(h, s), seqNo, now);
      (State(a, seqNo), if unit.Some? then [unit.value] else [])
    else if Unheard(lim, s) then (st, [])
    else (State(st.assembly, seqNo), if s.Whole? then Units(NalsOf(s.item)) else [])
  }

  /** One delivered packet: which one, its sequence number and when. */
  datatype Arrival = Arrival(slot: Slot, seqNo: nat, now: int)

  function FinalState(h: nat, lim: Limits, st: State, arrivals: seq<Arrival>): State
    decreases |arrivals|
  {
    if arrivals == [] then st
    else FinalState(h, lim, SlotStep(h, lim, st, arrivals[0].slot, arrivals[0].seqNo, arrivals[0].now).0, arrivals[1..])
  }

  function Returned(h: nat, lim: Limits, st: State, arrivals: seq<Arrival>): seq<Bytes>
    decreases |arrivals|
  {
    if arrivals == [] then []
    else
      var (st', out) := SlotStep(h, lim, st, arrivals[0].slot, arrivals[0].seqNo, arrivals[0].now);
      out + Returned(h, lim, st', arrivals[1..])
  }

  lemma {:induction false} RunAppend(h: nat, lim: Limits, st: State, a: seq<Arrival>, b: seq<Arrival>)
    ensures FinalState(h, lim, st, a + b) == FinalState(h, lim, FinalState(h, lim, st, a), b)
    ensures Returned(h, lim, st, a + b) == Returned(h, lim, st, a) + Returned(h, lim, FinalState(h, lim, st, a), b)
    decreases |a|
  {
    if a == [] {
      assert a + b == b;
    } else {
      assert (a + b)[1..] == a[1..] + b;
      RunAppend(h, lim, SlotStep(h, lim, st, a[0].slot, a[0].seqNo, a[0].now).0, a[1..], b);
    }
  }

  // ---- Any delivery: loss, duplication, reordering --------------------------------------------------------

  /** A delivery names packets by position in the stream. */
  datatype Delivery = Delivery(pos: nat, now: int)

  predicate Delivers(n: nat, ds: seq<Delivery>) { forall i :: 0 <= i < |ds| ==> ds[i].pos < n }

  /** The sequence number `d` positions on is taken for the same or the next one only if it is. */
  predicate Unmistakable(d: int) { (d % 0x1_0000 == 0 ==> d == 0) && (d % 0x1_0000 == 1 ==> d == 1) }

  /** Every packet that the receiver hears is at a distance that is `ok` from the one it heard before. */
  predicate Spaced(lim: Limits, slots: seq<Slot>, last: Option<nat>, ds: seq<Delivery>, ok: int -> bool)
    requires Delivers(|slots|, ds)
    decreases |ds|
  {
    ds == [] ||
    (if Unheard(lim, slots[ds[0].pos]) then Spaced(lim, slots, last, ds[1..], ok)
     else (last.Some? ==> ok(ds[0].pos - last.value)) && Spaced(lim, slots, Some(ds[0].pos), ds[1..], ok))
  }

  /** No packet is taken for a neighbour of the one heard before it, unless it is one. */
  predicate Plausible(lim: Limits, slots: seq<Slot>, ds: seq<Delivery>) {
    Delivers(|slots|, ds) && Spaced(lim, slots, None, ds, Unmistakable)
  }

  /** Less than half the sequence space between neighbours is plausible if every packet is heard. */
  predicate Close(n: nat, ds: seq<Delivery>) {
    Delivers(n, ds) && forall i :: 0 <= i < |ds| - 1 ==> -0x8000 < ds[i + 1].pos - ds[i].pos < 0x8000
  }

  lemma CloseIsPlausible(lim: Limits, slots: seq<Slot>, ds: seq<Delivery>)
    requires Close(|slots|, ds) && forall s :: s in slots ==> !Unheard(lim, s)
    ensures Plausible(lim, slots, ds)
  {
    CloseIsSpaced(lim, slots, None, ds);
  }

  lemma {:induction false} CloseIsSpaced(lim: Limits, slots: seq<Slot>, last: Option<nat>, ds: seq<Delivery>)
    requires Close(|slots|, ds) && forall s :: s in slots ==> !Unheard(lim, s)
    requires last.Some? && ds != [] ==> -0x8000 < ds[0].pos - last.value < 0x8000
    ensures Spaced(lim, slots, last, ds, Unmistakable)
    decreases |ds|
  {
    if ds != [] {
      assert slots[ds[0].pos] in slots;
      CloseIsSpaced(lim, slots, Some(ds[0].pos), ds[1..]);
    }
  }

  lemma {:induction false} SpacedMore(lim: Limits, slots: seq<Slot>, last: Option<nat>, ds: seq<Delivery>, ok: int -> bool, more: int -> bool)
    requires Delivers(|slots|, ds) && Spaced(lim, slots, last, ds, ok) && forall d :: ok(d) ==> more(d)
    ensures Spaced(lim, slots, last, ds, more)
    decreases |ds|
  {
    if ds != [] {
      SpacedMore(lim, slots, if Unheard(lim, slots[ds[0].pos]) then last else Some(ds[0].pos), ds[1..], ok, more);
    }
  }

  function Arrivals(slots: seq<Slot>, start: nat, ds: seq<Delivery>): (r: seq<Arrival>)
    requires forall i :: 0 <= i < |ds| ==> ds[i].pos < |slots|
    ensures |r| == |ds|
    ensures forall i :: 0 <= i < |r| ==> r[i] == Arrival(slots[ds[i].pos], SeqNo(start, ds[i].pos), ds[i].now)
  {
    seq(|ds|, i requires 0 <= i < |ds| => Arrival(slots[ds[i].pos], SeqNo(start, ds[i].pos), ds[i].now))
  }

  /** The bytes collected once fragment `j` has been accepted. */
  function Prefix(h: nat, nal: Bytes, pieces: seq<Bytes>, j: nat): Bytes
    requires h <= |nal| && j < |pieces|
  {
    Unit(nal[..h]) + Flatten(pieces[..j + 1])
  }

  /** The last fragment of the unit is not passed over. */
  predicate Closes(lim: Limits, pieces: seq<Bytes>) { pieces != [] && !(lim.skipsEmpty && pieces[|pieces| - 1] == []) }

  /** While a fragment that is not the last was heard last, the assembly holds exactly the prefix up to it, if the last
      fragment can complete it; after any other packet the assembly may be stale, but no fragment can continue it. */
  ghost predicate Faithful(h: nat, lim: Limits, st: State, slots: seq<Slot>, start: nat, last: Option<nat>)
  {
    match last
    case None => st.assembly.Idle?
    case Some(p) =>
      && p < |slots|
      && SlotOk(h, slots[p])
      && st.lastSeq == SeqNo(start, p)
      && (slots[p].Fragment? && st.assembly.Assembling? && slots[p].index < |slots[p].pieces| - 1 && Closes(lim, slots[p].pieces) ==>
            st.assembly.bytes == Prefix(h, slots[p].nal, slots[p].pieces, slots[p].index))
  }

  lemma PrefixFirst(h: nat, nal: Bytes, pieces: seq<Bytes>)
    requires h <= |nal| && pieces != []
    ensures Prefix(h, nal, pieces, 0) == Unit(nal[..h]) + pieces[0]
  {
    assert pieces[..1] == [pieces[0]];
    FlattenSnoc([], pieces[0]);
    assert [] + [pieces[0]] == [pieces[0]];
  }

  lemma PrefixNext(h: nat, nal: Bytes, pieces: seq<Bytes>, j: nat)
    requires h <= |nal| && 0 < j < |pieces|
    ensures Prefix(h, nal, pieces, j) == Prefix(h, nal, pieces, j - 1) + pieces[j]
  {
    assert pieces[..j + 1] == pieces[..j] + [pieces[j]];
    FlattenSnoc(pieces[..j], pieces[j]);
    Associative(Unit(nal[..h]), Flatten(pieces[..j]), pieces[j]);
  }

  lemma PrefixWhole(h: nat, nal: Bytes, pieces: seq<Bytes>)
    requires h <= |nal| && pieces != [] && Flatten(pieces) == nal[h..]
    ensures Prefix(h, nal, pieces, |pieces| - 1) == Unit(nal)
  {
    assert pieces[..|pieces|] == pieces;
    Associative(START_CODE, nal[..h], nal[h..]);
    assert nal[..h] + nal[h..] == nal;
  }

  /** The only ways in which a fragment leaves an assembly or a unit behind. */
  lemma AcceptShape(lim: Limits, st: State, fu: Fu, seqNo: nat, now: int)
    requires !(lim.skipsEmpty && fu.body == [])
    ensures var (a, unit) := Accept(lim, st, fu, seqNo, now);
            var grown := if fu.start then Some(fu.header + fu.body)
                         else if st.assembly.Assembling? && Gap(seqNo, st.lastSeq) == 1 then Some(st.assembly.bytes + fu.body)
                         else None;
            && (unit.Some? ==> fu.end && unit == grown)
            && (a.Assembling? ==> (!fu.end && grown == Some(a.bytes)) || (!fu.start && Gap(seqNo, st.lastSeq) == 0 && a == st.assembly))
  {
  }

  ghost predicate AllSent(items: seq<Item>, units: seq<Bytes>) {
    forall u :: u in units ==> exists nal :: nal in SentNals(items) && u == Unit(nal)
  }

  ghost predicate Orderly(h: nat, lim: Limits, items: seq<Item>) {
    forall item :: item in items ==> Fragmentable(h, item) && Tame(lim, item)
  }

  /** One delivery keeps the invariant and returns only sent units. */
  lemma FaithfulStep(h: nat, lim: Limits, st: State, items: seq<Item>, start: nat, last: Option<nat>, d: Delivery)
    requires Orderly(h, lim, items)
    requires Faithful(h, lim, st, Stream(items), start, last)
    requires d.pos < |Stream(items)| && (last.Some? && !Unheard(lim, Stream(items)[d.pos]) ==> Unmistakable(d.pos - last.value))
    ensures SlotOk(h, Stream(items)[d.pos])
    ensures var slots := Stream(items);
            var (st', out) := SlotStep(h, lim, st, slots[d.pos], SeqNo(start, d.pos), d.now);
            && Faithful(h, lim, st', slots, start, if Unheard(lim, slots[d.pos]) then last else Some(d.pos))
            && AllSent(items, out)
  {
    var s := Stream(items)[d.pos];
    StreamStructure(items, d.pos);
    match s {
      case Whole(item) =>
        SentNalsComplete(items, item);
      case Fragment(nal, pieces, j) =>
        FragmentFaithful(h, lim, st, Stream(items), start, last, d);
        SentNalsComplete(items, Fragmented(nal, pieces));
        assert nal in NalsOf(Fragmented(nal, pieces));
    }
  }

  lemma FragmentFaithful(h: nat, lim: Limits, st: State, slots: seq<Slot>, start: nat, last: Option<nat>, d: Delivery)
    requires Faithful(h, lim, st, slots, start, last)
    requires d.pos < |slots| && SlotOk(h, slots[d.pos])
    requires last.Some? ==> Unmistakable(d.pos - last.value)
    requires slots[d.pos].Fragment? && Tame(lim, Fragmented(slots[d.pos].nal, slots[d.pos].pieces))
    requires var s := slots[d.pos]; s.index > 0 ==> d.pos > 0 && slots[d.pos - 1] == Fragment(s.nal, s.pieces, s.index - 1)
    ensures var (st', out) := SlotStep(h, lim, st, slots[d.pos], SeqNo(start, d.pos), d.now);
            && Faithful(h, lim, st', slots, start, Some(d.pos))
            && (out == [] || out == [Unit(slots[d.pos].nal)])
  {
    var Fragment(nal, pieces, j) := slots[d.pos];
    if lim.skipsEmpty && pieces[j] == [] {
      return;
    }
    AcceptShape(lim, st, FuOf(h, slots[d.pos]), SeqNo(start, d.pos), d.now);
    if !Closes(lim, pieces) {
      return;
    }
    if last.Some? {
      GapMeans(start, d.pos, last.value);
    }
    PrefixWhole(h, nal, pieces);
    if j == 0 {
      PrefixFirst(h, nal, pieces);
    } else {
      PrefixNext(h, nal, pieces, j);
    }
  }

  /** No forged units: whatever is lost, duplicated or reordered, a fresh depacketizer returns only sent units. */
  lemma NothingForged(h: nat, lim: Limits, items: seq<Item>, start: nat, lastSeq: nat, ds: seq<Delivery>)
    requires Orderly(h, lim, items) && Plausible(lim, Stream(items), ds)
    ensures AllSent(items, Returned(h, lim, State(Idle, lastSeq), Arrivals(Stream(items), start, ds)))
  {
    NothingForgedFrom(h, lim, State(Idle, lastSeq), items, start, None, ds);
  }

  lemma {:induction false} NothingForgedFrom(h: nat, lim: Limits, st: State, items: seq<Item>, start: nat, last: Option<nat>, ds: seq<Delivery>)
    requires Orderly(h, lim, items) && Delivers(|Stream(items)|, ds) && Spaced(lim, Stream(items), last, ds, Unmistakable)
    requires Faithful(h, lim, st, Stream(items), start, last)
    ensures AllSent(items, Returned(h, lim, st, Arrivals(Stream(items), start, ds)))
    decreases |ds|
  {
    if ds != [] {
      var slots := Stream(items);
      FaithfulStep(h, lim, st, items, start, last, ds[0]);
      assert Arrivals(slots, start, ds)[1..] == Arrivals(slots, start, ds[1..]);
      NothingForgedFrom(h, lim, SlotStep(h, lim, st, slots[ds[0].pos], SeqNo(start, ds[0].pos), ds[0].now).0,
                        items, start, if Unheard(lim, slots[ds[0].pos]) then last else Some(ds[0].pos), ds[1..]);
    }
  }

  // ---- Lossless delivery in order ---------------------------------------------------------------------------

  /** Part of a stream in order, from position `at` on; the packet at position `p` arrives at `clock(p)`. */
  function InOrder(slots: seq<Slot>, start: nat, at: nat, clock: nat -> int): (r: seq<Arrival>)
    ensures |r| == |slots|
    ensures forall p :: 0 <= p < |r| ==> r[p] == Arrival(slots[p], SeqNo(start, at + p), clock(at + p))
  {
    seq(|slots|, p requires 0 <= p < |slots| => Arrival(slots[p], SeqNo(start, at + p), clock(at + p)))
  }

  /** The fragment is passed over before anything else is looked at. */
  predicate Passed(lim: Limits, piece: Bytes) { lim.skipsEmpty && piece == [] }

  /** How many fragments are not passed over. */
  function Counted(lim: Limits, pieces: seq<Bytes>): nat
    decreases |pieces|
  {
    if pieces == [] then 0
    else Counted(lim, pieces[..|pieces| - 1]) + if Passed(lim, pieces[|pieces| - 1]) then 0 else 1
  }

  /** Its first fragment is not passed over. */
  predicate Opens(lim: Limits, item: Item) { item.Fragmented? && item.pieces != [] ==> !Passed(lim, item.pieces[0]) }

  /** The item whose first packet is at position `at` respects the receiver's limits on size, count and assembly time, and neither
      its first nor its last fragment is passed over. */
  predicate Within(lim: Limits, item: Item, at: nat, clock: nat -> int) {
    && (item.Aggregate? ==> Admissible(lim.rules, item.nals, 0))
    && Opens(lim, item)
    && (item.Fragmented? ==>
      && 4 + |item.nal| <= lim.maxUnit
      && !Exceeds(Counted(lim, item.pieces) + 1, lim.maxParts)
      && Closes(lim, item.pieces)
      && (forall j :: 0 <= j < |item.pieces| ==> !Exceeds(|item.pieces[j]|, lim.maxPiece))
      && (forall j :: 0 <= j < |item.pieces| && !Passed(lim, item.pieces[j]) ==> InTime(lim, at, clock, j)))
  }

  predicate InTime(lim: Limits, at: nat, clock: nat -> int, j: nat) { lim.timeout <= 0 || clock(at + j) - clock(at) <= lim.timeout }

  /** The first `j` fragments do. */
  predicate WithinUpTo(h: nat, lim: Limits, pieces: seq<Bytes>, at: nat, clock: nat -> int, j: nat)
    requires j <= |pieces|
  {
    && 4 + h + |Flatten(pieces[..j])| <= lim.maxUnit
    && !Exceeds(Counted(lim, pieces[..j]) + 1, lim.maxParts)
    && (forall i :: 0 <= i < j ==> !Exceeds(|pieces[i]|, lim.maxPiece))
    && (forall i :: 0 <= i < j && !Passed(lim, pieces[i]) ==> InTime(lim, at, clock, i))
  }

  /** One fragment more. */
  lemma WithinNext(h: nat, lim: Limits, pieces: seq<Bytes>, at: nat, clock: nat -> int, j: nat)
    requires j < |pieces|
    ensures Counted(lim, pieces[..j + 1]) == Counted(lim, pieces[..j]) + if Passed(lim, pieces[j]) then 0 else 1
    ensures |Flatten(pieces[..j + 1])| == |Flatten(pieces[..j])| + |pieces[j]|
    ensures WithinUpTo(h, lim, pieces, at, clock, j + 1) <==>
            && WithinUpTo(h, lim, pieces, at, clock, j)
            && 4 + h + |Flatten(pieces[..j])| + |pieces[j]| <= lim.maxUnit
            && !Exceeds(Counted(lim, pieces[..j + 1]) + 1, lim.maxParts)
            && !Exceeds(|pieces[j]|, lim.maxPiece)
            && (Passed(lim, pieces[j]) || InTime(lim, at, clock, j))
  {
    var more := pieces[..j + 1];
    assert more == pieces[..j] + [pieces[j]] && more[..|more| - 1] == pieces[..j];
    FlattenSnoc(pieces[..j], pieces[j]);
  }

  lemma WithinWhole(h: nat, lim: Limits, item: Item, at: nat, clock: nat -> int)
    requires item.Fragmented? && Fragmentable(h, item) && Opens(lim, item)
    ensures Within(lim, item, at, clock) <==> WithinUpTo(h, lim, item.pieces, at, clock, |item.pieces|) && Closes(lim, item.pieces)
  {
    assert item.pieces[..|item.pieces|] == item.pieces;
  }

  /** The assembly after the first `j` fragments: their exact prefix while they are within the limits, and nothing otherwise. */
  function AfterPieces(h: nat, lim: Limits, item: Item, at: nat, clock: nat -> int, j: nat): Assembly
    requires item.Fragmented? && Fragmentable(h, item) && 1 <= j <= |item.pieces|
  {
    if WithinUpTo(h, lim, item.pieces, at, clock, j)
    then Assembling(Prefix(h, item.nal, item.pieces, j - 1), Counted(lim, item.pieces[..j]) + 1, clock(at))
    else Idle
  }

  lemma FirstFragment(h: nat, lim: Limits, st: State, item: Item, start: nat, at: nat, clock: nat -> int)
    requires item.Fragmented? && Fragmentable(h, item) && !Passed(lim, item.pieces[0])
    ensures SlotStep(h, lim, st, Fragment(item.nal, item.pieces, 0), SeqNo(start, at), clock(at))
            == (State(AfterPieces(h, lim, item, at, clock, 1), SeqNo(start, at)), [])
  {
    PrefixFirst(h, item.nal, item.pieces);
    WithinNext(h, lim, item.pieces, at, clock, 0);
    assert item.pieces[..0] == [];
  }

  /** A later fragment; the last one completes the unit if everything is within the limits. */
  lemma NextFragment(h: nat, lim: Limits, st: State, item: Item, start: nat, at: nat, clock: nat -> int, j: nat)
    requires item.Fragmented? && Fragmentable(h, item)
    requires 1 <= j < |item.pieces| && st == State(AfterPieces(h, lim, item, at, clock, j), SeqNo(start, at + j - 1))
    ensures var (st', out) := SlotStep(h, lim, st, Fragment(item.nal, item.pieces, j), SeqNo(start, at + j), clock(at + j));
            && (j < |item.pieces| - 1 ==> st' == State(AfterPieces(h, lim, item, at, clock, j + 1), SeqNo(start, at + j)) && out == [])
            && (j == |item.pieces| - 1 ==>
                  out == if WithinUpTo(h, lim, item.pieces, at, clock, j + 1) && Closes(lim, item.pieces)
                         then [Prefix(h, item.nal, item.pieces, j)] else [])
  {
    PrefixNext(h, item.nal, item.pieces, j);
    WithinNext(h, lim, item.pieces, at, clock, j);
    GapIsDistance(start, at + j, at + j - 1);
    assert Prefix(h, item.nal, item.pieces, j - 1) + [] == Prefix(h, item.nal, item.pieces, j - 1);
  }

  /** What one item delivered whole and in order yields: all of its units or none. */
  function Delivered(lim: Limits, item: Item, at: nat, clock: nat -> int): seq<Bytes> {
    if Within(lim, item, at, clock) then Units(NalsOf(item)) else []
  }

  // Runs of any step function: what follows here does not look into it.

  function RunOf(step: (State, Arrival) -> (State, seq<Bytes>), st: State, arrivals: seq<Arrival>): (State, seq<Bytes>)
    decreases |arrivals|
  {
    if arrivals == [] then (st, [])
    else
      var (st', out) := step(st, arrivals[0]);
      var (last, later) := RunOf(step, st', arrivals[1..]);
      (last, out + later)
  }

  /** What the packets return, from any state. */
  ghost predicate Returns(step: (State, Arrival) -> (State, seq<Bytes>), arrivals: seq<Arrival>, out: seq<Bytes>) {
    forall st :: RunOf(step, st, arrivals).1 == out
  }

  lemma {:induction false} RunOfAppend(step: (State, Arrival) -> (State, seq<Bytes>), st: State, a: seq<Arrival>, b: seq<Arrival>)
    ensures RunOf(step, st, a + b).1 == RunOf(step, st, a).1 + RunOf(step, RunOf(step, st, a).0, b).1
    decreases |a|
  {
    if a == [] {
      assert a + b == b;
    } else {
      assert (a + b)[1..] == a[1..] + b;
      RunOfAppend(step, step(st, a[0]).0, a[1..], b);
    }
  }

  lemma ReturnsAppend(step: (State, Arrival) -> (State, seq<Bytes>), a: seq<Arrival>, outA: seq<Bytes>, b: seq<Arrival>, outB: seq<Bytes>)
    requires Returns(step, a, outA) && Returns(step, b, outB)
    ensures Returns(step, a + b, outA + outB)
  {
    forall st ensures RunOf(step, st, a + b).1 == outA + outB {
      RunOfAppend(step, st, a, b);
    }
  }

  /** The packets lead from one of the states to the next and return nothing, until the last of them. */
  ghost predicate Through(step: (State, Arrival) -> (State, seq<Bytes>), all: seq<Arrival>, states: nat -> State, out: seq<Bytes>) {
    && all != []
    && (forall j :: 0 <= j < |all| - 1 ==> step(states(j), all[j]) == (states(j + 1), []))
    && step(states(|all| - 1), all[|all| - 1]).1 == out
  }

  lemma {:induction false} RunThrough(step: (State, Arrival) -> (State, seq<Bytes>), all: seq<Arrival>, states: nat -> State, out: seq<Bytes>, j: nat)
    requires Through(step, all, states, out) && j < |all|
    ensures RunOf(step, states(j), all[j..]).1 == out
    decreases |all| - j
  {
    assert all[j..][1..] == all[j + 1..];
    if j < |all| - 1 {
      RunThrough(step, all, states, out, j + 1);
    }
  }

  function StepBy(h: nat, lim: Limits): (State, Arrival) -> (State, seq<Bytes>) {
    (st: State, a: Arrival) => SlotStep(h, lim, st, a.slot, a.seqNo, a.now)
  }

  lemma {:induction false} ReturnedIsRun(h: nat, lim: Limits, st: State, arrivals: seq<Arrival>)
    ensures Returned(h, lim, st, arrivals) == RunOf(StepBy(h, lim), st, arrivals).1
    decreases |arrivals|
  {
    if arrivals != [] {
      ReturnedIsRun(h, lim, SlotStep(h, lim, st, arrivals[0].slot, arrivals[0].seqNo, arrivals[0].now).0, arrivals[1..]);
    }
  }

  // The items of a stream.

  function StateAfter(h: nat, lim: Limits, st: State, item: Item, start: nat, at: nat, clock: nat -> int): nat -> State
    requires item.Fragmented? && Fragmentable(h, item)
  {
    (j: nat) => if 1 <= j <= |item.pieces| then State(AfterPieces(h, lim, item, at, clock, j), SeqNo(start, at + j - 1)) else st
  }

  lemma FragmentsThrough(h: nat, lim: Limits, st: State, item: Item, start: nat, at: nat, clock: nat -> int)
    requires item.Fragmented? && Fragmentable(h, item) && Opens(lim, item)
    ensures Through(StepBy(h, lim), InOrder(SlotsOf(item), start, at, clock), StateAfter(h, lim, st, item, start, at, clock), Delivered(lim, item, at, clock))
  {
    var all, states, n := InOrder(SlotsOf(item), start, at, clock), StateAfter(h, lim, st, item, start, at, clock), |item.pieces| - 1;
    forall j | 0 <= j < n ensures StepBy(h, lim)(states(j), all[j]) == (states(j + 1), []) {
      FragmentStep(h, lim, st, item, start, at, clock, j);
    }
    FragmentStep(h, lim, st, item, start, at, clock, n);
  }

  lemma FragmentStep(h: nat, lim: Limits, st: State, item: Item, start: nat, at: nat, clock: nat -> int, j: nat)
    requires item.Fragmented? && Fragmentable(h, item) && Opens(lim, item) && j < |item.pieces|
    ensures var states := StateAfter(h, lim, st, item, start, at, clock);
            var (st', out) := StepBy(h, lim)(states(j), InOrder(SlotsOf(item), start, at, clock)[j]);
            if j < |item.pieces| - 1 then st' == states(j + 1) && out == [] else out == Delivered(lim, item, at, clock)
  {
    ArrivalStep(h, lim, StateAfter(h, lim, st, item, start, at, clock)(j), item, start, at, clock, j);
    if j == 0 {
      FirstFragment(h, lim, st, item, start, at, clock);
    } else {
      LaterFragment(h, lim, item, start, at, clock, j);
    }
  }

  /** A later fragment, with what its item yields. */
  lemma LaterFragment(h: nat, lim: Limits, item: Item, start: nat, at: nat, clock: nat -> int, j: nat)
    requires item.Fragmented? && Fragmentable(h, item) && Opens(lim, item) && 1 <= j < |item.pieces|
    ensures var (st', out) := SlotStep(h, lim, State(AfterPieces(h, lim, item, at, clock, j), SeqNo(start, at + j - 1)),
                                       Fragment(item.nal, item.pieces, j), SeqNo(start, at + j), clock(at + j));
            if j < |item.pieces| - 1 then st' == State(AfterPieces(h, lim, item, at, clock, j + 1), SeqNo(start, at + j)) && out == []
            else out == Delivered(lim, item, at, clock)
  {
    NextFragment(h, lim, State(AfterPieces(h, lim, item, at, clock, j), SeqNo(start, at + j - 1)), item, start, at, clock, j);
    LastIsWhole(h, lim, item, at, clock);
  }

  lemma ArrivalStep(h: nat, lim: Limits, st: State, item: Item, start: nat, at: nat, clock: nat -> int, j: nat)
    requires item.Fragmented? && j < |item.pieces|
    ensures StepBy(h, lim)(st, InOrder(SlotsOf(item), start, at, clock)[j])
            == SlotStep(h, lim, st, Fragment(item.nal, item.pieces, j), SeqNo(start, at + j), clock(at + j))
  {
    assert InOrder(SlotsOf(item), start, at, clock)[j] == Arrival(Fragment(item.nal, item.pieces, j), SeqNo(start, at + j), clock(at + j));
  }

  lemma LastIsWhole(h: nat, lim: Limits, item: Item, at: nat, clock: nat -> int)
    requires item.Fragmented? && Fragmentable(h, item) && Opens(lim, item)
    ensures var n := |item.pieces|;
            Delivered(lim, item, at, clock) ==
            if WithinUpTo(h, lim, item.pieces, at, clock, n) && Closes(lim, item.pieces) then [Prefix(h, item.nal, item.pieces, n - 1)] else []
  {
    WithinWhole(h, lim, item, at, clock);
    PrefixWhole(h, item.nal, item.pieces);
    assert Units([item.nal]) == [Unit(item.nal)];
  }

  /** One item delivered whole returns its units, from any state, if and only if it is within the limits. */
  lemma ItemExactly(h: nat, lim: Limits, item: Item, start: nat, at: nat, clock: nat -> int)
    requires Fragmentable(h, item) && Opens(lim, item)
    ensures Returns(StepBy(h, lim), InOrder(SlotsOf(item), start, at, clock), Delivered(lim, item, at, clock))
  {
    var all := InOrder(SlotsOf(item), start, at, clock);
    forall st ensures RunOf(StepBy(h, lim), st, all).1 == Delivered(lim, item, at, clock) {
      if item.Fragmented? {
        FragmentsThrough(h, lim, st, item, start, at, clock);
        RunThrough(StepBy(h, lim), all, StateAfter(h, lim, st, item, start, at, clock), Delivered(lim, item, at, clock), 0);
        assert all[0..] == all;
      } else {
        WholeYields(h, lim, st, item, SeqNo(start, at), clock(at));
        assert all[1..] == [];
      }
    }
  }

  lemma WholeYields(h: nat, lim: Limits, st: State, item: Item, seqNo: nat, now: int)
    requires !item.Fragmented?
    ensures SlotStep(h, lim, st, Whole(item), seqNo, now).1 ==
            if item.Aggregate? && !Admissible(lim.rules, item.nals, 0) then [] else Units(NalsOf(item))
  {
  }

  lemma InOrderAppend(a: seq<Slot>, b: seq<Slot>, start: nat, at: nat, clock: nat -> int)
    ensures InOrder(a + b, start, at, clock) == InOrder(a, start, at, clock) + InOrder(b, start, at + |a|, clock)
  {
    var all, both := InOrder(a + b, start, at, clock), InOrder(a, start, at, clock) + InOrder(b, start, at + |a|, clock);
    forall p | 0 <= p < |all| ensures all[p] == both[p] {
      if p >= |a| {
        assert (at + |a|) + (p - |a|) == at + p;
      }
    }
  }

  predicate AllOpen(h: nat, lim: Limits, items: seq<Item>) { forall item :: item in items ==> Fragmentable(h, item) && Opens(lim, item) }

  /** The units of the items that pass a test, which may depend on the position of the item. */
  function DeliveredIf(ok: (Item, nat) -> bool, items: seq<Item>, at: nat): seq<Bytes> {
    if items == [] then []
    else (if ok(items[0], at) then Units(NalsOf(items[0])) else []) + DeliveredIf(ok, items[1..], at + |SlotsOf(items[0])|)
  }

  lemma {:induction false} SameDelivered(ok: (Item, nat) -> bool, other: (Item, nat) -> bool, items: seq<Item>, at: nat)
    requires forall item, at :: item in items ==> ok(item, at) == other(item, at)
    ensures DeliveredIf(ok, items, at) == DeliveredIf(other, items, at)
    decreases |items|
  {
    if items != [] {
      assert items[0] in items;
      SameDelivered(ok, other, items[1..], at + |SlotsOf(items[0])|);
    }
  }

  ghost predicate Every(ok: (Item, nat) -> bool, items: seq<Item>) { forall i: nat, at: nat :: i < |items| ==> ok(items[i], at) }

  lemma {:induction false} DeliverAll(ok: (Item, nat) -> bool, items: seq<Item>, at: nat)
    requires Every(ok, items)
    ensures DeliveredIf(ok, items, at) == Units(SentNals(items))
    decreases |items|
  {
    if items != [] {
      var first, rest := NalsOf(items[0]), SentNals(items[1..]);
      assert SentNals(items) == first + rest && ok(items[0], at) && Every(ok, items[1..]);
      UnitsAppend(first, rest);
      DeliverAll(ok, items[1..], at + |SlotsOf(items[0])|);
    }
  }

  /** The units of the items within the limits. */
  function AllDelivered(lim: Limits, items: seq<Item>, at: nat, clock: nat -> int): seq<Bytes> {
    DeliveredIf((item: Item, p: nat) => Within(lim, item, p, clock), items, at)
  }

  /** The step function returns for every item that opens what is to be delivered. */
  ghost predicate Yields(h: nat, lim: Limits, step: (State, Arrival) -> (State, seq<Bytes>), start: nat, clock: nat -> int, ok: (Item, nat) -> bool) {
    forall item: Item, at: nat {:trigger InOrder(SlotsOf(item), start, at, clock)} :: Fragmentable(h, item) && Opens(lim, item) ==>
      Returns(step, InOrder(SlotsOf(item), start, at, clock), if ok(item, at) then Units(NalsOf(item)) else [])
  }

  lemma {:induction false} StreamReturns(h: nat, lim: Limits, step: (State, Arrival) -> (State, seq<Bytes>), items: seq<Item>, start: nat, at: nat,
                                         clock: nat -> int, ok: (Item, nat) -> bool)
    requires Yields(h, lim, step, start, clock, ok) && AllOpen(h, lim, items)
    ensures Returns(step, InOrder(Stream(items), start, at, clock), DeliveredIf(ok, items, at))
    decreases |items|
  {
    if items != [] {
      var first, rest := SlotsOf(items[0]), Stream(items[1..]);
      assert items[0] in items && AllOpen(h, lim, items[1..]);
      StreamReturns(h, lim, step, items[1..], start, at + |first|, clock, ok);
      InOrderAppend(first, rest, start, at, clock);
      ReturnsAppend(step, InOrder(first, start, at, clock), if ok(items[0], at) then Units(NalsOf(items[0])) else [],
                    InOrder(rest, start, at + |first|, clock), DeliveredIf(ok, items[1..], at + |first|));
    }
  }

  /** In-order delivery returns exactly the units of the items that are within the limits, whatever the state and sequence
      number at the start: what breaks a limit is lost as a whole, and nothing else is. */
  lemma LosslessExactly(h: nat, lim: Limits, st: State, items: seq<Item>, start: nat, clock: nat -> int)
    requires AllOpen(h, lim, items)
    ensures Returned(h, lim, st, InOrder(Stream(items), start, 0, clock)) == AllDelivered(lim, items, 0, clock)
  {
    var ok := (item: Item, p: nat) => Within(lim, item, p, clock);
    forall item: Item, at: nat | Fragmentable(h, item) && Opens(lim, item)
      ensures Returns(StepBy(h, lim), InOrder(SlotsOf(item), start, at, clock), if ok(item, at) then Units(NalsOf(item)) else [])
    {
      ItemExactly(h, lim, item, start, at, clock);
    }
    StreamReturns(h, lim, StepBy(h, lim), items, start, 0, clock, ok);
    ReturnedIsRun(h, lim, st, InOrder(Stream(items), start, 0, clock));
  }

  predicate AllWithin(lim: Limits, items: seq<Item>, at: nat, clock: nat -> int) {
    items == [] || (Within(lim, items[0], at, clock) && AllWithin(lim, items[1..], at + |SlotsOf(items[0])|, clock))
  }

  lemma {:induction false} AllWithinDelivered(lim: Limits, items: seq<Item>, at: nat, clock: nat -> int)
    requires AllWithin(lim, items, at, clock)
    ensures AllDelivered(lim, items, at, clock) == Units(SentNals(items))
    ensures forall item :: item in items ==> Opens(lim, item)
    decreases |items|
  {
    if items != [] {
      AllWithinDelivered(lim, items[1..], at + |SlotsOf(items[0])|, clock);
      UnitsAppend(NalsOf(items[0]), SentNals(items[1..]));
    }
  }

  /** Round trip: within the limits that is every sent unit. */
  lemma LosslessRoundTrip(h: nat, lim: Limits, st: State, items: seq<Item>, start: nat, clock: nat -> int)
    requires forall item :: item in items ==> Fragmentable(h, item)
    requires AllWithin(lim, items, 0, clock)
    ensures Returned(h, lim, st, InOrder(Stream(items), start, 0, clock)) == Units(SentNals(items))
  {
    AllWithinDelivered(lim, items, 0, clock);
    LosslessExactly(h, lim, st, items, start, clock);
  }

  // ---- What every fragment does -------------------------------------------------------------------------------

  /** The assembly holds no more than the limits allow. */
  predicate Bounded(lim: Limits, a: Assembly) {
    a.Assembling? ==> |a.bytes| <= lim.maxUnit && !Exceeds(a.parts, lim.maxParts)
  }

  /** No assembly and no reassembled unit is ever over the limits, and none lives on past its time or past a fragment that is
      too large. */
  lemma LimitsHold(lim: Limits, st: State, fu: Fu, seqNo: nat, now: int)
    requires Bounded(lim, st.assembly)
    ensures var (a, unit) := Accept(lim, st, fu, seqNo, now);
            && Bounded(lim, a) && (unit.Some? ==> |unit.value| <= lim.maxUnit)
            && (!Passed(lim, fu.body) && Exceeds(|fu.body|, lim.maxPiece) ==> a.Idle? && unit.None?)
            && (!Passed(lim, fu.body) && !fu.start && TimedOut(lim, st.assembly, now) ==> a.Idle? && unit.None?)
  {
  }

  /** A fragment that comes twice changes nothing the second time, except that a first one starts the clock again and that a
      later one may find the assembly out of time. */
  lemma RepeatIsIgnored(h: nat, lim: Limits, st: State, s: Slot, seqNo: nat, now: int, again: int)
    requires s.Fragment? && SlotOk(h, s)
    ensures var (once, _) := SlotStep(h, lim, st, s, seqNo, now);
            var (twice, out) := SlotStep(h, lim, once, s, seqNo, again);
            && out == [] && twice.lastSeq == once.lastSeq
            && twice.assembly ==
               if Passed(lim, s.pieces[s.index]) || once.assembly.Idle? then once.assembly
               else if s.index == 0 then once.assembly.(since := again)
               else if TimedOut(lim, once.assembly, again) then Idle
               else once.assembly
  {
  }
}
