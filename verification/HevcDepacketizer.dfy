/** The HEVC depacketizer (RFC 7798) and the packet layout that a sender uses for it. */
module Hevc {
  import opened Sequences
  import opened Bytes
  import opened RtpStream
  import opened Reassembly
  import opened Aggregation
  import opened Forgeries

  const NAL_TYPE_AP := 48
  const NAL_TYPE_FU := 49
  const NAL_TYPE_PACI := 50

  datatype Outcome = Ok(units: seq<Bytes>) | Error

  datatype Packet = Packet(payload: Bytes, seqNo: nat)

  /** `maxUnit` is `security.MaxNALUnitSize`; fragments have no count, size or time limit of their own. */
  function LimitsOf(maxUnit: nat): Limits { Limits(maxUnit, None, None, 0, false, RulesOf(maxUnit)) }

  function RulesOf(maxUnit: nat): Rules { Rules(maxUnit, None, true) }

  // ---- What one packet does, on values -------------------------------------------------------------------

  predicate StartBit(payload: Bytes) requires |payload| >= 3 { payload[2] >= 0x80 }
  predicate EndBit(payload: Bytes) requires |payload| >= 3 { payload[2] / 0x40 % 2 == 1 }

  /** The forbidden bit, the layer and the temporal id of the payload header around the type bits of the FU header. */
  function RebuiltHeader(payload: Bytes): Bytes
    requires |payload| >= 3
  {
    [payload[0] / 0x80 * 0x80 + payload[0] % 2 + payload[2] % 0x40 * 2, payload[1]]
  }

  function FuStep(maxUnit: nat, st: State, payload: Bytes, seqNo: nat): (Assembly, Option<Bytes>) {
    if |payload| < 3 || (StartBit(payload) && EndBit(payload)) then (st.assembly, None)
    else Accept(LimitsOf(maxUnit), st, Fu(StartBit(payload), EndBit(payload), Unit(RebuiltHeader(payload)), payload[3..]), seqNo, 0)
  }

  function Step(maxUnit: nat, st: State, p: Packet): (State, Outcome) {
    if |p.payload| < 2 || p.payload[0] >= 0x80 || p.payload[1] % 8 == 0 then (st, Error)
    else
      var nalType := p.payload[0] / 2 % 64;
      if nalType < NAL_TYPE_AP then (State(st.assembly, p.seqNo), Ok([Unit(p.payload)]))
      else if nalType == NAL_TYPE_AP then
        match Parse(RulesOf(maxUnit), p.payload, 2, 0)
        case None => (st, Error)
        case Some(nals) => (State(st.assembly, p.seqNo), Ok(Units(nals)))
      else if nalType == NAL_TYPE_FU then
        var (a, unit) := FuStep(maxUnit, st, p.payload, p.seqNo);
        (State(a, p.seqNo), Ok(if unit.Some? then [unit.value] else []))
      else if nalType == NAL_TYPE_PACI then (st, Ok([]))
      else (st, Error)
  }

  /** An error returns nothing. */
  function UnitsOf(r: Outcome): seq<Bytes> { if r.Ok? then r.units else [] }

  /** Everything a depacketizer returns over a run. */
  function Run(maxUnit: nat, st: State, packets: seq<Packet>): seq<Bytes>
    decreases |packets|
  {
    if packets == [] then []
    else
      var (st', out) := Step(maxUnit, st, packets[0]);
      UnitsOf(out) + Run(maxUnit, st', packets[1..])
  }

  // ---- The depacketizer -----------------------------------------------------------------------------------

  class Depacketizer {
    var fragments: seq<Bytes>
    var lastSeq: nat
    var fuInProgress: bool
    const maxUnit: nat

    ghost predicate Valid()
      reads this
    {
      fuInProgress == (fragments != [])
    }

    /** The assembly as one byte string, with the number of parts it was kept in; there is no start time. */
    ghost function View(): State
      requires Valid()
      reads this
    {
      State(if fragments == [] then Idle else Assembling(Flatten(fragments), |fragments|, 0), lastSeq)
    }

    constructor (maxUnit: nat)
      ensures Valid() && View() == State(Idle, 0) && this.maxUnit == maxUnit
    {
      this.maxUnit := maxUnit;
      fragments, lastSeq, fuInProgress := [], 0, false;
    }

    method Depacketize(p: Packet) returns (r: Outcome)
      requires Valid()
      modifies this
      ensures Valid() && (View(), r) == Step(maxUnit, old(View()), p)
    {
      if |p.payload| < 2 || p.payload[0] >= 0x80 {
        return Error;
      }
      var tid := p.payload[1] % 8;
      if tid == 0 {
        return Error;
      }
      var nalType := p.payload[0] / 2 % 64;
      var nalUnits := [];
      if nalType < NAL_TYPE_AP {
        nalUnits := [Unit(p.payload)];
      } else if nalType == NAL_TYPE_AP {
        var parsed := HandleAggregation(p.payload);
        if parsed.Error? {
          return Error;
        }
        nalUnits := parsed.units;
      } else if nalType == NAL_TYPE_FU {
        var unit := HandleFragment(p.payload, p.seqNo);
        lastSeq := p.seqNo;
        if unit.Some? {
          nalUnits := [unit.value];
        }
      } else if nalType == NAL_TYPE_PACI {
        return Ok([]);
      } else {
        return Error;
      }
      if nalType != NAL_TYPE_FU {
        lastSeq := p.seqNo;
      }
      return Ok(nalUnits);
    }

    /** The payload is the whole packet; the source passes it without its two header bytes and counts from there. */
    method HandleAggregation(payload: Bytes) returns (r: Outcome)
      requires |payload| >= 2
      ensures var nals := Parse(RulesOf(maxUnit), payload, 2, 0);
              r == if nals.None? then Error else Ok(Units(nals.value))
    {
      var nalUnits: seq<Bytes> := [];
      ghost var nals: seq<Bytes> := [];
      var offset := 2;
      PrependLaws([], [], Parse(RulesOf(maxUnit), payload, 2, 0));
      while offset < |payload|
        invariant 2 <= offset <= |payload|
        invariant nalUnits == Units(nals)
        invariant Parse(RulesOf(maxUnit), payload, 2, 0) == Prepend(nals, Parse(RulesOf(maxUnit), payload, offset, |nals|))
        decreases |payload| - offset
      {
        if offset + 2 > |payload| {
          return Error;
        }
        var nalSize := SizeAt(payload, offset);
        offset := offset + 2;
        if nalSize == 0 || nalSize > maxUnit || offset + nalSize > |payload| {
          return Error;
        }
        if nalSize >= 2 {
          var nestedNalType := payload[offset] / 2 % 64;
          if nestedNalType >= 48 {
            return Error;
          }
        }
        var nal := payload[offset..offset + nalSize];
        nalUnits := nalUnits + [Unit(nal)];
        offset := offset + nalSize;
        UnitsAppend(nals, [nal]);
        PrependLaws(nals, [nal], Parse(RulesOf(maxUnit), payload, offset, |nals| + 1));
        nals := nals + [nal];
      }
      return Ok(nalUnits);
    }

    method HandleFragment(payload: Bytes, seqNo: nat) returns (unit: Option<Bytes>)
      requires Valid()
      modifies this
      ensures Valid() && lastSeq == old(lastSeq)
      ensures (View().assembly, unit) == FuStep(maxUnit, old(View()), payload, seqNo)
    {
      if |payload| < 3 {
        return None;
      }
      var fuHeader := payload[2];
      var startBit := fuHeader >= 0x80;
      var endBit := fuHeader / 0x40 % 2 == 1;
      var fuType := fuHeader % 0x40;
      if startBit && endBit {
        return None;
      }
      var fuPayload := payload[3..];
      if startBit {
        fragments := [START_CODE + [payload[0] / 0x80 * 0x80 + payload[0] % 2 + fuType * 2, payload[1]]];
        fuInProgress := true;
        FlattenOne(fragments[0]);
      }
      if fuInProgress && !startBit && |fragments| > 0 {
        var gap := Gap(seqNo, lastSeq);
        if gap == 0 {
          return None;
        }
        if gap != 1 {
          Discard();
          return None;
        }
      }
      if |fragments| > 0 {
        var currentSize := TotalSize(fragments);
        if currentSize + |fuPayload| > maxUnit {
          Discard();
          return None;
        }
        FlattenSnoc(fragments, fuPayload);
        fragments := fragments + [fuPayload];
      }
      if endBit && |fragments| > 0 {
        var totalSize := TotalSize(fragments);
        if totalSize > maxUnit {
          // The sum was bounded before the fragment was added.
          assert false;
        }
        var nalUnit := Joined(fragments);
        Discard();
        return Some(nalUnit);
      }
      return None;
    }

    method Discard()
      modifies this
      ensures Valid() && View() == State(Idle, old(lastSeq))
    {
      fragments, fuInProgress := [], false;
    }
  }

  // ---- The sender's packet layout ------------------------------------------------------------------------

  predicate NalOk(nal: Bytes) { |nal| >= 2 && nal[0] < 0x80 && nal[0] / 2 < NAL_TYPE_AP && nal[1] % 8 > 0 }

  /** What section 4.4 of RFC 7798 lets a sender emit, whether the receiver accepts it or not: aggregates and fragmented
      units may exceed any limit of the receiver, fragments may be empty, and packets of other types may be mixed in. */
  predicate ItemOk(item: Item) {
    match item
    case Single(nal) => NalOk(nal)
    case Aggregate(header, nals) =>
      && |header| == 2 && header[0] < 0x80 && header[0] / 2 == NAL_TYPE_AP && header[1] % 8 > 0
      && forall nal :: nal in nals ==> 0 < |nal| < 0x1_0000
    case Fragmented(nal, pieces) => NalOk(nal) && Fragmentable(2, item)
    case Other(payload) => |payload| >= 2 && payload[0] < 0x80 && payload[0] / 2 >= NAL_TYPE_PACI && payload[1] % 8 > 0
  }

  predicate ItemsOk(items: seq<Item>) { forall item :: item in items ==> ItemOk(item) }

  predicate SlotSendable(s: Slot) {
    match s
    case Whole(item) => ItemOk(item) && !item.Fragmented?
    case Fragment(nal, pieces, j) => j < |pieces| && ItemOk(Fragmented(nal, pieces))
  }

  function Payload(s: Slot): Bytes
    requires SlotSendable(s)
  {
    match s
    case Whole(Single(nal)) => nal
    case Whole(Aggregate(header, nals)) => header + Encode(nals)
    case Whole(Other(payload)) => payload
    case Fragment(nal, pieces, j) =>
      [nal[0] / 0x80 * 0x80 + NAL_TYPE_FU * 2 + nal[0] % 2, nal[1],
       (if j == 0 then 0x80 else 0) + (if j == |pieces| - 1 then 0x40 else 0) + nal[0] / 2 % 64] + pieces[j]
  }

  function Wire(arrivals: seq<Arrival>): (r: seq<Packet>)
    requires forall a :: a in arrivals ==> SlotSendable(a.slot)
    ensures |r| == |arrivals|
  {
    seq(|arrivals|, i requires 0 <= i < |arrivals| =>
      assert arrivals[i] in arrivals; Packet(Payload(arrivals[i].slot), arrivals[i].seqNo))
  }

  /** The receiver takes a packet for the slot it was made from, both header bytes rebuilt bit for bit. */
  lemma PacketMeansSlot(maxUnit: nat, st: State, s: Slot, seqNo: nat)
    requires SlotSendable(s)
    ensures var (st', units) := SlotStep(2, LimitsOf(maxUnit), st, s, seqNo, 0);
            var (st'', out) := Step(maxUnit, st, Packet(Payload(s), seqNo));
            st'' == st' && UnitsOf(out) == units && (out.Error? ==> Unheard(LimitsOf(maxUnit), s))
  {
    match s {
      case Whole(Single(nal)) =>
        assert Units(NalsOf(s.item)) == [Unit(nal)];
      case Whole(Aggregate(header, nals)) =>
        AggregateParses(maxUnit, s);
      case Whole(Other(payload)) =>
      case Fragment(nal, pieces, j) =>
        FragmentMeansFu(s);
    }
  }

  lemma AggregateParses(maxUnit: nat, s: Slot)
    requires s.Whole? && s.item.Aggregate? && SlotSendable(s)
    ensures var payload, nals := Payload(s), s.item.nals;
            && |payload| >= 2 && payload[0] == s.item.header[0] && payload[1] == s.item.header[1]
            && Parse(RulesOf(maxUnit), payload, 2, 0) == if Admissible(RulesOf(maxUnit), nals, 0) then Some(nals) else None
  {
    var payload, nals := Payload(s), s.item.nals;
    assert payload[2..] == Encode(nals);
    EncodeHolds(payload, 2, nals);
    AggregateRoundTrip(RulesOf(maxUnit), payload, 2, nals, 0);
  }

  lemma FragmentMeansFu(s: Slot)
    requires s.Fragment? && SlotSendable(s)
    ensures var payload := Payload(s);
            && SlotOk(2, s) && |payload| >= 3 && payload[0] < 0x80 && payload[0] / 2 % 64 == NAL_TYPE_FU && payload[1] % 8 > 0
            && !(StartBit(payload) && EndBit(payload))
            && Fu(StartBit(payload), EndBit(payload), Unit(RebuiltHeader(payload)), payload[3..]) == FuOf(2, s)
  {
    var payload := Payload(s);
    assert payload[3..] == s.pieces[s.index];
    assert RebuiltHeader(payload) == s.nal[..2];
  }

  lemma {:induction false} RunMeansSlots(maxUnit: nat, st: State, arrivals: seq<Arrival>)
    requires forall a :: a in arrivals ==> SlotSendable(a.slot) && a.now == 0
    ensures Run(maxUnit, st, Wire(arrivals)) == Returned(2, LimitsOf(maxUnit), st, arrivals)
    decreases |arrivals|
  {
    if arrivals != [] {
      var a := arrivals[0];
      assert a in arrivals;
      PacketMeansSlot(maxUnit, st, a.slot, a.seqNo);
      assert Wire(arrivals)[1..] == Wire(arrivals[1..]);
      RunMeansSlots(maxUnit, SlotStep(2, LimitsOf(maxUnit), st, a.slot, a.seqNo, a.now).0, arrivals[1..]);
    }
  }

  lemma StreamSendable(items: seq<Item>)
    requires ItemsOk(items)
    ensures forall s :: s in Stream(items) ==> SlotSendable(s)
    ensures forall item :: item in items ==> Fragmentable(2, item)
  {
    forall p | 0 <= p < |Stream(items)| ensures SlotSendable(Stream(items)[p]) {
      StreamStructure(items, p);
    }
  }

  // ---- No forged units -----------------------------------------------------------------------------------

  /** A delivery by positions alone: time plays no part here. */
  function At(positions: seq<nat>): (ds: seq<Delivery>)
    ensures |ds| == |positions| && forall i :: 0 <= i < |ds| ==> ds[i] == Delivery(positions[i], 0)
  {
    seq(|positions|, i requires 0 <= i < |positions| => Delivery(positions[i], 0))
  }

  /** What a fresh depacketizer returns after a delivery of a stream. */
  function Received(maxUnit: nat, items: seq<Item>, start: nat, positions: seq<nat>): seq<Bytes>
    requires ItemsOk(items) && Delivers(|Stream(items)|, At(positions))
  {
    StreamSendable(items);
    Run(maxUnit, State(Idle, 0), Wire(Arrivals(Stream(items), start, At(positions))))
  }

  lemma ReceivedIs(maxUnit: nat, items: seq<Item>, start: nat, positions: seq<nat>)
    requires ItemsOk(items) && Delivers(|Stream(items)|, At(positions))
    ensures Received(maxUnit, items, start, positions)
            == Returned(2, LimitsOf(maxUnit), State(Idle, 0), Arrivals(Stream(items), start, At(positions)))
  {
    StreamSendable(items);
    RunMeansSlots(maxUnit, State(Idle, 0), Arrivals(Stream(items), start, At(positions)));
  }

  /** No forged units: whatever packets of a stream are lost, duplicated or reordered, and whichever are refused or
      ignored, every unit that a fresh depacketizer returns is a start code and a NAL unit that was sent. */
  lemma NoForgedUnits(maxUnit: nat, items: seq<Item>, start: nat, positions: seq<nat>)
    requires ItemsOk(items) && Plausible(LimitsOf(maxUnit), Stream(items), At(positions))
    ensures AllSent(items, Received(maxUnit, items, start, positions))
  {
    StreamSendable(items);
    ReceivedIs(maxUnit, items, start, positions);
    NothingForged(2, LimitsOf(maxUnit), items, start, 0, At(positions));
  }

  /** No stream yields a forged unit when neighbouring deliveries are less than half the sequence space apart, and packets
      heard one after the other are unmistakable or at distance `d`. */
  ghost predicate Safe(maxUnit: nat, d: int) {
    forall items, start, positions :: ItemsOk(items) && HeardAt(maxUnit, d, items, positions) ==>
      AllSent(items, Received(maxUnit, items, start, positions))
  }

  predicate HeardAt(maxUnit: nat, d: int, items: seq<Item>, positions: seq<nat>) {
    && Close(|Stream(items)|, At(positions))
    && Spaced(LimitsOf(maxUnit), Stream(items), None, At(positions), x => OrAt(d, x))
  }

  /** Half the sequence space between deliveries is not enough, since PACI packets and refused aggregates leave no trace: what
      counts is the distance `d` between packets that are heard, and it is safe exactly when `d` modulo 2^16 is neither 0
      nor 1, or `d` is. */
  lemma SafeExactly(maxUnit: nat, d: int)
    requires maxUnit >= 10
    ensures Safe(maxUnit, d) <==> (d % 0x1_0000 > 1 || d == 0 || d == 1)
  {
    if Unmistakable(d) {
      forall items, start, positions | ItemsOk(items) && HeardAt(maxUnit, d, items, positions)
        ensures AllSent(items, Received(maxUnit, items, start, positions))
      {
        SpacedMore(LimitsOf(maxUnit), Stream(items), None, At(positions), x => OrAt(d, x), Unmistakable);
        NoForgedUnits(maxUnit, items, start, positions);
      }
    } else {
      DistanceForges(maxUnit, d);
    }
  }

  const HEADER: Bytes := [0x26, 1]

  /** A PACI packet. */
  function Paci(): Item { Other([2 * NAL_TYPE_PACI, 1]) }

  lemma DistanceForges(maxUnit: nat, d: int)
    requires maxUnit >= 10 && !Unmistakable(d)
    ensures !Safe(maxUnit, d)
  {
    FarApart(d);
    MistakenForges(2, LimitsOf(maxUnit), d, HEADER, Paci(), 0);
    var items, ds := Apart(d, HEADER, Paci()), ApartDelivery(d);
    var positions := seq(|ds|, i requires 0 <= i < |ds| => ds[i].pos);
    ApartIsClose(d, |Stream(items)|) by { ApartStream(d, HEADER, Paci()); }
    assert At(positions) == ds;
    ApartSendable(maxUnit, d);
    ReceivedIs(maxUnit, items, 0, positions);
    assert HeardAt(maxUnit, d, items, positions);
  }

  lemma ApartSendable(maxUnit: nat, d: int)
    requires d > 3 || d < -3
    ensures ItemsOk(Apart(d, HEADER, Paci()))
  {
    var items := Apart(d, HEADER, Paci());
    ApartOrderly(2, LimitsOf(maxUnit), d, HEADER, Paci());
    forall item | item in items ensures ItemOk(item) {
      assert item == Paci() || item == Long(HEADER) || item == Short(HEADER, 1, 2);
    }
  }

  // ---- Round trip ----------------------------------------------------------------------------------------

  /** Round trip: in-order delivery of single, aggregated and fragmented units within the limits returns exactly those
      units in order, from every state of the depacketizer and every first sequence number. */
  lemma RoundTrip(maxUnit: nat, st: State, items: seq<Item>, start: nat)
    requires ItemsOk(items)
    requires forall item :: item in items ==> Accepted(maxUnit, item)
    ensures var arrivals := InOrder(Stream(items), start, 0, _ => 0);
            && (forall a :: a in arrivals ==> SlotSendable(a.slot))
            && Run(maxUnit, st, Wire(arrivals)) == Units(SentNals(items))
  {
    InOrderExactly(maxUnit, st, items, start);
    forall i: nat, at: nat | i < |items| ensures OkBy(maxUnit)(items[i], at) {
      assert items[i] in items;
    }
    DeliverAll(OkBy(maxUnit), items, 0);
  }

  /** The receiver's limits: on fragmented units, and on aggregates. */
  predicate Accepted(maxUnit: nat, item: Item) {
    && (item.Fragmented? ==> 4 + |item.nal| <= maxUnit)
    && (item.Aggregate? ==> Admissible(RulesOf(maxUnit), item.nals, 0))
  }

  function OkBy(maxUnit: nat): (Item, nat) -> bool { (item: Item, _: nat) => Accepted(maxUnit, item) }

  /** What in-order delivery of each item yields: all of its units or, beyond a limit, none. */
  function AllAccepted(maxUnit: nat, items: seq<Item>): seq<Bytes> { DeliveredIf(OkBy(maxUnit), items, 0) }

  /** What breaks a limit of the receiver is lost as a whole, and nothing else is, whatever the layout. */
  lemma InOrderExactly(maxUnit: nat, st: State, items: seq<Item>, start: nat)
    requires ItemsOk(items)
    ensures var arrivals := InOrder(Stream(items), start, 0, _ => 0);
            && (forall a :: a in arrivals ==> SlotSendable(a.slot))
            && Run(maxUnit, st, Wire(arrivals)) == AllAccepted(maxUnit, items)
  {
    var clock: nat -> int := _ => 0;
    StreamSendable(items);
    RunMeansSlots(maxUnit, st, InOrder(Stream(items), start, 0, clock));
    LosslessExactly(2, LimitsOf(maxUnit), st, items, start, clock);
    forall item, at: nat | item in items ensures Within(LimitsOf(maxUnit), item, at, clock) == Accepted(maxUnit, item) {
      WithinIsAccepted(maxUnit, item, at, clock);
    }
    SameDelivered((item: Item, p: nat) => Within(LimitsOf(maxUnit), item, p, clock), OkBy(maxUnit), items, 0);
  }

  lemma WithinIsAccepted(maxUnit: nat, item: Item, at: nat, clock: nat -> int)
    requires ItemOk(item)
    ensures Within(LimitsOf(maxUnit), item, at, clock) <==> Accepted(maxUnit, item)
  {
  }

  // ---- Any packets at all ----------------------------------------------------------------------------------

  function FinalOf(maxUnit: nat, st: State, packets: seq<Packet>): State
    decreases |packets|
  {
    if packets == [] then st else FinalOf(maxUnit, Step(maxUnit, st, packets[0]).0, packets[1..])
  }

  predicate HasType(payload: Bytes, nalType: nat) {
    |payload| >= 2 && payload[0] < 0x80 && payload[0] / 2 % 64 == nalType && payload[1] % 8 > 0
  }

  /** How large a unit can be that the packet delivers: reassembled within the limit, aggregated within it behind a start code, or
      whole as it came. */
  predicate SizeFits(maxUnit: nat, p: Packet, u: Bytes) {
    if HasType(p.payload, NAL_TYPE_FU) then |u| <= maxUnit
    else if HasType(p.payload, NAL_TYPE_AP) then 4 < |u| <= 4 + maxUnit
    else u == Unit(p.payload)
  }

  lemma StepFits(maxUnit: nat, st: State, p: Packet)
    requires Bounded(LimitsOf(maxUnit), st.assembly)
    ensures var (st', out) := Step(maxUnit, st, p);
            Bounded(LimitsOf(maxUnit), st'.assembly) && forall u :: u in UnitsOf(out) ==> SizeFits(maxUnit, p, u)
  {
    if HasType(p.payload, NAL_TYPE_FU) {
      FragmentFits(maxUnit, st, p);
    } else {
      WholeFits(maxUnit, st, p);
    }
  }

  lemma FragmentFits(maxUnit: nat, st: State, p: Packet)
    requires Bounded(LimitsOf(maxUnit), st.assembly) && HasType(p.payload, NAL_TYPE_FU)
    ensures var (a, unit) := FuStep(maxUnit, st, p.payload, p.seqNo);
            Bounded(LimitsOf(maxUnit), a) && (unit.Some? ==> SizeFits(maxUnit, p, unit.value))
  {
    var payload := p.payload;
    if |payload| >= 3 {
      LimitsHold(LimitsOf(maxUnit), st, Fu(StartBit(payload), EndBit(payload), Unit(RebuiltHeader(payload)), payload[3..]), p.seqNo, 0);
    }
  }

  lemma WholeFits(maxUnit: nat, st: State, p: Packet)
    requires !HasType(p.payload, NAL_TYPE_FU)
    ensures var (st', out) := Step(maxUnit, st, p);
            st'.assembly == st.assembly && forall u :: u in UnitsOf(out) ==> SizeFits(maxUnit, p, u)
  {
    if |p.payload| >= 2 && Parse(RulesOf(maxUnit), p.payload, 2, 0).Some? {
      var nals := Parse(RulesOf(maxUnit), p.payload, 2, 0).value;
      assert forall nal :: nal in nals ==> 0 < |nal| <= maxUnit by {
        ParsedHolds(RulesOf(maxUnit), p.payload, 2, 0);
      }
      UnitsFit(nals, maxUnit);
    }
  }

  /** Whatever packets come, well-formed or not: what is held never exceeds the limit, and every unit returned stems from a packet
      that may deliver one of its size. */
  lemma {:induction false} AlwaysBounded(maxUnit: nat, st: State, packets: seq<Packet>)
    requires Bounded(LimitsOf(maxUnit), st.assembly)
    ensures Bounded(LimitsOf(maxUnit), FinalOf(maxUnit, st, packets).assembly)
    ensures forall u :: u in Run(maxUnit, st, packets) ==> exists p :: p in packets && SizeFits(maxUnit, p, u)
    decreases |packets|
  {
    if packets != [] {
      StepFits(maxUnit, st, packets[0]);
      var (st', out) := Step(maxUnit, st, packets[0]);
      AlwaysBounded(maxUnit, st', packets[1..]);
      forall u | u in Run(maxUnit, st, packets) ensures exists p :: p in packets && SizeFits(maxUnit, p, u) {
        if u in UnitsOf(out) {
          assert packets[0] in packets;
        } else {
          assert Run(maxUnit, st, packets) == UnitsOf(out) + Run(maxUnit, st', packets[1..]);
          assert u in Run(maxUnit, st', packets[1..]);
          var p :| p in packets[1..] && SizeFits(maxUnit, p, u);
          assert p in packets;
        }
      }
    }
  }

  /** A packet that is neither a fragment nor a PACI packet is accepted if and only if it is one that a sender lays out, within the
      limits; its units are then those it was made from. */
  lemma AcceptedExactly(maxUnit: nat, st: State, p: Packet)
    requires !HasType(p.payload, NAL_TYPE_FU) && !HasType(p.payload, NAL_TYPE_PACI)
    ensures Step(maxUnit, st, p).1.Ok? <==> exists s: Slot :: s.Whole? && SlotSendable(s) && !Unheard(LimitsOf(maxUnit), s) && Payload(s) == p.payload
  {
    if Step(maxUnit, st, p).1.Ok? {
      var made := MadeFrom(maxUnit, st, p);
    }
    if s: Slot :| s.Whole? && SlotSendable(s) && !Unheard(LimitsOf(maxUnit), s) && Payload(s) == p.payload {
      HeardIsOk(maxUnit, st, s, p.seqNo);
    }
  }

  lemma MadeFrom(maxUnit: nat, st: State, p: Packet) returns (s: Slot)
    requires !HasType(p.payload, NAL_TYPE_FU) && !HasType(p.payload, NAL_TYPE_PACI) && Step(maxUnit, st, p).1.Ok?
    ensures s.Whole? && SlotSendable(s) && !Unheard(LimitsOf(maxUnit), s) && Payload(s) == p.payload
  {
    if HasType(p.payload, NAL_TYPE_AP) {
      var nals := Parse(RulesOf(maxUnit), p.payload, 2, 0).value;
      s := Whole(Aggregate(p.payload[..2], nals));
      AggregateMade(maxUnit, p.payload, nals);
    } else {
      s := Whole(Single(p.payload));
    }
  }

  lemma AggregateMade(maxUnit: nat, payload: Bytes, nals: seq<Bytes>)
    requires HasType(payload, NAL_TYPE_AP) && Parse(RulesOf(maxUnit), payload, 2, 0) == Some(nals)
    ensures var s := Whole(Aggregate(payload[..2], nals));
            SlotSendable(s) && !Unheard(LimitsOf(maxUnit), s) && Payload(s) == payload
  {
    ParsedIsEncoded(RulesOf(maxUnit), payload, 2, nals);
    AggregateIsOk(payload, nals);
  }

  lemma AggregateIsOk(payload: Bytes, nals: seq<Bytes>)
    requires HasType(payload, NAL_TYPE_AP) && forall nal :: nal in nals ==> 0 < |nal| < 0x1_0000
    ensures ItemOk(Aggregate(payload[..2], nals))
  {
  }

  lemma HeardIsOk(maxUnit: nat, st: State, s: Slot, seqNo: nat)
    requires s.Whole? && SlotSendable(s) && !Unheard(LimitsOf(maxUnit), s)
    ensures Step(maxUnit, st, Packet(Payload(s), seqNo)).1.Ok?
  {
    if s.item.Aggregate? {
      AggregateParses(maxUnit, s);
    }
  }

  /** A unit in one fragment that is both first and last is ignored, and so is a fragment too short to have a header; the assembly
      in progress stays. */
  lemma LoneFragment(maxUnit: nat, st: State, p: Packet)
    requires HasType(p.payload, NAL_TYPE_FU) && (|p.payload| < 3 || p.payload[2] >= 0xC0)
    ensures Step(maxUnit, st, p) == (State(st.assembly, p.seqNo), Ok([]))
  {
  }
}
