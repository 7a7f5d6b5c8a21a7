/** The H.264 depacketizer (RFC 6184) and the packet layout that a sender uses for it. */
module H264 {
  import opened Sequences
  import opened Bytes
  import opened RtpStream
  import opened Reassembly
  import opened Aggregation
  import opened Forgeries

  const NAL_TYPE_STAP_A := 24
  const NAL_TYPE_FU_A := 28
  const MAX_STAP_A_UNITS := 100
  const MAX_FU_PARTS := 1000

  /** `security.MaxNALUnitSize`, `security.MaxFragmentSize` and the fragment timeout. */
  datatype Config = Config(maxUnit: nat, maxFragment: nat, timeout: int)

  datatype Outcome = Ok(units: seq<Bytes>) | Error

  datatype Packet = Packet(payload: Bytes, seqNo: nat, now: int)

  function LimitsOf(cfg: Config): Limits {
    Limits(cfg.maxUnit, Some(cfg.maxFragment), Some(MAX_FU_PARTS), cfg.timeout, true, RulesOf(cfg))
  }

  function RulesOf(cfg: Config): Rules { Rules(cfg.maxUnit, Some(MAX_STAP_A_UNITS), false) }

  // ---- What one packet does, on values -------------------------------------------------------------------

  predicate StartBit(payload: Bytes) requires |payload| >= 2 { payload[1] >= 0x80 }
  predicate EndBit(payload: Bytes) requires |payload| >= 2 { payload[1] / 0x40 % 2 == 1 }

  /** The importance bits of the FU indicator and the type bits of the FU header. */
  function RebuiltHeader(payload: Bytes): byte
    requires |payload| >= 2
  {
    payload[0] / 32 * 32 + payload[1] % 32
  }

  function FuaStep(cfg: Config, st: State, payload: Bytes, seqNo: nat, now: int): (Assembly, Option<Bytes>) {
    if |payload| < 2 then (st.assembly, None)
    else if StartBit(payload) && EndBit(payload) then (st.assembly, Some(Unit([RebuiltHeader(payload)]) + payload[2..]))
    else Accept(LimitsOf(cfg), st, Fu(StartBit(payload), EndBit(payload), Unit([RebuiltHeader(payload)]), payload[2..]), seqNo, now)
  }

  function Step(cfg: Config, st: State, p: Packet): (State, Outcome) {
    if p.payload == [] || p.payload[0] >= 0x80 then (st, Error)
    else
      var nalType := p.payload[0] % 32;
      if 1 <= nalType <= 23 then (State(st.assembly, p.seqNo), Ok([Unit(p.payload)]))
      else if nalType == NAL_TYPE_STAP_A then
        match Parse(RulesOf(cfg), p.payload, 1, 0)
        case None => (st, Error)
        case Some(nals) => (State(st.assembly, p.seqNo), Ok(Units(nals)))
      else if nalType == NAL_TYPE_FU_A then
        var (a, unit) := FuaStep(cfg, st, p.payload, p.seqNo, p.now);
        (State(a, p.seqNo), Ok(if unit.Some? then [unit.value] else []))
      else (st, Error)
  }

  /** An error returns nothing. */
  function UnitsOf(r: Outcome): seq<Bytes> { if r.Ok? then r.units else [] }

  /** Everything a depacketizer returns over a run. */
  function Run(cfg: Config, st: State, packets: seq<Packet>): seq<Bytes>
    decreases |packets|
  {
    if packets == [] then []
    else
      var (st', out) := Step(cfg, st, packets[0]);
      UnitsOf(out) + Run(cfg, st', packets[1..])
  }

  // ---- The depacketizer -----------------------------------------------------------------------------------

  class Depacketizer {
    var fragments: seq<Bytes>
    var lastSeq: nat
    var fuInProgress: bool
    var fragmentStartTime: Option<int>  // None is the zero time
    const cfg: Config

    ghost predicate Valid()
      reads this
    {
      fuInProgress == (fragments != []) && fragmentStartTime.Some? == fuInProgress
    }

    /** The assembly as one byte string, with the number of parts it was kept in. */
    ghost function View(): State
      requires Valid()
      reads this
    {
      State(if fragments == [] then Idle else Assembling(Flatten(fragments), |fragments|, fragmentStartTime.value), lastSeq)
    }

    constructor (cfg: Config)
      ensures Valid() && View() == State(Idle, 0) && this.cfg == cfg
    {
      this.cfg := cfg;
      fragments, lastSeq, fuInProgress, fragmentStartTime := [], 0, false, None;
    }

    method Depacketize(p: Packet) returns (r: Outcome)
      requires Valid()
      modifies this
      ensures Valid() && (View(), r) == Step(cfg, old(View()), p)
    {
      if |p.payload| < 1 {
        return Error;
      }
      var nalHeader := p.payload[0];
      if nalHeader >= 0x80 {
        return Error;
      }
      var nalType := nalHeader % 32;
      var nalUnits := [];
      if 1 <= nalType <= 23 {
        nalUnits := [Unit(p.payload)];
      } else if nalType == NAL_TYPE_STAP_A {
        var parsed := HandleStapA(p.payload);
        if parsed.Error? {
          return Error;
        }
        nalUnits := parsed.units;
      } else if nalType == NAL_TYPE_FU_A {
        var unit := HandleFuA(p.payload, p.seqNo, p.now);
        lastSeq := p.seqNo;
        if unit.Some? {
          nalUnits := [unit.value];
        }
      } else {
        return Error;
      }
      if nalType != NAL_TYPE_FU_A {
        lastSeq := p.seqNo;
      }
      return Ok(nalUnits);
    }

    method HandleStapA(payload: Bytes) returns (r: Outcome)
      requires payload != []
      ensures var nals := Parse(RulesOf(cfg), payload, 1, 0);
              r == if nals.None? then Error else Ok(Units(nals.value))
    {
      var nalUnits: seq<Bytes> := [];
      ghost var nals: seq<Bytes> := [];
      var offset := 1;
      PrependLaws([], [], Parse(RulesOf(cfg), payload, 1, 0));
      while offset < |payload| && |nalUnits| < MAX_STAP_A_UNITS
        invariant 1 <= offset <= |payload|
        invariant nalUnits == Units(nals)
        invariant Parse(RulesOf(cfg), payload, 1, 0) == Prepend(nals, Parse(RulesOf(cfg), payload, offset, |nals|))
        decreases |payload| - offset
      {
        if offset + 2 > |payload| {
          return Error;
        }
        var nalSize := SizeAt(payload, offset);
        offset := offset + 2;
        if nalSize == 0 || nalSize > cfg.maxUnit || offset + nalSize > |payload| {
          return Error;
        }
        var nal := payload[offset..offset + nalSize];
        nalUnits := nalUnits + [Unit(nal)];
        offset := offset + nalSize;
        UnitsAppend(nals, [nal]);
        PrependLaws(nals, [nal], Parse(RulesOf(cfg), payload, offset, |nals| + 1));
        nals := nals + [nal];
      }
      if |nalUnits| >= MAX_STAP_A_UNITS {
        return Error;
      }
      return Ok(nalUnits);
    }

    method HandleFuA(payload: Bytes, seqNo: nat, now: int) returns (unit: Option<Bytes>)
      requires Valid()
      modifies this
      ensures Valid() && (View().assembly, unit) == FuaStep(cfg, old(View()), payload, seqNo, now)
    {
      if |payload| < 2 {
        return None;
      }
      var fuIndicator, fuHeader := payload[0], payload[1];
      var startBit := fuHeader >= 0x80;
      var endBit := fuHeader / 0x40 % 2 == 1;
      var nalHeader := fuIndicator / 32 * 32 + fuHeader % 32;
      if startBit && endBit {
        lastSeq := seqNo;
        return Some(START_CODE + [nalHeader] + payload[2..]);
      }
      if |payload| <= 2 {
        return None;
      }
      var fuPayload := payload[2..];
      if |fuPayload| > cfg.maxFragment {
        Discard();
        return None;
      }
      if cfg.timeout > 0 && fragmentStartTime.Some? && now - fragmentStartTime.value > cfg.timeout {
        Discard();
      }
      if startBit {
        fragments := [START_CODE + [nalHeader]];
        fragmentStartTime := Some(now);
        fuInProgress := true;
        FlattenOne(fragments[0]);
      }
      if fuInProgress && !startBit && |fragments| > 0 {
        var gap := Gap(seqNo, lastSeq);
        if gap == 0 {
          return None;
        }
        if gap != 1 {
          Discard();
          return None;
        }
      }
      if |fragments| > 0 {
        var currentSize := TotalSize(fragments);
        if currentSize + |fuPayload| > cfg.maxUnit {
          Discard();
          return None;
        }
        FlattenSnoc(fragments, fuPayload);
        fragments := fragments + [fuPayload];
        if |fragments| > MAX_FU_PARTS {
          Discard();
          return None;
        }
      }
      if endBit && |fragments| > 0 {
        var totalSize := TotalSize(fragments);
        if totalSize > cfg.maxUnit {
          // The sum was bounded before the fragment was added.
          assert false;
        }
        var nalUnit := Joined(fragments);
        Discard();
        lastSeq := seqNo;
        return Some(nalUnit);
      }
      lastSeq := seqNo;
      return None;
    }

    method Discard()
      modifies this
      ensures Valid() && View() == State(Idle, old(lastSeq))
    {
      fragments, fuInProgress, fragmentStartTime := [], false, None;
    }
  }

  // ---- The sender's packet layout ------------------------------------------------------------------------

  predicate NalOk(nal: Bytes) { nal != [] && nal[0] < 0x80 && 1 <= nal[0] % 32 <= 23 }

  /** What section 5 of RFC 6184 lets a sender emit, whether the receiver accepts it or not: aggregates and fragmented
      units may exceed any limit of the receiver, fragments may be empty, and packets of the other types may be mixed in. */
  predicate ItemOk(item: Item) {
    match item
    case Single(nal) => NalOk(nal)
    case Aggregate(header, nals) =>
      && |header| == 1 && header[0] < 0x80 && header[0] % 32 == NAL_TYPE_STAP_A
      && forall nal :: nal in nals ==> 0 < |nal| < 0x1_0000
    case Fragmented(nal, pieces) => NalOk(nal) && Fragmentable(1, item)
    case Other(payload) =>
      && payload != [] && payload[0] < 0x80
      && (payload[0] % 32 == 0 || (payload[0] % 32 > NAL_TYPE_STAP_A && payload[0] % 32 != NAL_TYPE_FU_A))
  }

  predicate ItemsOk(items: seq<Item>) { forall item :: item in items ==> ItemOk(item) }

  predicate SlotSendable(s: Slot) {
    match s
    case Whole(item) => ItemOk(item) && !item.Fragmented?
    case Fragment(nal, pieces, j) => j < |pieces| && ItemOk(Fragmented(nal, pieces))
  }

  function Payload(s: Slot): Bytes
    requires SlotSendable(s)
  {
    match s
    case Whole(Single(nal)) => nal
    case Whole(Aggregate(header, nals)) => header + Encode(nals)
    case Whole(Other(payload)) => payload
    case Fragment(nal, pieces, j) =>
      [nal[0] / 32 * 32 + NAL_TYPE_FU_A,
       (if j == 0 then 0x80 else 0) + (if j == |pieces| - 1 then 0x40 else 0) + nal[0] % 32] + pieces[j]
  }

  function Wire(arrivals: seq<Arrival>): (r: seq<Packet>)
    requires forall a :: a in arrivals ==> SlotSendable(a.slot)
    ensures |r| == |arrivals|
  {
    seq(|arrivals|, i requires 0 <= i < |arrivals| =>
      assert arrivals[i] in arrivals; Packet(Payload(arrivals[i].slot), arrivals[i].seqNo, arrivals[i].now))
  }

  /** The receiver takes a packet for the slot it was made from, the header byte rebuilt bit for bit. */
  lemma PacketMeansSlot(cfg: Config, st: State, s: Slot, seqNo: nat, now: int)
    requires SlotSendable(s)
    ensures var (st', units) := SlotStep(1, LimitsOf(cfg), st, s, seqNo, now);
            var (st'', out) := Step(cfg, st, Packet(Payload(s), seqNo, now));
            st'' == st' && UnitsOf(out) == units && (out.Error? <==> Unheard(LimitsOf(cfg), s))
  {
    match s {
      case Whole(Single(nal)) =>
        assert Units(NalsOf(s.item)) == [Unit(nal)];
      case Whole(Aggregate(header, nals)) =>
        AggregateParses(cfg, s);
      case Whole(Other(payload)) =>
      case Fragment(nal, pieces, j) =>
        FragmentMeansFu(s);
    }
  }

  lemma AggregateParses(cfg: Config, s: Slot)
    requires s.Whole? && s.item.Aggregate? && SlotSendable(s)
    ensures var payload, nals := Payload(s), s.item.nals;
            Parse(RulesOf(cfg), payload, 1, 0) == if Admissible(RulesOf(cfg), nals, 0) then Some(nals) else None
  {
    var payload, nals := Payload(s), s.item.nals;
    assert payload[1..] == Encode(nals);
    EncodeHolds(payload, 1, nals);
    AggregateRoundTrip(RulesOf(cfg), payload, 1, nals, 0);
  }

  lemma FragmentMeansFu(s: Slot)
    requires s.Fragment? && SlotSendable(s)
    ensures var payload := Payload(s);
            && SlotOk(1, s) && |payload| >= 2 && payload[0] < 0x80 && payload[0] % 32 == NAL_TYPE_FU_A
            && !(StartBit(payload) && EndBit(payload))
            && Fu(StartBit(payload), EndBit(payload), Unit([RebuiltHeader(payload)]), payload[2..]) == FuOf(1, s)
  {
    var payload := Payload(s);
    assert payload[2..] == s.pieces[s.index];
    assert [RebuiltHeader(payload)] == s.nal[..1];
  }

  lemma {:induction false} RunMeansSlots(cfg: Config, st: State, arrivals: seq<Arrival>)
    requires forall a :: a in arrivals ==> SlotSendable(a.slot)
    ensures Run(cfg, st, Wire(arrivals)) == Returned(1, LimitsOf(cfg), st, arrivals)
    decreases |arrivals|
  {
    if arrivals != [] {
      var a := arrivals[0];
      assert a in arrivals;
      PacketMeansSlot(cfg, st, a.slot, a.seqNo, a.now);
      assert Wire(arrivals)[1..] == Wire(arrivals[1..]);
      RunMeansSlots(cfg, SlotStep(1, LimitsOf(cfg), st, a.slot, a.seqNo, a.now).0, arrivals[1..]);
    }
  }

  lemma StreamSendable(items: seq<Item>)
    requires ItemsOk(items)
    ensures forall s :: s in Stream(items) ==> SlotSendable(s)
    ensures forall item :: item in items ==> Fragmentable(1, item)
  {
    forall p | 0 <= p < |Stream(items)| ensures SlotSendable(Stream(items)[p]) {
      StreamStructure(items, p);
    }
  }

  // ---- No forged units -----------------------------------------------------------------------------------

  /** What a fresh depacketizer returns after a delivery of a stream. */
  function Received(cfg: Config, items: seq<Item>, start: nat, ds: seq<Delivery>): seq<Bytes>
    requires ItemsOk(items) && Delivers(|Stream(items)|, ds)
  {
    StreamSendable(items);
    Run(cfg, State(Idle, 0), Wire(Arrivals(Stream(items), start, ds)))
  }

  lemma ReceivedIs(cfg: Config, items: seq<Item>, start: nat, ds: seq<Delivery>)
    requires ItemsOk(items) && Delivers(|Stream(items)|, ds)
    ensures Received(cfg, items, start, ds) == Returned(1, LimitsOf(cfg), State(Idle, 0), Arrivals(Stream(items), start, ds))
  {
    StreamSendable(items);
    RunMeansSlots(cfg, State(Idle, 0), Arrivals(Stream(items), start, ds));
  }

  predicate AllTame(cfg: Config, items: seq<Item>) { forall item :: item in items ==> Tame(LimitsOf(cfg), item) }

  /** No forged units: whatever packets of a stream are lost, duplicated or reordered, and whichever are refused, every
      unit that a fresh depacketizer returns is a start code and a NAL unit that was sent. */
  lemma NoForgedUnits(cfg: Config, items: seq<Item>, start: nat, ds: seq<Delivery>)
    requires ItemsOk(items) && AllTame(cfg, items) && Plausible(LimitsOf(cfg), Stream(items), ds)
    ensures AllSent(items, Received(cfg, items, start, ds))
  {
    StreamSendable(items);
    ReceivedIs(cfg, items, start, ds);
    NothingForged(1, LimitsOf(cfg), items, start, 0, ds);
  }

  /** No stream in which the unit travels with tame ones, delivered plausibly, yields a forged unit. */
  ghost predicate Harmless(cfg: Config, item: Item) {
    forall items, start, ds :: Among(cfg, item, items) && Plausible(LimitsOf(cfg), Stream(items), ds) ==>
      AllSent(items, Received(cfg, items, start, ds))
  }

  predicate Among(cfg: Config, item: Item, items: seq<Item>) {
    item in items && ItemsOk(items) && forall other :: other in items ==> other == item || Tame(LimitsOf(cfg), other)
  }

  /** Section 5.8 of RFC 6184 allows empty fragments, but they are passed over before the start bit is looked at. A
      unit is harmless in exactly these layouts: its last fragment is empty, or no other is. */
  lemma HarmlessExactly(cfg: Config, nal: Bytes, pieces: seq<Bytes>)
    requires ItemOk(Fragmented(nal, pieces)) && Room(1, LimitsOf(cfg), nal, pieces)
    ensures Harmless(cfg, Fragmented(nal, pieces)) <==> (pieces[|pieces| - 1] == [] || forall j :: 0 <= j < |pieces| - 1 ==> pieces[j] != [])
  {
    var item := Fragmented(nal, pieces);
    if Tame(LimitsOf(cfg), item) {
      forall items, start, ds | Among(cfg, item, items) && Plausible(LimitsOf(cfg), Stream(items), ds)
        ensures AllSent(items, Received(cfg, items, start, ds))
      {
        NoForgedUnits(cfg, items, start, ds);
      }
    } else {
      LayoutForges(cfg, nal, pieces);
    }
  }

  lemma LayoutForges(cfg: Config, nal: Bytes, pieces: seq<Bytes>)
    requires ItemOk(Fragmented(nal, pieces)) && Room(1, LimitsOf(cfg), nal, pieces) && !Tame(LimitsOf(cfg), Fragmented(nal, pieces))
    ensures !Harmless(cfg, Fragmented(nal, pieces))
  {
    var header: Bytes := if nal[0] == 0x65 then [0x61] else [0x65];
    var b, ds := UntameForges(1, LimitsOf(cfg), nal, pieces, header, 0);
    PairSendable(cfg, nal, pieces, header, b);
    ReceivedIs(cfg, [Fragmented(nal, pieces), Short(header, 1, b)], 0, ds);
  }

  lemma PairSendable(cfg: Config, nal: Bytes, pieces: seq<Bytes>, header: Bytes, b: byte)
    requires ItemOk(Fragmented(nal, pieces)) && (header == [0x61] || header == [0x65])
    ensures Among(cfg, Fragmented(nal, pieces), [Fragmented(nal, pieces), Short(header, 1, b)])
  {
    ShortIsFragmentable(header, 1, b);
  }

  /** No stream of tame units yields a forged unit when neighbouring deliveries are less than half the sequence space
      apart, and packets heard one after the other are unmistakable or at distance `d`. */
  ghost predicate Safe(cfg: Config, d: int) {
    forall items, start, ds :: ItemsOk(items) && AllTame(cfg, items) && HeardAt(cfg, d, items, ds) ==>
      AllSent(items, Received(cfg, items, start, ds))
  }

  predicate HeardAt(cfg: Config, d: int, items: seq<Item>, ds: seq<Delivery>) {
    Close(|Stream(items)|, ds) && Spaced(LimitsOf(cfg), Stream(items), None, ds, x => OrAt(d, x))
  }

  /** An aggregate of a hundred units, which the receiver refuses without noting its sequence number. */
  function RefusedAggregate(): Item { Aggregate([NAL_TYPE_STAP_A], Repeat([9], 100)) }

  /** Half the sequence space between deliveries is not enough, since refused packets leave no trace: what counts is the
      distance `d` between packets that are heard, and it is safe exactly when `d` modulo 2^16 is neither 0 nor 1, or `d` is. */
  lemma SafeExactly(cfg: Config, d: int)
    requires cfg.maxUnit >= 9 && cfg.maxFragment >= 1
    ensures Safe(cfg, d) <==> (d % 0x1_0000 > 1 || d == 0 || d == 1)
  {
    var lim := LimitsOf(cfg);
    if Unmistakable(d) {
      forall items, start, ds | ItemsOk(items) && AllTame(cfg, items) && HeardAt(cfg, d, items, ds)
        ensures AllSent(items, Received(cfg, items, start, ds))
      {
        SpacedMore(lim, Stream(items), None, ds, x => OrAt(d, x), Unmistakable);
        NoForgedUnits(cfg, items, start, ds);
      }
    } else {
      DistanceForges(cfg, d);
    }
  }

  lemma DistanceForges(cfg: Config, d: int)
    requires cfg.maxUnit >= 9 && cfg.maxFragment >= 1 && !Unmistakable(d)
    ensures !Safe(cfg, d)
  {
    var lim, quiet := LimitsOf(cfg), RefusedAggregate();
    FarApart(d);
    assert quiet.nals[0] == [9];
    MistakenForges(1, lim, d, [0x65], quiet, 0);
    var items, ds := Apart(d, [0x65], quiet), ApartDelivery(d);
    ApartOrderly(1, lim, d, [0x65], quiet);
    ApartSendable(cfg, d);
    ReceivedIs(cfg, items, 0, ds);
    assert HeardAt(cfg, d, items, ds);
  }

  lemma ApartSendable(cfg: Config, d: int)
    requires d > 3 || d < -3
    ensures ItemsOk(Apart(d, [0x65], RefusedAggregate())) && AllTame(cfg, Apart(d, [0x65], RefusedAggregate()))
  {
    var items := Apart(d, [0x65], RefusedAggregate());
    ApartOrderly(1, LimitsOf(cfg), d, [0x65], RefusedAggregate());
    forall item | item in items ensures ItemOk(item) {
      assert item == RefusedAggregate() || item == Long([0x65]) || item == Short([0x65], 1, 2);
    }
  }

  // ---- Round trip ----------------------------------------------------------------------------------------

  /** Round trip: in-order delivery of single, aggregated and fragmented units within the limits returns exactly those
      units in order, from every state of the depacketizer and every first sequence number. */
  lemma RoundTrip(cfg: Config, st: State, items: seq<Item>, start: nat, clock: nat -> int)
    requires ItemsOk(items) && AllWithin(LimitsOf(cfg), items, 0, clock)
    ensures forall a :: a in InOrder(Stream(items), start, 0, clock) ==> SlotSendable(a.slot)
    ensures Run(cfg, st, Wire(InOrder(Stream(items), start, 0, clock))) == Units(SentNals(items))
  {
    StreamSendable(items);
    RunMeansSlots(cfg, st, InOrder(Stream(items), start, 0, clock));
    LosslessRoundTrip(1, LimitsOf(cfg), st, items, start, clock);
  }

  /** What breaks a limit of the receiver is lost as a whole, and nothing else is: in-order delivery of any stream, in which no
      fragmented unit starts with an empty fragment, returns exactly the units of the items within the limits. */
  lemma InOrderExactly(cfg: Config, st: State, items: seq<Item>, start: nat, clock: nat -> int)
    requires ItemsOk(items)
    requires forall item :: item in items && item.Fragmented? ==> item.pieces[0] != []
    ensures forall a :: a in InOrder(Stream(items), start, 0, clock) ==> SlotSendable(a.slot)
    ensures Run(cfg, st, Wire(InOrder(Stream(items), start, 0, clock))) == AllDelivered(LimitsOf(cfg), items, 0, clock)
  {
    StreamSendable(items);
    RunMeansSlots(cfg, st, InOrder(Stream(items), start, 0, clock));
    LosslessExactly(1, LimitsOf(cfg), st, items, start, clock);
  }

  // ---- Any packets at all ----------------------------------------------------------------------------------

  function FinalOf(cfg: Config, st: State, packets: seq<Packet>): State
    decreases |packets|
  {
    if packets == [] then st else FinalOf(cfg, Step(cfg, st, packets[0]).0, packets[1..])
  }

  predicate IsFragment(payload: Bytes) { payload != [] && payload[0] < 0x80 && payload[0] % 32 == NAL_TYPE_FU_A }

  /** How large a unit can be that the packet delivers: whole as it came, within the limit behind a start code, or, reassembled,
      within the limit with it. A fragment that claims to be both first and last is delivered without any limit. */
  predicate SizeFits(cfg: Config, p: Packet, u: Bytes) {
    if IsFragment(p.payload) then
      |p.payload| >= 2 && if StartBit(p.payload) && EndBit(p.payload) then |u| == |p.payload| + 3 else |u| <= cfg.maxUnit
    else if p.payload != [] && p.payload[0] % 32 == NAL_TYPE_STAP_A then 4 < |u| <= 4 + cfg.maxUnit
    else u == Unit(p.payload)
  }

  lemma StepFits(cfg: Config, st: State, p: Packet)
    requires Bounded(LimitsOf(cfg), st.assembly)
    ensures var (st', out) := Step(cfg, st, p);
            Bounded(LimitsOf(cfg), st'.assembly) && forall u :: u in UnitsOf(out) ==> SizeFits(cfg, p, u)
  {
    if IsFragment(p.payload) {
      FragmentFits(cfg, st, p);
    } else {
      WholeFits(cfg, st, p);
    }
  }

  lemma FragmentFits(cfg: Config, st: State, p: Packet)
    requires Bounded(LimitsOf(cfg), st.assembly) && IsFragment(p.payload)
    ensures var (a, unit) := FuaStep(cfg, st, p.payload, p.seqNo, p.now);
            Bounded(LimitsOf(cfg), a) && (unit.Some? ==> SizeFits(cfg, p, unit.value))
  {
    var payload := p.payload;
    if |payload| >= 2 {
      LimitsHold(LimitsOf(cfg), st, Fu(StartBit(payload), EndBit(payload), Unit([RebuiltHeader(payload)]), payload[2..]), p.seqNo, p.now);
    }
  }

  lemma WholeFits(cfg: Config, st: State, p: Packet)
    requires !IsFragment(p.payload)
    ensures var (st', out) := Step(cfg, st, p);
            st'.assembly == st.assembly && forall u :: u in UnitsOf(out) ==> SizeFits(cfg, p, u)
  {
    if p.payload != [] && Parse(RulesOf(cfg), p.payload, 1, 0).Some? {
      var nals := Parse(RulesOf(cfg), p.payload, 1, 0).value;
      assert forall nal :: nal in nals ==> 0 < |nal| <= cfg.maxUnit by {
        ParsedHolds(RulesOf(cfg), p.payload, 1, 0);
      }
      UnitsFit(nals, cfg.maxUnit);
    }
  }

  /** Whatever packets come, well-formed or not: what is held never exceeds the limits, and every unit returned stems from a
      packet that may deliver one of its size. */
  lemma {:induction false} AlwaysBounded(cfg: Config, st: State, packets: seq<Packet>)
    requires Bounded(LimitsOf(cfg), st.assembly)
    ensures Bounded(LimitsOf(cfg), FinalOf(cfg, st, packets).assembly)
    ensures forall u :: u in Run(cfg, st, packets) ==> exists p :: p in packets && SizeFits(cfg, p, u)
    decreases |packets|
  {
    if packets != [] {
      StepFits(cfg, st, packets[0]);
      var (st', out) := Step(cfg, st, packets[0]);
      AlwaysBounded(cfg, st', packets[1..]);
      forall u | u in Run(cfg, st, packets) ensures exists p :: p in packets && SizeFits(cfg, p, u) {
        if u in UnitsOf(out) {
          assert packets[0] in packets;
        } else {
          assert Run(cfg, st, packets) == UnitsOf(out) + Run(cfg, st', packets[1..]);
          assert u in Run(cfg, st', packets[1..]);
          var p :| p in packets[1..] && SizeFits(cfg, p, u);
          assert p in packets;
        }
      }
    }
  }

  /** A packet other than a fragment is accepted if and only if it is one that a sender lays out, within the limits; its units
      are then those it was made from. */
  lemma AcceptedExactly(cfg: Config, st: State, p: Packet)
    requires !IsFragment(p.payload)
    ensures Step(cfg, st, p).1.Ok? <==> exists s: Slot :: s.Whole? && SlotSendable(s) && !Unheard(LimitsOf(cfg), s) && Payload(s) == p.payload
  {
    if Step(cfg, st, p).1.Ok? {
      var made := MadeFrom(cfg, st, p);
    }
    if s: Slot :| s.Whole? && SlotSendable(s) && !Unheard(LimitsOf(cfg), s) && Payload(s) == p.payload {
      PacketMeansSlot(cfg, st, s, p.seqNo, p.now);
    }
  }

  lemma MadeFrom(cfg: Config, st: State, p: Packet) returns (s: Slot)
    requires !IsFragment(p.payload) && Step(cfg, st, p).1.Ok?
    ensures s.Whole? && SlotSendable(s) && !Unheard(LimitsOf(cfg), s) && Payload(s) == p.payload
  {
    if p.payload[0] % 32 == NAL_TYPE_STAP_A {
      var nals := Parse(RulesOf(cfg), p.payload, 1, 0).value;
      s := Whole(Aggregate(p.payload[..1], nals));
      ParsedIsEncoded(RulesOf(cfg), p.payload, 1, nals);
      AggregateIsOk(p.payload, nals);
    } else {
      s := Whole(Single(p.payload));
    }
  }

  lemma AggregateIsOk(payload: Bytes, nals: seq<Bytes>)
    requires payload != [] && payload[0] < 0x80 && payload[0] % 32 == NAL_TYPE_STAP_A
    requires forall nal :: nal in nals ==> 0 < |nal| < 0x1_0000
    ensures ItemOk(Aggregate(payload[..1], nals))
  {
  }

  /** A unit in one fragment that is both first and last, which section 5.8 of RFC 6184 forbids, is delivered all the same, and
      the assembly in progress stays. */
  lemma LoneFragment(cfg: Config, st: State, nal: Bytes, seqNo: nat, now: int)
    requires NalOk(nal)
    ensures var p := Packet([nal[0] / 32 * 32 + NAL_TYPE_FU_A, 0xC0 + nal[0] % 32] + nal[1..], seqNo, now);
            Step(cfg, st, p) == (State(st.assembly, seqNo), Ok([Unit(nal)]))
  {
    var payload: Bytes := [nal[0] / 32 * 32 + NAL_TYPE_FU_A, 0xC0 + nal[0] % 32] + nal[1..];
    assert payload[2..] == nal[1..] && [nal[0]] + nal[1..] == nal;
    assert RebuiltHeader(payload) == nal[0];
    Associative(START_CODE, [nal[0]], nal[1..]);
  }
}
