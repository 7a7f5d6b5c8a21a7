/** Aggregation packets: NAL units behind 16-bit lengths, as both depacketizers read them. */
module Aggregation {
  import opened Sequences
  import opened Bytes

  /** `maxCount` is `None` where the codec puts no bound on the number of units; `nested` asks for the HEVC check
      that no aggregated unit is itself an aggregation, fragmentation or PACI unit. */
  datatype Rules = Rules(maxUnit: nat, maxCount: Option<nat>, nested: bool)

  predicate Barred(rules: Rules, nal: Bytes) {
    rules.nested && |nal| >= 2 && nal[0] / 2 % 64 >= 48
  }

  /** The unit whose length field is at `offset` of a payload makes the packet an error. */
  predicate Refused(rules: Rules, payload: Bytes, offset: nat)
    requires offset + 2 <= |payload|
  {
    var size := SizeAt(payload, offset);
    size == 0 || size > rules.maxUnit || offset + 2 + size > |payload| || Barred(rules, payload[offset + 2..offset + 2 + size])
  }

  function SizeAt(payload: Bytes, offset: nat): nat
    requires offset + 2 <= |payload|
  {
    FromBe16(payload[offset], payload[offset + 1])
  }

  /** The units from `offset` on, when `n` have been read before; `None` stands for the error returns. */
  function Parse(rules: Rules, payload: Bytes, offset: nat, n: nat): Option<seq<Bytes>>
    decreases |payload| - offset
  {
    if rules.maxCount.Some? && n >= rules.maxCount.value then None
    else if offset >= |payload| then Some([])
    else if offset + 2 > |payload| || Refused(rules, payload, offset) then None
    else
      var end := offset + 2 + SizeAt(payload, offset);
      Prepend([payload[offset + 2..end]], Parse(rules, payload, end, n + 1))
  }

  function Prepend(a: seq<Bytes>, r: Option<seq<Bytes>>): Option<seq<Bytes>> {
    if r.None? then None else Some(a + r.value)
  }

  lemma PrependLaws(a: seq<Bytes>, b: seq<Bytes>, r: Option<seq<Bytes>>)
    ensures Prepend([], r) == r
    ensures Prepend(a, Prepend(b, r)) == Prepend(a + b, r)
  {
    if r.Some? {
      assert [] + r.value == r.value;
      Associative(a, b, r.value);
    }
  }

  function Encode(nals: seq<Bytes>): Bytes
    requires forall nal :: nal in nals ==> |nal| < 0x1_0000
  {
    if nals == [] then [] else Be16(|nals[0]|) + nals[0] + Encode(nals[1..])
  }

  /** The reader's limits, as a sender can check them. */
  predicate Admissible(rules: Rules, nals: seq<Bytes>, n: nat) {
    && (rules.maxCount.Some? ==> n + |nals| < rules.maxCount.value)
    && forall nal :: nal in nals ==> |nal| <= rules.maxUnit && !Barred(rules, nal)
  }

  /** The payload holds exactly these units from `offset` on. */
  predicate Holds(payload: Bytes, offset: nat, nals: seq<Bytes>)
    decreases |nals|
  {
    if nals == [] then offset == |payload|
    else
      var end := offset + 2 + |nals[0]|;
      && end <= |payload| && SizeAt(payload, offset) == |nals[0]| && payload[offset + 2..end] == nals[0]
      && Holds(payload, end, nals[1..])
  }

  lemma {:induction false} EncodeHolds(payload: Bytes, offset: nat, nals: seq<Bytes>)
    requires forall nal :: nal in nals ==> |nal| < 0x1_0000
    requires offset <= |payload| && payload[offset..] == Encode(nals)
    ensures Holds(payload, offset, nals)
    decreases |nals|
  {
    if nals != [] {
      EncodedFirst(payload, offset, nals);
      EncodeHolds(payload, offset + 2 + |nals[0]|, nals[1..]);
    }
  }

  lemma EncodedFirst(payload: Bytes, offset: nat, nals: seq<Bytes>)
    requires (forall nal :: nal in nals ==> |nal| < 0x1_0000) && nals != []
    requires offset <= |payload| && payload[offset..] == Encode(nals)
    ensures var end := offset + 2 + |nals[0]|;
            && end <= |payload| && SizeAt(payload, offset) == |nals[0]| && payload[offset + 2..end] == nals[0]
            && payload[end..] == Encode(nals[1..])
  {
    var nal := nals[0];
    var body := Be16(|nal|) + nal + Encode(nals[1..]);
    assert payload[offset..] == body;
    assert payload[offset] == body[0] && payload[offset + 1] == body[1];
    assert payload[offset + 2..offset + 2 + |nal|] == body[2..2 + |nal|] == nal;
    assert payload[offset + 2 + |nal|..] == body[2 + |nal|..];
  }

  /** Aggregated units come back exactly when they are within the limits, and otherwise the packet is refused. */
  lemma {:induction false} AggregateRoundTrip(rules: Rules, payload: Bytes, offset: nat, nals: seq<Bytes>, n: nat)
    requires Holds(payload, offset, nals) && forall nal :: nal in nals ==> 0 < |nal|
    ensures Parse(rules, payload, offset, n) == if Admissible(rules, nals, n) then Some(nals) else None
    decreases |nals|
  {
    if nals != [] {
      assert nals == [nals[0]] + nals[1..];
      AggregateRoundTrip(rules, payload, offset + 2 + |nals[0]|, nals[1..], n + 1);
      AdmissibleFirst(rules, nals, n);
    }
  }

  lemma AdmissibleFirst(rules: Rules, nals: seq<Bytes>, n: nat)
    requires nals != []
    ensures Admissible(rules, nals, n) <==>
            |nals[0]| <= rules.maxUnit && !Barred(rules, nals[0]) && Admissible(rules, nals[1..], n + 1)
  {
    assert forall nal :: nal in nals <==> nal == nals[0] || nal in nals[1..];
  }

  /** What is read is there, and within the limits. */
  lemma {:induction false} ParsedHolds(rules: Rules, payload: Bytes, offset: nat, n: nat)
    requires offset <= |payload| && Parse(rules, payload, offset, n).Some?
    ensures var nals := Parse(rules, payload, offset, n).value;
            Holds(payload, offset, nals) && Admissible(rules, nals, n) && forall nal :: nal in nals ==> nal != []
    decreases |payload| - offset
  {
    if offset < |payload| {
      var end := offset + 2 + SizeAt(payload, offset);
      ParsedHolds(rules, payload, end, n + 1);
      HeldFirst(rules, payload, offset, payload[offset + 2..end], Parse(rules, payload, end, n + 1).value, n);
    }
  }

  lemma HeldFirst(rules: Rules, payload: Bytes, offset: nat, nal: Bytes, rest: seq<Bytes>, n: nat)
    requires offset + 2 + |nal| <= |payload| && SizeAt(payload, offset) == |nal| > 0 && payload[offset + 2..offset + 2 + |nal|] == nal
    requires |nal| <= rules.maxUnit && !Barred(rules, nal)
    requires Holds(payload, offset + 2 + |nal|, rest) && Admissible(rules, rest, n + 1) && forall x :: x in rest ==> x != []
    ensures Holds(payload, offset, [nal] + rest) && Admissible(rules, [nal] + rest, n) && forall x :: x in [nal] + rest ==> x != []
  {
    assert ([nal] + rest)[1..] == rest;
    AdmissibleFirst(rules, [nal] + rest, n);
  }

  /** The reader delivers exactly what the payload holds: it returns units if and only if the rest of the payload is these units
      behind their lengths, none of them empty, within its limits. */
  lemma ParsesExactly(rules: Rules, payload: Bytes, offset: nat, nals: seq<Bytes>, n: nat)
    requires offset <= |payload|
    ensures Parse(rules, payload, offset, n) == Some(nals) <==>
            Holds(payload, offset, nals) && Admissible(rules, nals, n) && forall nal :: nal in nals ==> nal != []
  {
    if Holds(payload, offset, nals) && forall nal :: nal in nals ==> nal != [] {
      AggregateRoundTrip(rules, payload, offset, nals, n);
    }
    if Parse(rules, payload, offset, n) == Some(nals) {
      ParsedHolds(rules, payload, offset, n);
    }
  }

  /** A payload that holds units is their encoding. */
  lemma {:induction false} HeldIsEncoded(payload: Bytes, offset: nat, nals: seq<Bytes>)
    requires offset <= |payload| && Holds(payload, offset, nals)
    ensures (forall nal :: nal in nals ==> |nal| < 0x1_0000) && payload[offset..] == Encode(nals)
    decreases |nals|
  {
    if nals != [] {
      var n := |nals[0]|;
      HeldIsEncoded(payload, offset + 2 + n, nals[1..]);
      assert nals == [nals[0]] + nals[1..];
      assert payload[offset..offset + 2] == Be16(n);
      assert payload[offset..] == payload[offset..offset + 2] + payload[offset + 2..offset + 2 + n] + payload[offset + 2 + n..];
    }
  }

  /** What is read could have been sent: the payload is its encoding, within the limits. */
  lemma ParsedIsEncoded(rules: Rules, payload: Bytes, offset: nat, nals: seq<Bytes>)
    requires offset <= |payload| && Parse(rules, payload, offset, 0) == Some(nals)
    ensures Admissible(rules, nals, 0) && (forall nal :: nal in nals ==> 0 < |nal| < 0x1_0000)
    ensures payload == payload[..offset] + Encode(nals)
  {
    ParsedHolds(rules, payload, offset, 0);
    HeldIsEncoded(payload, offset, nals);
    assert payload == payload[..offset] + payload[offset..];
  }
}
