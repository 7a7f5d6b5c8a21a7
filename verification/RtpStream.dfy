/**
 * What a sender puts on the wire: a list of NAL units carried one per packet, aggregated, or fragmented
 * (sections 5.6, 5.7.1 and 5.8 of RFC 6184; sections 4.4.1 to 4.4.3 of RFC 7798), under consecutive
 * 16-bit sequence numbers. The byte layout of a packet belongs to the codec modules.
 */
module RtpStream {
  import opened Sequences
  import opened Bytes

  /** How the sender chose to carry one or more NAL units, or another packet of the stream. */
  datatype Item =
    | Single(nal: Bytes)
    | Aggregate(header: Bytes, nals: seq<Bytes>)
    | Fragmented(nal: Bytes, pieces: seq<Bytes>)
    | Other(payload: Bytes)  // carries no NAL unit that the receiver takes

  function NalsOf(item: Item): seq<Bytes> {
    match item
    case Single(nal) => [nal]
    case Aggregate(_, nals) => nals
    case Fragmented(nal, _) => [nal]
    case Other(_) => []
  }

  function SentNals(items: seq<Item>): seq<Bytes> {
    if items == [] then [] else NalsOf(items[0]) + SentNals(items[1..])
  }

  /** One packet: a whole item, or the fragment of a NAL unit with the given index. */
  datatype Slot =
    | Whole(item: Item)
    | Fragment(nal: Bytes, pieces: seq<Bytes>, index: nat)

  function SlotsOf(item: Item): (r: seq<Slot>) {
    if item.Fragmented? then seq(|item.pieces|, j requires 0 <= j => Fragment(item.nal, item.pieces, j)) else [Whole(item)]
  }

  function Stream(items: seq<Item>): seq<Slot> {
    if items == [] then [] else SlotsOf(items[0]) + Stream(items[1..])
  }

  /** Fragments cover the NAL unit after its `h` header bytes, and there are at least two of them, so that no
      fragment is both first and last. */
  predicate Fragmentable(h: nat, item: Item) {
    item.Fragmented? ==> |item.nal| >= h && |item.pieces| >= 2 && Flatten(item.pieces) == item.nal[h..]
  }

  /** A fragment other than the first follows its predecessor directly, and every fragment stems from a sent item. */
  lemma {:induction false} StreamStructure(items: seq<Item>, p: nat)
    requires p < |Stream(items)|
    ensures var s := Stream(items)[p];
            match s
            case Whole(item) => item in items && !item.Fragmented?
            case Fragment(nal, pieces, j) =>
              && Fragmented(nal, pieces) in items
              && j < |pieces|
              && (j > 0 ==> p > 0 && Stream(items)[p - 1] == Fragment(nal, pieces, j - 1))
  {
    var first := SlotsOf(items[0]);
    if p >= |first| {
      StreamStructure(items[1..], p - |first|);
    }
  }

  lemma {:induction false} SentNalsComplete(items: seq<Item>, item: Item)
    requires item in items
    ensures forall nal :: nal in NalsOf(item) ==> nal in SentNals(items)
  {
    if items[0] != item {
      SentNalsComplete(items[1..], item);
    }
  }

  /** Sequence number of the packet at position `p` of a stream whose first number is `start`. */
  function SeqNo(start: nat, p: nat): nat { (start + p) % 0x1_0000 }

  /** The 16-bit difference read as a signed number (section 3 of RFC 1982). */
  function Gap(s1: nat, s2: nat): (d: int)
    ensures -0x8000 <= d < 0x8000 && (d - (s1 - s2)) % 0x1_0000 == 0
  {
    var d := (s1 - s2) % 0x1_0000;
    if d >= 0x8000 then d - 0x1_0000 else d
  }

  /** Positions less than half the sequence space apart are exactly recovered, across any wraparound. */
  lemma GapIsDistance(start: nat, p: nat, q: nat)
    requires -0x8000 < p - q < 0x8000
    ensures Gap(SeqNo(start, p), SeqNo(start, q)) == p - q
  {
    var a, b := start + p, start + q;
    assert a == a / 0x1_0000 * 0x1_0000 + SeqNo(start, p);
    assert b == b / 0x1_0000 * 0x1_0000 + SeqNo(start, q);
  }

  /** What the difference of two sequence numbers tells of their positions. */
  lemma GapMeans(start: nat, p: nat, q: nat)
    ensures Gap(SeqNo(start, p), SeqNo(start, q)) == 0 <==> (p - q) % 0x1_0000 == 0
    ensures Gap(SeqNo(start, p), SeqNo(start, q)) == 1 <==> (p - q) % 0x1_0000 == 1
  {
    var a, b := start + p, start + q;
    assert a == a / 0x1_0000 * 0x1_0000 + SeqNo(start, p);
    assert b == b / 0x1_0000 * 0x1_0000 + SeqNo(start, q);
    var d := (SeqNo(start, p) - SeqNo(start, q)) % 0x1_0000;
    assert (p - q) % 0x1_0000 == d;
  }
}
