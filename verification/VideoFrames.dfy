/** Video frames as the detector and the buffer of groups of pictures see them. */
module VideoFrames {
  import opened Sequences

  datatype Kind = I | P | B | IDR | CRA | BLA | NotPicture

  datatype Frame = Frame(id: nat, kind: Kind, keyFlag: bool, pts: int, size: nat)

  predicate IsKeyframe(f: Frame) {
    f.kind == I || f.kind == IDR || f.kind == CRA || f.kind == BLA || f.keyFlag
  }

  predicate IsP(f: Frame) { f.kind == P }
  predicate IsB(f: Frame) { f.kind == B }

  function BytesIn(frames: seq<Frame>): nat
    decreases |frames|
  {
    if frames == [] then 0 else frames[0].size + BytesIn(frames[1..])
  }

  lemma {:induction false} BytesAppend(a: seq<Frame>, b: seq<Frame>)
    ensures BytesIn(a + b) == BytesIn(a) + BytesIn(b)
    decreases |a|
  {
    if a == [] {
      assert a + b == b;
    } else {
      assert (a + b)[1..] == a[1..] + b;
      BytesAppend(a[1..], b);
    }
  }

  lemma BytesSnoc(a: seq<Frame>, f: Frame)
    ensures BytesIn(a + [f]) == BytesIn(a) + f.size
  {
    BytesAppend(a, [f]);
    assert [f][1..] == [];
  }
}
