/** The bounded byte queue that both ring buffers implement, and the arithmetic of positions in a ring. */
module BoundedFifo {
  import opened Sequences
  import opened Bytes

  /** A write appends all its bytes or changes nothing. */
  function Put(capacity: nat, q: Bytes, data: Bytes): Bytes {
    if |q| + |data| <= capacity then q + data else q
  }

  /** A read takes the longest available prefix of at most `n` bytes. */
  function Taken(q: Bytes, n: nat): Bytes { q[..Min(n, |q|)] }
  function Rest(q: Bytes, n: nat): Bytes { q[Min(n, |q|)..] }

  /** A preview shows the last `n` unread bytes, or all of them. */
  function Latest(q: Bytes, n: nat): Bytes { q[|q| - Min(n, |q|)..] }

  const SAMPLE_BYTES := 4096

  /** The bytes that a preview of some seconds asks for at a rate in bytes per second. */
  function PreviewBytes(seconds: real, bytesPerSecond: real): nat
    requires seconds >= 0.0 && bytesPerSecond >= 0.0
  {
    var product := seconds * bytesPerSecond;
    assert product >= 0.0;
    product.Floor
  }

  datatype Op = Write(data: Bytes) | Read(n: nat)

  /** The queue after a run, the bytes accepted on the way and the bytes read. */
  datatype Outcome = Outcome(queue: Bytes, accepted: Bytes, read: Bytes)

  function Run(capacity: nat, q: Bytes, ops: seq<Op>): Outcome
    decreases |ops|
  {
    if ops == [] then Outcome(q, [], [])
    else
      match ops[0]
      case Write(data) =>
        var o := Run(capacity, Put(capacity, q, data), ops[1..]);
        if |q| + |data| <= capacity then o.(accepted := data + o.accepted) else o
      case Read(n) =>
        var o := Run(capacity, Rest(q, n), ops[1..]);
        o.(read := Taken(q, n) + o.read)
  }

  /** First in, first out over any run: what was there and what was accepted is what was read and what is left, in order;
      and the capacity is never exceeded. */
  lemma {:induction false} NothingReordered(capacity: nat, q: Bytes, ops: seq<Op>)
    requires |q| <= capacity
    ensures var o := Run(capacity, q, ops);
            q + o.accepted == o.read + o.queue && |o.queue| <= capacity
    decreases |ops|
  {
    if ops != [] {
      match ops[0] {
        case Write(data) =>
          NothingReordered(capacity, Put(capacity, q, data), ops[1..]);
          var o := Run(capacity, Put(capacity, q, data), ops[1..]);
          Associative(q, data, o.accepted);
        case Read(n) =>
          NothingReordered(capacity, Rest(q, n), ops[1..]);
          var o := Run(capacity, Rest(q, n), ops[1..]);
          assert q == Taken(q, n) + Rest(q, n);
          Associative(Taken(q, n), Rest(q, n), o.accepted);
          Associative(Taken(q, n), o.read, o.queue);
      }
    }
  }

  /** One operation more. */
  function Then(capacity: nat, o: Outcome, op: Op): Outcome {
    match op
    case Write(data) => if |o.queue| + |data| <= capacity then Outcome(o.queue + data, o.accepted + data, o.read) else o
    case Read(n) => Outcome(Rest(o.queue, n), o.accepted, o.read + Taken(o.queue, n))
  }

  lemma {:induction false} RunSnoc(capacity: nat, q: Bytes, ops: seq<Op>, op: Op)
    ensures Run(capacity, q, ops + [op]) == Then(capacity, Run(capacity, q, ops), op)
    decreases |ops|
  {
    if ops == [] {
      assert [] + [op] == [op] && [op][1..] == [];
      RunOne(capacity, q, op);
    } else {
      assert (ops + [op])[1..] == ops[1..] + [op];
      match ops[0] {
        case Write(data) =>
          RunSnoc(capacity, Put(capacity, q, data), ops[1..], op);
          ThenAfter(capacity, data, [], Run(capacity, Put(capacity, q, data), ops[1..]), op);
        case Read(n) =>
          RunSnoc(capacity, Rest(q, n), ops[1..], op);
          ThenAfter(capacity, [], Taken(q, n), Run(capacity, Rest(q, n), ops[1..]), op);
      }
    }
  }

  lemma RunOne(capacity: nat, q: Bytes, op: Op)
    ensures Run(capacity, q, [op]) == Then(capacity, Outcome(q, [], []), op)
  {
    assert [op][1..] == [];
    if op.Write? {
      assert op.data + [] == op.data == [] + op.data;
    } else {
      assert Taken(q, op.n) + [] == Taken(q, op.n) == [] + Taken(q, op.n);
    }
  }

  /** What was accepted and read before stays in front. */
  lemma ThenAfter(capacity: nat, accepted: Bytes, read: Bytes, o: Outcome, op: Op)
    ensures var more := Then(capacity, o, op);
            Then(capacity, Outcome(o.queue, accepted + o.accepted, read + o.read), op)
            == Outcome(more.queue, accepted + more.accepted, read + more.read)
    ensures [] + o.accepted == o.accepted && [] + o.read == o.read
    ensures var more := Then(capacity, o, op); [] + more.accepted == more.accepted && [] + more.read == more.read
  {
    match op {
      case Write(data) => Associative(accepted, o.accepted, data);
      case Read(n) => Associative(read, o.read, Taken(o.queue, n));
    }
  }

  /** The position `k` places after `start` in a ring. */
  function Slot(size: nat, start: nat, k: nat): nat {
    if start + k < size then start + k else start + k - size
  }

  /** Stepping a position with the remainder operator, as both buffers do. */
  lemma WrapIsSlot(size: nat, pos: nat, n: nat)
    requires pos < size && n <= size
    ensures (pos + n) % size == Slot(size, pos, n)
  {
    if pos + n >= size {
      var r := pos + n - size;
      assert (pos + n) % size == r % size by {
        assert pos + n == size * 1 + r;
        ModuloStep(size, r);
      }
      ModuloSmall(size, r);
    } else {
      ModuloSmall(size, pos + n);
    }
  }

  /** A position moved on by `n`, wrapping at the end of the array. */
  method Advanced(size: nat, pos: nat, n: nat) returns (next: nat)
    requires pos < size && n <= size
    ensures next == Slot(size, pos, n) < size
  {
    WrapIsSlot(size, pos, n);
    next := (pos + n) % size;
  }

  lemma ModuloSmall(size: nat, r: nat)
    requires r < size
    ensures r % size == r
  {
  }

  lemma ModuloStep(size: nat, r: nat)
    requires 0 < size && r < size
    ensures (size + r) % size == r % size
  {
    assert (size + r) / size == 1;
  }

  /** The `n` bytes that follow `start` in the ring. */
  ghost function Ring(data: Bytes, start: nat, n: nat): (r: Bytes)
    requires start < |data| && n <= |data|
    ensures |r| == n
  {
    seq(n, i requires 0 <= i < n => data[Slot(|data|, start, i)])
  }

  /** Up to the end of the array the ring is a plain slice. */
  lemma RingChunk(data: Bytes, start: nat, n: nat, k: nat, m: nat)
    requires start < |data| && k + m <= n <= |data|
    requires Slot(|data|, start, k) < |data| && Slot(|data|, start, k) + m <= |data|
    ensures var p := Slot(|data|, start, k); forall j :: k <= j < k + m ==> Ring(data, start, n)[j] == data[p + (j - k)]
  {
    var p := Slot(|data|, start, k);
    forall j | k <= j < k + m ensures Ring(data, start, n)[j] == data[p + (j - k)] {
      assert Slot(|data|, start, j) == p + (j - k);
    }
  }

  /** Dropping from the front of the ring moves its start. */
  lemma RingDrop(data: Bytes, start: nat, n: nat, k: nat)
    requires start < |data| && k <= n <= |data| && Slot(|data|, start, k) < |data|
    ensures Ring(data, start, n)[k..] == Ring(data, Slot(|data|, start, k), n - k)
  {
  }

  lemma RingPrefix(data: Bytes, start: nat, n: nat, k: nat)
    requires start < |data| && k <= n <= |data|
    ensures Ring(data, start, n)[..k] == Ring(data, start, k)
  {
  }

  /** `chunk` written over `base` from position `at` on. */
  function Blit(base: Bytes, at: nat, chunk: Bytes): (r: Bytes)
    requires at + |chunk| <= |base|
    ensures |r| == |base|
  {
    base[..at] + chunk + base[at + |chunk|..]
  }

  /** Writing at the end of the ring, up to the end of the array, extends the ring by what was written. */
  lemma RingExtend(before: Bytes, start: nat, n: nat, src: Bytes)
    requires start < |before| && n + |src| <= |before|
    requires Slot(|before|, start, n) + |src| <= |before|
    ensures Ring(Blit(before, Slot(|before|, start, n), src), start, n + |src|) == Ring(before, start, n) + src
  {
    var size, p := |before|, Slot(|before|, start, n);
    var after := Blit(before, p, src);
    forall i | 0 <= i < n + |src| ensures Ring(after, start, n + |src|)[i] == (Ring(before, start, n) + src)[i] {
      if i >= n {
        assert Slot(size, start, i) == p + (i - n);
      }
    }
  }

  /** The built-in copy of a slice into a slice of the same length. */
  method CopyInto(dst: array<byte>, at: nat, chunk: Bytes)
    requires at + |chunk| <= dst.Length
    modifies dst
    ensures dst[..] == Blit(old(dst[..]), at, chunk)
  {
    forall i | at <= i < at + |chunk| {
      dst[i] := chunk[i - at];
    }
  }

  /** The copy loop that reads and previews share: `n` bytes of the ring, in pieces that end at the end of the array. */
  method CopyRing(src: array<byte>, start: nat, dst: array<byte>, n: nat) returns (pos: nat)
    requires src != dst && start < src.Length && n <= src.Length && n <= dst.Length
    modifies dst
    ensures pos == Slot(src.Length, start, n) < src.Length
    ensures dst[..] == Blit(old(dst[..]), 0, Ring(src[..], start, n))
  {
    var done := 0;
    pos := start;
    ghost var q, base := Ring(src[..], start, n), dst[..];
    while done < n
      invariant done <= n && pos == Slot(src.Length, start, done) < src.Length
      invariant forall i :: 0 <= i < done ==> dst[i] == q[i]
      invariant forall i :: done <= i < dst.Length ==> dst[i] == base[i]
    {
      var m := Min(n - done, src.Length - pos);
      RingChunk(src[..], start, n, done, m);
      forall i | done <= i < done + m {
        dst[i] := src[pos + (i - done)];
      }
      pos := Advanced(src.Length, pos, m);
      done := done + m;
    }
  }
}
