/** The ring buffer sized from a bitrate. It keeps no count of its bytes, so one byte stays unused. */
module SizedBuffers {
  import opened Sequences
  import opened Bytes
  import opened BoundedFifo

  const MAX_BITRATE := 1_000_000_000
  const MIN_BITRATE := 1_000

  datatype WriteResult = Written(n: nat) | Closed | Full(available: int)
  datatype ReadResult = Got(n: nat) | EndOfData | Blocks

  /** The size of the buffer for a bitrate: thirty seconds of whole bytes, with the bitrate capped; none if it is too low. */
  function SizeFor(bitrate: int): (r: Option<nat>)
    ensures r.Some? <==> bitrate >= MIN_BITRATE
    ensures r.Some? ==> r.value % 30 == 0 && 8 * (r.value / 30) <= Min(bitrate, MAX_BITRATE) < 8 * (r.value / 30 + 1)
  {
    if bitrate < MIN_BITRATE then None
    else Some((if bitrate > MAX_BITRATE then MAX_BITRATE else bitrate) / 8 * 30)
  }

  /** The number of bytes between two positions of the ring. */
  function Used(size: nat, readPos: nat, writePos: nat): (n: nat)
    requires readPos < size && writePos < size
    ensures n < size && writePos == Slot(size, readPos, n)
  {
    if writePos >= readPos then writePos - readPos else size - readPos + writePos
  }

  class ProperSizedBuffer {
    const data: array<byte>
    const size: nat
    const bitrate: nat
    var writePos: nat
    var readPos: nat
    var closed: bool
    var totalWritten: nat
    var totalRead: nat
    ghost var history: seq<Op>  // the writes accepted and the reads served

    ghost predicate Valid()
      reads this, data
    {
      Shaped() && Run(size - 1, [], history).queue == Contents()
    }

    ghost predicate Shaped()
      reads this
    {
      && bitrate >= MIN_BITRATE && size == data.Length == bitrate / 8 * 30
      && readPos < size && writePos < size
      && totalWritten - totalRead == Used(size, readPos, writePos)
    }

    ghost function Contents(): (q: Bytes)
      requires Shaped()
      reads this, data
    {
      Ring(data[..], readPos, Used(size, readPos, writePos))
    }

    ghost function Accepted(): Bytes
      requires size >= 1
      reads this`history
    {
      Run(size - 1, [], history).accepted
    }

    ghost function Delivered(): Bytes
      requires size >= 1
      reads this`history
    {
      Run(size - 1, [], history).read
    }

    /** First in, first out over the whole life of the buffer. */
    lemma InOrder()
      requires Valid()
      ensures Accepted() == Delivered() + Contents()
    {
      NothingReordered(size - 1, [], history);
      assert [] + Accepted() == Accepted();
    }

    /** Called once the bitrate is found valid, with the size of `SizeFor`. */
    constructor (bitrate: int)
      requires SizeFor(bitrate).Some?
      ensures Valid() && Contents() == [] && size == SizeFor(bitrate).value && !closed && fresh(data)
      ensures Accepted() == Delivered() == []
    {
      var capped: nat := if bitrate > MAX_BITRATE then MAX_BITRATE else bitrate;
      this.bitrate := capped;
      var bytesPerSecond: nat := capped / 8;
      size := bytesPerSecond * 30;
      data := new byte[bytesPerSecond * 30];
      writePos, readPos, totalWritten, totalRead, closed, history := 0, 0, 0, 0, false, [];
    }

    method Write(src: Bytes) returns (r: WriteResult)
      requires Valid()
      modifies this`writePos, this`totalWritten, this`history, data
      ensures Accepted() == old(Accepted()) + (if r.Written? then src else []) && Delivered() == old(Delivered())
      ensures Valid() && totalWritten - old(totalWritten) == |Contents()| - |old(Contents())|
      ensures Contents() == if r.Written? then Put(size - 1, old(Contents()), src) else old(Contents())
      ensures r == if closed then Closed
                   else if |old(Contents())| + |src| > size - 1 then Full(size - 1 - |old(Contents())|)
                   else Written(|src|)
    {
      if closed {
        return Closed;
      }
      var dataLen := |src|;
      var available;
      if writePos >= readPos {
        available := size - writePos + readPos - 1;
      } else {
        available := readPos - writePos - 1;
      }
      if dataLen > available {
        return Full(available);
      }
      RunSnoc(size - 1, [], history, Op.Write(src));
      CopyIn(src);
      history := history + [Op.Write(src)];
      writePos := Advanced(size, writePos, dataLen);
      totalWritten := totalWritten + dataLen;
      return Written(dataLen);
    }

    /** One piece, or two when the write passes the end of the array. */
    method CopyIn(src: Bytes)
      requires Shaped() && Used(size, readPos, writePos) + |src| < size
      modifies data
      ensures Ring(data[..], readPos, Used(size, readPos, writePos) + |src|) == old(Contents()) + src
    {
      ghost var used := Used(size, readPos, writePos);
      if writePos + |src| <= size {
        RingExtend(data[..], readPos, used, src);
        CopyInto(data, writePos, src);
      } else {
        var firstPart := size - writePos;
        var head, tail := src[..firstPart], src[firstPart..];
        RingExtend(data[..], readPos, used, head);
        CopyInto(data, writePos, head);
        RingExtend(data[..], readPos, used + firstPart, tail);
        CopyInto(data, 0, tail);
        Associative(old(Contents()), head, tail);
        assert head + tail == src;
      }
    }

    /** `Blocks` stands for waiting on the condition variable, which an open and empty buffer does. */
    method Read(dst: array<byte>) returns (r: ReadResult)
      requires Valid() && dst != data
      modifies this`readPos, this`totalRead, this`history, dst
      ensures Delivered() == old(Delivered()) + Taken(old(Contents()), dst.Length) && Accepted() == old(Accepted())
      ensures Valid() && totalRead - old(totalRead) == |old(Contents())| - |Contents()|
      ensures r == if old(Contents()) != [] then Got(|Taken(old(Contents()), dst.Length)|) else if closed then EndOfData else Blocks
      ensures Contents() == Rest(old(Contents()), dst.Length)
      ensures dst[..] == Blit(old(dst[..]), 0, Taken(old(Contents()), dst.Length))
    {
      if writePos == readPos {
        assert Contents() == [];
        BlitNothing(dst[..]);
        return if closed then EndOfData else Blocks;
      }
      ghost var before := Run(size - 1, [], history);
      assert before.queue == Contents() && |Contents()| > 0;
      RunSnoc(size - 1, [], history, Op.Read(dst.Length));
      var n := Serve(dst);
      history := history + [Op.Read(dst.Length)];
      assert Run(size - 1, [], history) == Then(size - 1, before, Op.Read(dst.Length));
      return Got(n);
    }

    /** A read of a buffer that is not empty. */
    method Serve(dst: array<byte>) returns (toRead: nat)
      requires Shaped() && dst != data && writePos != readPos
      modifies this`readPos, this`totalRead, dst
      ensures Shaped() && totalRead - old(totalRead) == |old(Contents())| - |Contents()|
      ensures toRead == |Taken(old(Contents()), dst.Length)| && Contents() == Rest(old(Contents()), dst.Length)
      ensures dst[..] == Blit(old(dst[..]), 0, Taken(old(Contents()), dst.Length))
    {
      var available;
      if writePos > readPos {
        available := writePos - readPos;
      } else {
        available := size - readPos + writePos;
      }
      toRead := dst.Length;
      if toRead > available {
        toRead := available;
      }
      RingPrefix(data[..], readPos, available, toRead);
      RingDrop(data[..], readPos, available, toRead);
      CopyOut(dst, readPos, toRead);
      readPos := Advanced(size, readPos, toRead);
      totalRead := totalRead + toRead;
    }

    /** One piece, or two when the bytes pass the end of the array. */
    method CopyOut(dst: array<byte>, start: nat, n: nat)
      requires Shaped() && dst != data && start < size && n <= size && n <= dst.Length
      modifies dst
      ensures dst[..] == Blit(old(dst[..]), 0, Ring(data[..], start, n))
    {
      if start + n <= size {
        RingSlices(data[..], start, n);
        CopyInto(dst, 0, data[start..start + n]);
      } else {
        var firstPart := size - start;
        RingSlices(data[..], start, n);
        BlitAdvance(dst[..], data[start..], data[..n - firstPart]);
        CopyInto(dst, 0, data[start..]);
        CopyInto(dst, firstPart, data[..n - firstPart]);
      }
    }

    /** The last two seconds, or all that is unread. */
    method GetHotData() returns (hot: Bytes)
      requires Shaped()
      ensures hot == Latest(Contents(), 2 * (bitrate / 8))
    {
      var bytesPerSecond := bitrate / 8;
      var hotBytes := 2 * bytesPerSecond;
      var startPos := writePos - hotBytes;
      if startPos < 0 {
        startPos := startPos + size;
      }
      var totalData := totalWritten - totalRead;
      ghost var skip := totalData - Min(hotBytes, totalData);
      if totalData < hotBytes {
        hotBytes := totalData;
        startPos := readPos;
      }
      assert startPos == Slot(size, readPos, skip);
      RingDrop(data[..], readPos, totalData, skip);
      var result := new byte[hotBytes];
      CopyOut(result, startPos, hotBytes);
      hot := result[..];
    }

    /** A request for no bytes on a wrapped buffer shows everything; every other request shows what it asked for. */
    method GetPreview(seconds: real) returns (preview: Bytes, samples: nat)
      requires Shaped() && seconds >= 0.0
      ensures var requested := PreviewBytes(seconds, (bitrate / 8) as real);
              preview == Latest(Contents(), if requested == 0 && writePos < readPos then size else requested)
      ensures samples == |preview| / SAMPLE_BYTES
    {
      var bytesPerSecond := bitrate / 8;
      preview := ShowLast(PreviewBytes(seconds, bytesPerSecond as real));
      samples := |preview| / SAMPLE_BYTES;
    }

    method ShowLast(requested: nat) returns (preview: Bytes)
      requires Shaped()
      ensures preview == Latest(Contents(), if requested == 0 && writePos < readPos then size else requested)
    {
      var previewBytes := requested;
      var available;
      if writePos >= readPos {
        available := writePos - readPos;
      } else {
        available := size - readPos + writePos;
      }
      if previewBytes > available {
        previewBytes := available;
      }
      var previewStartPos := writePos - previewBytes;
      if previewStartPos < 0 {
        previewStartPos := previewStartPos + size;
      }
      if writePos >= readPos && previewStartPos < readPos {
        previewStartPos := readPos;
        previewBytes := writePos - readPos;
      } else if writePos < readPos && previewStartPos < readPos && previewStartPos >= writePos {
        previewStartPos := readPos;
        previewBytes := size - readPos + writePos;
      }
      RingDrop(data[..], readPos, available, available - previewBytes);
      preview := CopyBytewise(previewStartPos, previewBytes);
    }

    method CopyBytewise(start: nat, n: nat) returns (bytes: Bytes)
      requires Shaped() && start < size && n <= size
      ensures bytes == Ring(data[..], start, n)
    {
      var pos := start;
      bytes := [];
      while |bytes| < n
        invariant |bytes| <= n && pos == Slot(size, start, |bytes|) < size
        invariant bytes == Ring(data[..], start, n)[..|bytes|]
      {
        bytes := bytes + [data[pos]];
        pos := Advanced(size, pos, 1);
      }
    }
  }

  lemma BlitNothing(base: Bytes)
    ensures Blit(base, 0, []) == base
  {
  }

  /** Copying two pieces one after the other copies both. */
  lemma BlitAdvance(base: Bytes, first: Bytes, second: Bytes)
    requires |first| + |second| <= |base|
    ensures Blit(Blit(base, 0, first), |first|, second) == Blit(base, 0, first + second)
  {
    var once := Blit(base, 0, first);
    assert once[..|first|] == first;
    assert once[|first| + |second|..] == base[|first| + |second|..];
  }

  /** The bytes of a ring are one slice of the array or two. */
  lemma RingSlices(data: Bytes, start: nat, n: nat)
    requires start < |data| && n <= |data|
    ensures Ring(data, start, n) == if start + n <= |data| then data[start..start + n] else data[start..] + data[..start + n - |data|]
  {
  }

  /** Exactly when a preview shows what was asked for. */
  lemma PreviewIsExact(q: Bytes, size: nat, requested: nat, wrapped: bool)
    requires |q| < size && (wrapped ==> q != [])
    ensures Latest(q, if requested == 0 && wrapped then size else requested) == Latest(q, requested) <==> requested > 0 || !wrapped
  {
    if requested == 0 && wrapped {
      assert |Latest(q, size)| == |q| && |Latest(q, requested)| == 0;
    }
  }
}
