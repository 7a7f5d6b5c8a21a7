/** The ring buffer that keeps running totals, so that all of its bytes are usable. */
module RingBuffers {
  import opened Sequences
  import opened Bytes
  import opened BoundedFifo

  datatype WriteResult = Written(n: nat) | Closed | TooLarge | Full(available: int)
  datatype ReadResult = Got(n: nat) | EndOfData | Blocks

  const DEFAULT_RATE := 6250000.0  // bytes per second, for 50 Mbps

  class RingBuffer {
    const data: array<byte>
    const size: nat
    var maxPacketSize: int
    var writePos: nat
    var readPos: nat
    var written: nat
    var read: nat
    var closed: bool
    ghost var history: seq<Op>  // the writes accepted and the reads served since the last reset

    ghost predicate Valid()
      reads this, data
    {
      Shaped() && Run(size, [], history).queue == Contents()
    }

    ghost predicate Shaped()
      reads this
    {
      && size == data.Length >= 1
      && readPos < size && read <= written <= read + size
      && writePos == Slot(size, readPos, written - read)
    }

    /** The unread bytes, oldest first. */
    ghost function Contents(): (q: Bytes)
      requires Shaped()
      reads this, data
    {
      Ring(data[..], readPos, written - read)
    }

    ghost function Accepted(): Bytes
      reads this`history
    {
      Run(size, [], history).accepted
    }

    ghost function Delivered(): Bytes
      reads this`history
    {
      Run(size, [], history).read
    }

    /** First in, first out over the whole life of the buffer. */
    lemma InOrder()
      requires Valid()
      ensures Accepted() == Delivered() + Contents()
    {
      NothingReordered(size, [], history);
      assert [] + Accepted() == Accepted();
    }

    constructor (size: nat)
      requires size >= 1
      ensures Valid() && Contents() == [] && this.size == size && maxPacketSize == 65536 && !closed && fresh(data)
      ensures Accepted() == Delivered() == []
    {
      data := new byte[size];
      this.size := size;
      maxPacketSize := 65536;
      writePos, readPos, written, read, closed, history := 0, 0, 0, 0, false, [];
    }

    method Write(src: Bytes) returns (r: WriteResult)
      requires Valid()
      modifies this`writePos, this`written, this`history, data
      ensures Accepted() == old(Accepted()) + (if r.Written? then src else []) && Delivered() == old(Delivered())
      ensures Valid() && written - old(written) == |Contents()| - |old(Contents())|
      ensures Contents() == if r.Written? then Put(size, old(Contents()), src) else old(Contents())
      ensures r == if closed then Closed
                   else if |src| > maxPacketSize || |src| > size then TooLarge
                   else if |old(Contents())| + |src| > size then Full(size - |old(Contents())|)
                   else Written(|src|)
    {
      if closed {
        return Closed;
      }
      var dataLen := |src|;
      if dataLen > maxPacketSize {
        return TooLarge;
      }
      if dataLen > size {
        return TooLarge;
      }
      var available := size - (written - read);
      if available < dataLen {
        return Full(available);
      }
      RunSnoc(size, [], history, Op.Write(src));
      CopyIn(src);
      written := written + dataLen;
      history := history + [Op.Write(src)];
      return Written(dataLen);
    }

    /** The copy loop of a write: it fills the free part of the ring and moves the write position. */
    method CopyIn(src: Bytes)
      requires Shaped() && written - read + |src| <= size
      modifies this`writePos, data
      ensures writePos == Slot(size, readPos, written - read + |src|)
      ensures Ring(data[..], readPos, written - read + |src|) == old(Contents()) + src
    {
      ghost var used := written - read;
      var done := 0;
      assert src[..0] == [];
      while done < |src|
        invariant done <= |src| && writePos == Slot(size, readPos, used + done)
        invariant Ring(data[..], readPos, used + done) == old(Contents()) + src[..done]
      {
        var n := Min(|src| - done, size - writePos);
        var chunk := src[done..done + n];
        RingExtend(data[..], readPos, used + done, chunk);
        Associative(old(Contents()), src[..done], chunk);
        assert src[..done + n] == src[..done] + chunk;
        CopyInto(data, writePos, chunk);
        writePos := Advanced(size, writePos, n);
        done := done + n;
      }
      assert src[..done] == src;
    }

    /** `Blocks` stands for waiting on the condition variable, which an open and empty buffer does. */
    method Read(dst: array<byte>) returns (r: ReadResult)
      requires Valid() && dst != data
      modifies this`readPos, this`read, this`history, dst
      ensures Delivered() == old(Delivered()) + Taken(old(Contents()), dst.Length) && Accepted() == old(Accepted())
      ensures Valid() && read - old(read) == |old(Contents())| - |Contents()|
      ensures r == if old(Contents()) != [] then Got(|Taken(old(Contents()), dst.Length)|) else if closed then EndOfData else Blocks
      ensures Contents() == Rest(old(Contents()), dst.Length)
      ensures dst[..] == Blit(old(dst[..]), 0, Taken(old(Contents()), dst.Length))
    {
      if written == read {
        return if closed then EndOfData else Blocks;
      }
      var available := written - read;
      var toRead := Min(dst.Length, available);
      RingPrefix(data[..], readPos, available, toRead);
      RingDrop(data[..], readPos, available, toRead);
      RunSnoc(size, [], history, Op.Read(dst.Length));
      readPos := CopyRing(data, readPos, dst, toRead);
      read := read + toRead;
      history := history + [Op.Read(dst.Length)];
      return Got(toRead);
    }

    /** `measured` is the average bitrate, zero while there is none; the samples are an estimate from the bytes shown. */
    method GetPreview(seconds: real, measured: real) returns (preview: Bytes, samples: nat)
      requires Shaped() && seconds >= 0.0
      ensures preview == Latest(Contents(), PreviewBytes(seconds, if measured > 0.0 then measured else DEFAULT_RATE))
      ensures samples == |preview| / SAMPLE_BYTES
    {
      var bytesPerSecond := measured;
      if bytesPerSecond <= 0.0 {
        bytesPerSecond := DEFAULT_RATE;
      }
      preview := ShowLast(PreviewBytes(seconds, bytesPerSecond));
      samples := |preview| / SAMPLE_BYTES;
    }

    method ShowLast(requested: nat) returns (preview: Bytes)
      requires Shaped()
      ensures preview == Latest(Contents(), requested)
    {
      var previewBytes := requested;
      var available := written - read;
      if previewBytes > available {
        previewBytes := available;
      }
      if previewBytes > size {
        // No more than `size` bytes are ever available.
        assert false;
      }
      var skip := (written - previewBytes) - read;
      var start := Advanced(size, readPos, skip);
      RingDrop(data[..], readPos, available, skip);
      var previewData := new byte[previewBytes];
      var _ := CopyRing(data, start, previewData, previewBytes);
      preview := previewData[..];
    }

    method Reset()
      requires Valid()
      modifies this`writePos, this`readPos, this`written, this`read, this`history
      ensures Valid() && Contents() == [] && written == read == 0
    {
      writePos, readPos, written, read, history := 0, 0, 0, 0, [];
    }

    /** An error if the buffer is closed already. */
    method Close() returns (ok: bool)
      requires Valid()
      modifies this`closed
      ensures Valid() && closed && ok == !old(closed) && Contents() == old(Contents())
    {
      ok := !closed;
      closed := true;
    }
  }
}
