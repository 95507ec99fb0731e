/**
 The sink and the reader as objects, and the export loop of
 arkhe-forge-platform/src/dispatcher.rs, each proved against its function on values.
 */
module WalStreams {
  import opened Bytes
  import opened Types
  import opened WalFrames
  import opened WalSinkSpec

  /** The operator's writer: every flush attempt has an arbitrary outcome. */
  class Writer {
    const outcomes: nat -> WriterOutcome
    var data: seq<byte>
    var flushes: nat

    constructor (outcomes: nat -> WriterOutcome)
      ensures this.outcomes == outcomes && data == [] && flushes == 0
    {
      this.outcomes := outcomes;
      data, flushes := [], 0;
    }

    method WriteAll(bytes: seq<byte>) returns (ok: bool)
      modifies this
      ensures ok == (outcomes(old(flushes)) != WriteFails)
      ensures data == (if ok then old(data) + bytes else old(data))
      ensures flushes == if ok then old(flushes) else old(flushes) + 1
    {
      ok := outcomes(flushes) != WriteFails;
      if ok {
        data := data + bytes;
      } else {
        flushes := flushes + 1;
      }
    }

    method Sync() returns (ok: bool)
      modifies this`flushes
      ensures ok == (outcomes(old(flushes)) == Done)
      ensures flushes == old(flushes) + 1
    {
      ok := outcomes(flushes) == Done;
      flushes := flushes + 1;
    }
  }

  class BufferedWalSink {
    const writer: Writer
    const capacity: Capacity
    var buffer: seq<byte>
    var headerEmitted: bool
    var lastSeq: Option<u64>

    ghost function Value(): Sink
      reads this, writer
    {
      Sink(writer.data, writer.outcomes, writer.flushes, buffer, capacity, headerEmitted, lastSeq)
    }

    constructor WithCapacity(writer: Writer, capacity: Capacity)
      ensures this.writer == writer && this.capacity == capacity
      ensures buffer == [] && !headerEmitted && lastSeq == None
    {
      this.writer, this.capacity := writer, capacity;
      buffer, headerEmitted, lastSeq := [], false, None;
    }

    /** Pins the magic at the start of the stream, once. */
    method PinHeader()
      modifies this`buffer, this`headerEmitted
      ensures Value() == EnsureHeader(old(Value()))
    {
      if !headerEmitted {
        buffer := buffer + STREAM_HEADER_MAGIC;
        headerEmitted := true;
      }
    }

    method AppendRecord(seqNo: u64, p: Payload) returns (r: Result<(), Error>)
      modifies this
      ensures (Value(), r) == Append(old(Value()), seqNo, p)
    {
      if |p| == 0 {
        return Err(InvalidFraming(LengthZero));
      }
      if |p| > MAX_RECORD_BYTES {
        return Err(InvalidFraming(LengthExceedsMax(|p|)));
      }
      if lastSeq.Some? {
        var prev := lastSeq.value;
        if prev == U64_MAX {
          return Err(SeqExhausted(prev));
        }
        var expected := prev + 1;
        if seqNo != expected {
          return Err(AppendOnlyViolation(expected, seqNo, Some(prev)));
        }
      }
      PinHeader();
      var frameSize := 8 + |p|;
      if SaturatingUsize(|buffer|, frameSize) > capacity {
        return Err(BufferOverflow(capacity, frameSize, |buffer|));
      }
      ghost var pinned := buffer;
      buffer := buffer + LengthPrefix(|p|);
      buffer := buffer + p;
      ConcatAssoc(pinned, LengthPrefix(|p|), p);
      lastSeq := Some(seqNo);
      r := Ok(());
    }

    method FlushBuffer() returns (r: Result<(), Error>)
      modifies this`buffer, this`headerEmitted, writer
      ensures (Value(), r) == Flush(old(Value()))
    {
      PinHeader();
      if buffer == [] {
        return Ok(());
      }
      var ok := writer.WriteAll(buffer);
      if !ok {
        return Err(Io);
      }
      ok := writer.Sync();
      if !ok {
        return Err(Io);
      }
      buffer := [];
      r := Ok(());
    }
  }

  /** `wal_to_sink`: append every record, drain and retry once on overflow, and flush at the end. */
  method WalToSink(records: seq<(u64, Payload)>, sink: BufferedWalSink) returns (r: Result<(), Error>)
    modifies sink, sink.writer
    ensures (sink.Value(), r) == Export(old(sink.Value()), records)
  {
    for k := 0 to |records|
      invariant Export(sink.Value(), records[k..]) == Export(old(sink.Value()), records)
    {
      var (seqNo, p) := records[k];
      assert records[k..][0] == records[k] && records[k..][1..] == records[k + 1..];
      var a := sink.AppendRecord(seqNo, p);
      if a.Ok? {
        continue;
      }
      if !a.error.BufferOverflow? {
        return a;
      }
      var f := sink.FlushBuffer();
      if f.Err? {
        return f;
      }
      a := sink.AppendRecord(seqNo, p);
      if a.Err? {
        return a;
      }
    }
    r := sink.FlushBuffer();
  }

  // ------------------------------------------------------------------ the reader

  /** The streaming reader over a byte source; `source` holds the unread bytes. */
  class StreamingWalReader {
    ghost const stream: seq<byte>
    var source: seq<byte>
    var buffer: seq<byte>
    var cumulativePos: nat

    /** Between records the position counts exactly the bytes read. */
    ghost predicate Valid()
      reads this
    {
      cumulativePos <= |stream| && source == stream[cumulativePos..]
    }

    constructor (bytes: seq<byte>)
      requires |bytes| >= 8
      ensures Valid() && stream == bytes && cumulativePos == 8
    {
      stream := bytes;
      source, buffer, cumulativePos := bytes[8..], [], 8;
    }

    /** `open_v1`: eight header bytes, recognised or rejected. */
    static method OpenV1(bytes: seq<byte>) returns (r: Result<StreamingWalReader, Outcome>)
      ensures r.Err? ==> ReadStream(bytes) == r.error
      ensures r.Ok? ==> fresh(r.value) && r.value.Valid() && r.value.stream == bytes && r.value.cumulativePos == 8
      ensures r.Ok? ==> var (records, end) := ReadAll(r.value.source); ReadStream(bytes) == Opened(records, end)
    {
      if |bytes| < 8 {
        return Err(HeaderRejected(HeaderMissing));
      }
      if bytes[..8] != STREAM_HEADER_MAGIC {
        return Err(UnsupportedStreamVersion(bytes[..8]));
      }
      var reader := new StreamingWalReader(bytes);
      r := Ok(reader);
    }

    /**
     `next_record`: probe one byte, complete the length prefix, check it, then read the payload.
     After an error the source is not on a frame boundary and the reader is not used again.
     */
    method NextRecord() returns (r: Result<Option<Payload>, Reason>)
      requires Valid()
      modifies this
      ensures match Peek(old(source))
              case EndOfStream =>
                r == Ok(None) && Valid() && source == [] && cumulativePos == old(cumulativePos) == |stream|
              case Record(p) =>
                && r == Ok(Some(p)) && Valid() && buffer == p
                && source == old(source)[8 + |p|..] && cumulativePos == old(cumulativePos) + 8 + |p|
              case Broken(reason) =>
                r == Err(reason) && cumulativePos == old(cumulativePos) + if |old(source)| < 8 then 0 else 8
    {
      if source == [] {
        return Ok(None);
      }
      if |source| < 8 {
        source := [];
        return Err(Truncated);
      }
      var len := BeWord(source[..8]);
      source := source[8..];
      cumulativePos := cumulativePos + 8;
      if len == 0 {
        return Err(LengthZero);
      }
      if len > MAX_RECORD_BYTES {
        return Err(LengthExceedsMax(len));
      }
      if |source| < len {
        source := [];
        return Err(Truncated);
      }
      assert source[..len] == old(source)[8..8 + len];
      assert source[len..] == old(source)[8 + len..];
      assert old(source)[8 + len..] == stream[old(cumulativePos) + 8 + len..];
      buffer := source[..len];
      source := source[len..];
      cumulativePos := cumulativePos + len;
      r := Ok(Some(buffer));
    }

    /** Calls `next_record` until the stream ends or breaks; after a clean end the position is the whole stream. */
    method ReadToEnd() returns (ps: seq<Payload>, end: Found)
      requires Valid()
      modifies this
      ensures (ps, end) == ReadAll(old(source))
      ensures end == EndOfStream ==> Valid() && source == [] && cumulativePos == |stream|
    {
      ps := [];
      ghost var all := ReadAll(source);
      assert [] + all.0 == all.0;
      while true
        invariant Valid()
        invariant all == (ps + ReadAll(source).0, ReadAll(source).1)
        decreases |source|
      {
        ghost var rest := ReadAll(source).0;
        var r := NextRecord();
        if r.Err? {
          assert ps + [] == ps;
          return ps, Broken(r.error);
        }
        if r.value.None? {
          assert ps + [] == ps;
          return ps, EndOfStream;
        }
        assert ps + rest == (ps + [r.value.value]) + rest[1..];
        ps := ps + [r.value.value];
      }
    }
  }
}
