/**
 The framing of the WAL export stream, arkhe-forge-platform/src/wal_export: a magic header, then
 records behind 8-byte big-endian length prefixes; and what a reader makes of arbitrary bytes.
 */
module WalFrames {
  import opened Bytes

  /** The bytes "ARKHEXP1". */
  const STREAM_HEADER_MAGIC: seq<byte> := [0x41, 0x52, 0x4B, 0x48, 0x45, 0x58, 0x50, 0x31]

  const MAX_RECORD_BYTES: nat := 0x100_0000

  type Payload = seq<byte>

  predicate Legal(p: Payload) {
    0 < |p| <= MAX_RECORD_BYTES
  }

  predicate AllLegal(ps: seq<Payload>) {
    forall k :: 0 <= k < |ps| ==> Legal(ps[k])
  }

  /** The length as 8 bytes, highest first. */
  function LengthPrefix(n: nat): (s: seq<byte>)
    requires n <= MAX_RECORD_BYTES
    ensures |s| == 8 && BeWord(s) == n
  {
    Pow256Values();
    BeBytes(n, 8)
  }

  lemma PrefixIsUnique(s: seq<byte>)
    requires |s| == 8 && BeWord(s) <= MAX_RECORD_BYTES
    ensures s == LengthPrefix(BeWord(s))
  {
    BeWordInjective(s, LengthPrefix(BeWord(s)));
  }

  function Frame(p: Payload): (f: seq<byte>)
    requires Legal(p)
    ensures |f| == 8 + |p|
  {
    LengthPrefix(|p|) + p
  }

  function Frames(ps: seq<Payload>): seq<byte>
    requires AllLegal(ps)
  {
    if ps == [] then [] else Frame(ps[0]) + Frames(ps[1..])
  }

  lemma {:induction false} FramesAppend(ps: seq<Payload>, p: Payload)
    requires AllLegal(ps) && Legal(p)
    ensures AllLegal(ps + [p]) && Frames(ps + [p]) == Frames(ps) + Frame(p)
    decreases ps
  {
    if ps == [] {
      assert ([] + [p])[1..] == [];
    } else {
      FramesAppend(ps[1..], p);
      assert (ps + [p])[1..] == ps[1..] + [p];
      ConcatAssoc(Frame(ps[0]), Frames(ps[1..]), Frame(p));
    }
  }

  // ------------------------------------------------------------------ reading

  datatype Reason = LengthExceedsMax(prefix: nat) | LengthZero | Truncated | HeaderMissing

  /** What the next call of the reader finds at the front of the unread bytes. */
  datatype Found = EndOfStream | Record(payload: Payload) | Broken(reason: Reason)

  function Peek(input: seq<byte>): (f: Found)
    ensures f.Record? ==> Legal(f.payload) && 8 + |f.payload| <= |input|
  {
    if input == [] then EndOfStream
    else if |input| < 8 then Broken(Truncated)
    else
      var len := BeWord(input[..8]);
      if len == 0 then Broken(LengthZero)
      else if len > MAX_RECORD_BYTES then Broken(LengthExceedsMax(len))
      else if |input| - 8 < len then Broken(Truncated)
      else Record(input[8..8 + len])
  }

  /** The length announced by the first eight bytes. */
  function Announced(input: seq<byte>): nat
    requires |input| >= 8
  {
    BeWord(input[..8])
  }

  /** What stops a reader or lets it go on: nothing left, a prefix cut short, a length that is zero or beyond the
      ceiling, a payload cut short; in all other cases the announced number of bytes is the record. */
  lemma PeekTells(input: seq<byte>)
    ensures Peek(input) == EndOfStream <==> input == []
    ensures Peek(input) == Broken(Truncated) <==>
              || 0 < |input| < 8
              || (|input| >= 8 && 0 < Announced(input) <= 0x100_0000 && |input| < 8 + Announced(input))
    ensures Peek(input) == Broken(LengthZero) <==> |input| >= 8 && Announced(input) == 0
    ensures forall n: nat :: Peek(input) == Broken(LengthExceedsMax(n)) <==>
              |input| >= 8 && n == Announced(input) > 0x100_0000
    ensures forall p :: Peek(input) == Record(p) <==>
              |input| >= 8 && |p| == Announced(input) && 0 < |p| <= 0x100_0000 && 8 + |p| <= |input|
              && p == input[8..8 + |p|]
  {}

  /** Reads records until the stream ends or breaks. */
  function ReadAll(input: seq<byte>): (r: (seq<Payload>, Found))
    ensures AllLegal(r.0) && !r.1.Record?
    decreases |input|
  {
    var f := Peek(input);
    if f.Record? then
      var (rest, end) := ReadAll(input[8 + |f.payload|..]);
      ([f.payload] + rest, end)
    else ([], f)
  }

  /** What `open_v1` followed by reading to the end makes of a byte string. */
  datatype Outcome =
    | HeaderRejected(reason: Reason)
    | UnsupportedStreamVersion(magic: seq<byte>)
    | Opened(records: seq<Payload>, end: Found)

  function ReadStream(bytes: seq<byte>): Outcome {
    if |bytes| < 8 then HeaderRejected(HeaderMissing)
    else if bytes[..8] != STREAM_HEADER_MAGIC then UnsupportedStreamVersion(bytes[..8])
    else
      var (records, end) := ReadAll(bytes[8..]);
      Opened(records, end)
  }

  /** A stream is opened exactly when it begins with the eight bytes of the magic. */
  lemma OpenedIff(bytes: seq<byte>)
    ensures ReadStream(bytes).Opened? <==> STREAM_HEADER_MAGIC <= bytes
    ensures ReadStream(bytes) == HeaderRejected(HeaderMissing) <==> |bytes| < 8
    ensures |bytes| >= 8 && bytes[..8] != STREAM_HEADER_MAGIC ==>
              ReadStream(bytes) == UnsupportedStreamVersion(bytes[..8])
  {}

  // ------------------------------------------------------------------ round trips

  lemma PeekFrame(p: Payload, rest: seq<byte>)
    requires Legal(p)
    ensures Peek(Frame(p) + rest) == Record(p)
    ensures (Frame(p) + rest)[8 + |p|..] == rest
  {
    var input := Frame(p) + rest;
    assert input[..8] == LengthPrefix(|p|);
    assert input[8..8 + |p|] == p;
  }

  /** Reading undoes framing, and stops at a clean end. */
  lemma {:induction false} ReadUndoesFrames(ps: seq<Payload>)
    requires AllLegal(ps)
    ensures ReadAll(Frames(ps)) == (ps, EndOfStream)
    decreases ps
  {
    if ps != [] {
      PeekFrame(ps[0], Frames(ps[1..]));
      ReadUndoesFrames(ps[1..]);
      assert ps == [ps[0]] + ps[1..];
    }
  }

  lemma PeekedIsFrame(input: seq<byte>, p: Payload)
    requires Peek(input) == Record(p)
    ensures input == Frame(p) + input[8 + |p|..]
  {
    PrefixIsUnique(input[..8]);
    assert input == input[..8] + input[8..8 + |p|] + input[8 + |p|..];
  }

  /** Whatever was read, its frames are the front of the input; a clean end means they are all of it. */
  lemma {:induction false} FramesUndoRead(input: seq<byte>)
    ensures var (ps, end) := ReadAll(input);
            && Frames(ps) <= input
            && Peek(input[|Frames(ps)|..]) == end
            && (end == EndOfStream ==> input == Frames(ps))
    decreases |input|
  {
    var f := Peek(input);
    if f.Record? {
      var rest := input[8 + |f.payload|..];
      PeekedIsFrame(input, f.payload);
      FramesUndoRead(rest);
      var (ps, end) := ReadAll(rest);
      assert ([f.payload] + ps)[1..] == ps;
      assert Frames([f.payload] + ps) == Frame(f.payload) + Frames(ps);
      assert input[|Frames([f.payload] + ps)|..] == rest[|Frames(ps)|..];
    } else {
      assert input[0..] == input;
    }
  }

  /** The reader accepts a byte string to its end exactly when it is a header and frames. */
  lemma StreamsAreHeaderAndFrames(bytes: seq<byte>, ps: seq<Payload>)
    ensures ReadStream(bytes) == Opened(ps, EndOfStream)
       <==> AllLegal(ps) && bytes == STREAM_HEADER_MAGIC + Frames(ps)
  {
    if ReadStream(bytes) == Opened(ps, EndOfStream) {
      FramesUndoRead(bytes[8..]);
      assert bytes == bytes[..8] + bytes[8..];
    }
    if AllLegal(ps) && bytes == STREAM_HEADER_MAGIC + Frames(ps) {
      ReadUndoesFrames(ps);
      assert bytes[..8] == STREAM_HEADER_MAGIC && bytes[8..] == Frames(ps);
    }
  }

  /** Inside its first frame a cut stream is empty or truncated. */
  lemma CutFirstFrame(p: Payload, rest: seq<byte>, cut: nat)
    requires Legal(p) && cut < 8 + |p|
    ensures Peek((Frame(p) + rest)[..cut]) == if cut == 0 then EndOfStream else Broken(Truncated)
  {
    if cut >= 8 {
      assert (Frame(p) + rest)[..cut][..8] == LengthPrefix(|p|);
    }
  }

  /** Past its first frame a cut stream is that frame and a cut of the rest. */
  lemma CutPastFrame(p: Payload, tail: seq<byte>, cut: nat)
    requires Legal(p) && 8 + |p| <= cut <= 8 + |p| + |tail|
    ensures var (rs, end) := ReadAll(tail[..cut - 8 - |p|]);
            ReadAll((Frame(p) + tail)[..cut]) == ([p] + rs, end)
  {
    var rest := tail[..cut - 8 - |p|];
    assert (Frame(p) + tail)[..cut] == Frame(p) + rest;
    PeekFrame(p, rest);
  }

  /** What reading a stream cut short gives: a prefix of its records, and an end that tells where the cut is. */
  ghost predicate ReadsAsCut(ps: seq<Payload>, cut: nat, rs: seq<Payload>, end: Found)
    requires AllLegal(ps) && AllLegal(rs)
  {
    && rs <= ps
    && |Frames(rs)| <= cut
    && end == (if cut == |Frames(rs)| then EndOfStream else Broken(Truncated))
    && (cut < |Frames(ps)| ==> |rs| < |ps| && cut < |Frames(rs)| + 8 + |ps[|rs|]|)
  }

  lemma OneMoreFrame(ps: seq<Payload>, cut: nat, rs: seq<Payload>, end: Found)
    requires AllLegal(ps) && ps != [] && AllLegal(rs) && 8 + |ps[0]| <= cut
    requires ReadsAsCut(ps[1..], cut - 8 - |ps[0]|, rs, end)
    ensures AllLegal([ps[0]] + rs) && ReadsAsCut(ps, cut, [ps[0]] + rs, end)
  {
    var p := ps[0];
    assert ([p] + rs)[1..] == rs;
    assert Frames([p] + rs) == Frame(p) + Frames(rs);
    assert [p] + rs <= [p] + ps[1..] == ps;
  }

  lemma {:induction false} CutBytes(ps: seq<Payload>, bytes: seq<byte>, cut: nat)
    requires AllLegal(ps) && bytes == Frames(ps) && cut <= |bytes|
    ensures ReadsAsCut(ps, cut, ReadAll(bytes[..cut]).0, ReadAll(bytes[..cut]).1)
    decreases ps
  {
    if ps != [] {
      var p, tail := ps[0], Frames(ps[1..]);
      if cut < 8 + |p| {
        CutFirstFrame(p, tail, cut);
      } else {
        CutPastFrame(p, tail, cut);
        CutBytes(ps[1..], tail, cut - 8 - |p|);
        var (rs, end) := ReadAll(tail[..cut - 8 - |p|]);
        OneMoreFrame(ps, cut, rs, end);
      }
    }
  }

  /**
   A stream cut short: the records returned are a prefix of the original ones, and the end is clean
   exactly when the cut is on a frame boundary; anywhere else it reads as truncated.
   */
  lemma CutStream(ps: seq<Payload>, cut: nat)
    requires AllLegal(ps) && cut <= |Frames(ps)|
    ensures var (rs, end) := ReadAll(Frames(ps)[..cut]);
            && rs <= ps
            && |Frames(rs)| <= cut
            && end == (if cut == |Frames(rs)| then EndOfStream else Broken(Truncated))
            && (cut < |Frames(ps)| ==> |rs| < |ps| && cut < |Frames(rs)| + 8 + |ps[|rs|]|)
  {
    CutBytes(ps, Frames(ps), cut);
  }
}
