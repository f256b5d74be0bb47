/**
  The on-disk unit of the data file: a 1-byte flag field, the payload length as a
  big-endian unsigned 32-bit integer (`struct` format ">BI"), then the payload.
  A data file written by `append` is a sequence of such frames.
 */
module Frame {
  import opened Results
  import opened Bytes
  import opened Record

  const HEADER_SIZE: nat := 5

  /** Bit 0 of the flags marks a deleted frame. */
  const DELETED_FLAG: nat := 1

  datatype Header = Header(flags: byte, size: nat)

  datatype Frame = Frame(flags: byte, payload: seq<byte>)

  function EncodeHeader(h: Header): (s: seq<byte>)
    requires h.size < U32_LIMIT
    ensures |s| == HEADER_SIZE
  {
    [h.flags] + U32Bytes(h.size)
  }

  /** `struct.unpack(">BI", h)`: None (`struct.error`) unless there are exactly five bytes. */
  function DecodeHeader(h: seq<byte>): (r: Option<Header>)
    ensures r.Some? <==> |h| == HEADER_SIZE
    ensures r.Some? ==> r.value.size < U32_LIMIT && EncodeHeader(r.value) == h
  {
    if |h| != HEADER_SIZE then None
    else
      FromU32Bytes(h[1..5]);
      assert h == [h[0]] + h[1..5];
      Some(Header(h[0], FromBigEndian(h[1..5])))
  }

  /** Decoding an encoded header gives back its flags and size. */
  lemma HeaderRoundTrip(h: Header)
    requires h.size < U32_LIMIT
    ensures DecodeHeader(EncodeHeader(h)) == Some(h)
  {
    var s := EncodeHeader(h);
    assert s[1..5] == U32Bytes(h.size);
  }

  /** `flags & DELETED_FLAG == 0` for a byte. */
  predicate Live(flags: byte) {
    flags % 2 == 0
  }

  /** Every payload length fits the 4-byte size field. */
  ghost predicate WellSized(frames: seq<Frame>) {
    forall i :: 0 <= i < |frames| ==> |frames[i].payload| < U32_LIMIT
  }

  /** No payload is empty (a size of 0 in a header ends a scan). */
  ghost predicate NonEmpty(frames: seq<Frame>) {
    forall i :: 0 <= i < |frames| ==> 0 < |frames[i].payload|
  }

  function EncodeFrame(f: Frame): (s: seq<byte>)
    requires |f.payload| < U32_LIMIT
    ensures |s| == HEADER_SIZE + |f.payload|
  {
    EncodeHeader(Header(f.flags, |f.payload|)) + f.payload
  }

  /** The bytes of a data file holding `frames`, in order. */
  function Log(frames: seq<Frame>): (s: seq<byte>)
    requires WellSized(frames)
  {
    if frames == [] then [] else EncodeFrame(frames[0]) + Log(frames[1..])
  }

  /** `to_bytes` of a row is exactly one live frame holding the packed values. */
  lemma ToBytesIsFrame<V>(row: Row<V>, c: Codec<V>)
    requires ToBytes(row, c).Ok?
    ensures c.pack(row.values).Some?
    ensures ToBytes(row, c).value == EncodeFrame(Frame(0, c.pack(row.values).value))
  {
    var bytes := ToBytes(row, c).value;
    var payload := c.pack(row.values).value;
    FromU32Bytes(bytes[1..5]);
    assert bytes == [bytes[0]] + bytes[1..5] + bytes[5..];
  }

  /** What decoding one frame's payload yields: nothing for a deleted frame, None where `from_bytes` raises. */
  function Yielded<V>(flags: byte, payload: seq<byte>, c: Codec<V>, cls: RowClass): (r: Option<seq<Row<V>>>)
  {
    if !Live(flags) then Some([])
    else match FromBytes(cls, payload, c)
      case None => None
      case Some(row) => Some([row])
  }

  /** How a scan ended. */
  datatype Outcome =
    | Finished      // the loop ended: an empty header read, or a size of 0
    | StructError   // `struct.unpack` was given fewer than five header bytes
    | ValueError    // `read` was given a count below -1
    | Hangs         // the reassembly loop reads nothing and never ends
    | UnpackError   // `from_bytes` raised on a live payload
    | ClosedFile    // `seek` on a data file already closed raises ValueError

  /** The rows a scan yields, then how it ended. */
  datatype Scanned<V> = Scanned(rows: seq<Row<V>>, outcome: Outcome)

  /**
    The reference meaning of a data file made of `frames`: the decoded payloads of
    the live frames in file order, stopping at the first that cannot be decoded,
    and otherwise ending with `end`.
   */
  function DecodeLive<V>(frames: seq<Frame>, c: Codec<V>, cls: RowClass, end: Outcome): (r: Scanned<V>)
  {
    if frames == [] then Scanned([], end)
    else match Yielded(frames[0].flags, frames[0].payload, c, cls)
      case None => Scanned([], UnpackError)
      case Some(out) =>
        var more := DecodeLive(frames[1..], c, cls, end);
        Scanned(out + more.rows, more.outcome)
  }

  /** A row of `cls` for each of `written`, in order. */
  function RowsOf<V>(cls: RowClass, written: seq<seq<V>>): (rows: seq<Row<V>>)
    ensures |rows| == |written|
    ensures forall i :: 0 <= i < |written| ==> rows[i] == Row(cls, written[i])
  {
    if written == [] then [] else [Row(cls, written[0])] + RowsOf(cls, written[1..])
  }

  /**
    When every frame is live and its payload unpacks to `written[i]`, the decoded
    rows are exactly the written ones, in order.
   */
  lemma {:induction false} DecodeLiveUnpacked<V>(frames: seq<Frame>, written: seq<seq<V>>, c: Codec<V>, cls: RowClass, end: Outcome)
    requires |frames| == |written|
    requires forall i :: 0 <= i < |frames| ==>
      frames[i].flags == 0 && c.unpack(frames[i].payload) == Some(written[i])
    ensures DecodeLive(frames, c, cls, end) == Scanned(RowsOf(cls, written), end)
  {
    if frames != [] {
      DecodeLiveUnpacked(frames[1..], written[1..], c, cls, end);
    }
  }

  /** `frames` are the live frames holding the packed `written` values, one each. */
  ghost predicate PackedLog<V>(frames: seq<Frame>, written: seq<seq<V>>, c: Codec<V>) {
    && WellSized(frames)
    && |frames| == |written|
    && (forall i :: 0 <= i < |frames| ==> frames[i].flags == 0 && c.pack(written[i]) == Some(frames[i].payload))
  }

  /** Appending `to_bytes` of a row extends the packed frames by one and the file by exactly those bytes. */
  lemma PackedLogAppend<V>(frames: seq<Frame>, written: seq<seq<V>>, c: Codec<V>, row: Row<V>)
    requires PackedLog(frames, written, c) && ToBytes(row, c).Ok?
    ensures c.pack(row.values).Some?
    ensures PackedLog(frames + [Frame(0, c.pack(row.values).value)], written + [row.values], c)
    ensures Log(frames + [Frame(0, c.pack(row.values).value)]) == Log(frames) + ToBytes(row, c).value
  {
    ToBytesIsFrame(row, c);
    var f := Frame(0, c.pack(row.values).value);
    LogAppend(frames, f);
    var frames', written' := frames + [f], written + [row.values];
    forall i | 0 <= i < |frames'|
      ensures frames'[i].flags == 0 && c.pack(written'[i]) == Some(frames'[i].payload)
    {
      if i < |frames| {
        assert frames'[i] == frames[i] && written'[i] == written[i];
      }
    }
  }

  /** Appending a frame to the file appends its encoding to the bytes. */
  lemma {:induction false} LogAppend(frames: seq<Frame>, f: Frame)
    requires WellSized(frames) && |f.payload| < U32_LIMIT
    ensures WellSized(frames + [f])
    ensures Log(frames + [f]) == Log(frames) + EncodeFrame(f)
  {
    if frames == [] {
      assert [f][1..] == [];
    } else {
      assert (frames + [f])[1..] == frames[1..] + [f];
      LogAppend(frames[1..], f);
    }
  }
}
