/**
  The forward scan of a data file (`HadroDB.scan`): read a 5-byte header, read
  the payload, reassembling it across block boundaries, yield the decoded payload
  of every live frame, and stop on an empty header read or a size of 0.

  The `io.BufferedReader` is modelled by its `read(n)` contract over the unread
  bytes of the file; the block size is a parameter. `Scan` is the reference
  meaning of the loop, `ScanLog` is the loop itself, proved to compute it.
 */
module LogScan {
  import opened Results
  import opened Bytes
  import opened Record
  import opened Frame

  /**
    `AsWritten` is the scan of the source. `Corrected` reads no more than is left
    of the current block (never a negative count), ends cleanly on an empty file,
    and ends cleanly where the file stops before a payload does.
   */
  datatype Variant = AsWritten | Corrected

  /**
    `buffer.read(n)` when `rest` is what is left to read, for `n >= -1`: exactly
    `min(n, |rest|)` bytes for `n >= 0`, and everything when `n` is -1. (A count
    below -1 raises ValueError.)
   */
  function ReadCount(rest: seq<byte>, n: int): (r: seq<byte>)
    requires n >= -1
    ensures |r| <= |rest| && r == rest[..|r|]
    ensures n == -1 ==> r == rest
    ensures n >= 0 ==> |r| == Min(n, |rest|)
  {
    if n == -1 then rest else rest[..Min(n, |rest|)]
  }

  /** The length of the last chunk when `remaining` bytes are read in chunks of at most `blockSize`. */
  function LastChunk(remaining: nat, blockSize: nat): (n: nat)
    requires remaining > 0 && blockSize > 0
    ensures 0 < n <= blockSize && n <= remaining
    decreases remaining
  {
    if remaining <= blockSize then remaining else LastChunk(remaining - blockSize, blockSize)
  }

  /**
    The last chunk is what is left once every earlier chunk took a whole block:
    `remaining` less `k` blocks, where `k` whole blocks leave between 1 and a block.
   */
  lemma {:induction false} LastChunkValue(remaining: nat, blockSize: nat, k: nat)
    requires blockSize > 0 && k * blockSize < remaining <= (k + 1) * blockSize
    ensures LastChunk(remaining, blockSize) == remaining - k * blockSize
    decreases k
  {
    if k > 0 {
      assert (k - 1) * blockSize == k * blockSize - blockSize;
      LastChunkValue(remaining - blockSize, blockSize, k - 1);
    }
  }

  /** The count of the first read of a record that crosses the block (`block_size - block_start`). */
  function FirstReadCount(blockStart: int, blockSize: nat, v: Variant): (r: int) {
    if v == Corrected then Max(0, blockSize - blockStart) else blockSize - blockStart
  }

  /** `block_start` once a payload of `size` bytes has been read. */
  function BlockStartAfter(size: nat, blockStart: int, blockSize: nat, v: Variant): (r: int)
    requires size > 0 && blockSize > 0
  {
    if blockStart + size > blockSize then LastChunk(size - FirstReadCount(blockStart, blockSize, v), blockSize)
    else blockStart + size
  }

  /**
    How reading one payload ends: the bytes consumed and the new `block_start`, a
    ValueError, no end at all, or (corrected only) the file ending first.
   */
  datatype Gathered = Gathered(count: nat, blockStart: int) | ReadRaises | Spins | Truncated

  /** Reading the payload of a `size`-byte record from `rest`, as lines 150-165 of the scan do. */
  function Gather(rest: seq<byte>, size: nat, blockStart: int, blockSize: nat, v: Variant): (g: Gathered)
    requires size > 0 && blockSize > 0
    ensures g.Gathered? ==> g.count <= |rest|
  {
    if blockStart + size > blockSize then
      var first := FirstReadCount(blockStart, blockSize, v);
      if first < -1 then ReadRaises else GatherAcross(rest, first, size, blockSize, v)
    else if v == Corrected && |rest| < size then Truncated
    else Gathered(Min(size, |rest|), BlockStartAfter(size, blockStart, blockSize, v))
  }

  /**
    Reading a payload that crosses the block: `first` bytes to the end of the
    block, then chunks of at most a block until the `size - first` bytes still
    owed are read. The new `block_start` is the length of the last chunk.
   */
  function GatherAcross(rest: seq<byte>, first: int, size: nat, blockSize: nat, v: Variant): (g: Gathered)
    requires -1 <= first < size && blockSize > 0
    ensures g.Gathered? ==> g.count <= |rest|
  {
    var head := |ReadCount(rest, first)|;
    var remaining := size - first;
    if head + remaining <= |rest| then Gathered(head + remaining, LastChunk(remaining, blockSize))
    else if v == Corrected then Truncated
    else Spins
  }

  function Combine<V>(rows: seq<Row<V>>, s: Scanned<V>): (r: Scanned<V>) {
    Scanned(rows + s.rows, s.outcome)
  }

  lemma CombineAssociates<V>(a: seq<Row<V>>, b: seq<Row<V>>, s: Scanned<V>)
    ensures Combine(a, Combine(b, s)) == Combine(a + b, s)
  {
    assert a + (b + s.rows) == (a + b) + s.rows;
  }

  /** The scan from a just-read header `h`, with `rest` the bytes after it. */
  function ScanFrom<V>(rest: seq<byte>, h: Header, blockStart: int, blockSize: nat, c: Codec<V>, cls: RowClass, v: Variant): (r: Scanned<V>)
    requires blockSize > 0
    decreases |rest|, 1
  {
    if h.size == 0 then Scanned([], Finished)
    else match Gather(rest, h.size, blockStart, blockSize, v)
      case ReadRaises => Scanned([], ValueError)
      case Spins => Scanned([], Hangs)
      case Truncated => Scanned([], Finished)
      case Gathered(n, next) =>
        match Yielded(h.flags, rest[..n], c, cls)
        case None => Scanned([], UnpackError)
        case Some(out) => ScanNext(rest[n..], out, next, blockSize, c, cls, v)
  }

  /** The scan once a payload has yielded `out`: read the next header from `after`, the bytes left. */
  function ScanNext<V>(after: seq<byte>, out: seq<Row<V>>, blockStart: int, blockSize: nat, c: Codec<V>, cls: RowClass, v: Variant): (r: Scanned<V>)
    requires blockSize > 0
    decreases |after|, 0
  {
    var headerBytes := ReadCount(after, HEADER_SIZE);
    if |headerBytes| == 0 then Scanned(out, Finished)
    else match DecodeHeader(headerBytes)
      case None => Scanned(out, StructError)
      case Some(h) => Combine(out, ScanFrom(after[HEADER_SIZE..], h, blockStart + HEADER_SIZE, blockSize, c, cls, v))
  }

  /** The rows a scan of `file` yields and how it ends. */
  function Scan<V>(file: seq<byte>, blockSize: nat, c: Codec<V>, cls: RowClass, v: Variant): (r: Scanned<V>)
    requires blockSize > 0
  {
    var headerBytes := ReadCount(file, HEADER_SIZE);
    match DecodeHeader(headerBytes)
    case None => Scanned([], if v == Corrected && headerBytes == [] then Finished else StructError)
    case Some(h) => ScanFrom(file[HEADER_SIZE..], h, HEADER_SIZE, blockSize, c, cls, v)
  }

  lemma ScanFromGathered<V>(rest: seq<byte>, h: Header, blockStart: int, blockSize: nat, c: Codec<V>, cls: RowClass, v: Variant, n: nat, next: int)
    requires blockSize > 0 && h.size > 0
    requires Gather(rest, h.size, blockStart, blockSize, v) == Gathered(n, next)
    ensures n <= |rest|
    ensures Yielded(h.flags, rest[..n], c, cls).None? ==>
      ScanFrom(rest, h, blockStart, blockSize, c, cls, v) == Scanned([], UnpackError)
    ensures Yielded(h.flags, rest[..n], c, cls).Some? ==>
      ScanFrom(rest, h, blockStart, blockSize, c, cls, v)
        == ScanNext(rest[n..], Yielded(h.flags, rest[..n], c, cls).value, next, blockSize, c, cls, v)
  {
  }

  lemma ScanFromEnds<V>(rest: seq<byte>, h: Header, blockStart: int, blockSize: nat, c: Codec<V>, cls: RowClass, v: Variant)
    requires blockSize > 0 && h.size > 0
    requires !Gather(rest, h.size, blockStart, blockSize, v).Gathered?
    ensures ScanFrom(rest, h, blockStart, blockSize, c, cls, v)
         == Scanned([], match Gather(rest, h.size, blockStart, blockSize, v)
                        case ReadRaises => ValueError
                        case Spins => Hangs
                        case _ => Finished)
  {
  }

  lemma ScanNextHeader<V>(after: seq<byte>, out: seq<Row<V>>, blockStart: int, blockSize: nat, c: Codec<V>, cls: RowClass, v: Variant)
    requires blockSize > 0
    ensures |after| == 0 ==> ScanNext(after, out, blockStart, blockSize, c, cls, v) == Scanned(out, Finished)
    ensures 0 < |after| < HEADER_SIZE ==> ScanNext(after, out, blockStart, blockSize, c, cls, v) == Scanned(out, StructError)
    ensures |after| >= HEADER_SIZE ==>
      var h := DecodeHeader(after[..HEADER_SIZE]).value;
      ScanNext(after, out, blockStart, blockSize, c, cls, v)
        == Combine(out, ScanFrom(after[HEADER_SIZE..], h, blockStart + HEADER_SIZE, blockSize, c, cls, v))
  {
  }

  /**
    hadrodb/engine.py:150-165: read the payload of a `size`-byte record starting
    at `pos`, either at once or, when it crosses the block, as the rest of the
    block followed by chunks of at most a block until `remaining_size` is used up.
   */
  method ReadPayload(file: seq<byte>, pos: nat, size: nat, blockStart: int, blockSize: nat, v: Variant) returns (data: seq<byte>, g: Gathered)
    requires pos <= |file| && size > 0 && blockSize > 0
    ensures g == Gather(file[pos..], size, blockStart, blockSize, v)
    ensures g.Gathered? ==> data == file[pos..pos + g.count]
  {
    if blockStart + size > blockSize {
      var first := if v == Corrected then Max(0, blockSize - blockStart) else blockSize - blockStart;
      if first < -1 {
        return [], ReadRaises;
      }
      data, g := ReadAcross(file, pos, first, size, blockSize, v);
    } else {
      data := ReadCount(file[pos..], size);
      assert |data| == Min(size, |file| - pos);
      if v == Corrected && |data| < size {
        return data, Truncated;
      }
      g := Gathered(|data|, blockStart + size);
    }
  }

  /** hadrodb/engine.py:152-161: the rest of the block, then chunks of at most a block while `remaining_size > 0`. */
  method ReadAcross(file: seq<byte>, pos: nat, first: int, size: nat, blockSize: nat, v: Variant) returns (data: seq<byte>, g: Gathered)
    requires pos <= |file| && -1 <= first < size && blockSize > 0
    ensures g == GatherAcross(file[pos..], first, size, blockSize, v)
    ensures g.Gathered? ==> data == file[pos..pos + g.count]
  {
    var remaining := size - first;
    data := ReadCount(file[pos..], first);
    var at := pos + |data|;
    var lastBlock := 0;
    ghost var afterHead, owed := at, remaining;
    while remaining > 0
      invariant afterHead <= at <= |file|
      invariant 0 <= remaining == owed - (at - afterHead)
      invariant data == file[pos..at]
      invariant remaining > 0 ==> at == |file| || LastChunk(remaining, blockSize) == LastChunk(owed, blockSize)
      invariant remaining == 0 ==> lastBlock == LastChunk(owed, blockSize)
      decreases |file| - at
    {
      var block := ReadCount(file[at..], Min(remaining, blockSize));
      if |block| == 0 {
        // at the end of the file `remaining_size` never shrinks again
        return data, if v == Corrected then Truncated else Spins;
      }
      assert block == file[at..at + |block|];
      assert file[pos..at] + file[at..at + |block|] == file[pos..at + |block|];
      data := data + block;
      remaining := remaining - |block|;
      lastBlock := |block|;
      at := at + |block|;
    }
    assert |ReadCount(file[pos..], first)| == afterHead - pos;
    g := Gathered(at - pos, lastBlock);
  }

  /**
    The first half of the loop body: read the payload of the record whose header
    (`flags`, `size`) was just read and decode it when live. `stop` is the outcome
    where the scan ends here; otherwise it goes on at `at` with the next header.
   */
  method ReadRecord<V>(file: seq<byte>, pos: nat, flags: byte, size: nat, blockStart: int, blockSize: nat, c: Codec<V>, cls: RowClass, v: Variant)
    returns (out: seq<Row<V>>, stop: Option<Outcome>, at: nat, nextBlockStart: int)
    requires pos <= |file| && size > 0 && blockSize > 0
    ensures stop.Some? ==>
      ScanFrom(file[pos..], Header(flags, size), blockStart, blockSize, c, cls, v) == Scanned(out, stop.value)
    ensures stop.None? ==>
      && pos <= at <= |file|
      && Gather(file[pos..], size, blockStart, blockSize, v) == Gathered(at - pos, nextBlockStart)
      && ScanFrom(file[pos..], Header(flags, size), blockStart, blockSize, c, cls, v)
         == ScanNext(file[at..], out, nextBlockStart, blockSize, c, cls, v)
  {
    ghost var rest := file[pos..];
    var data, g := ReadPayload(file, pos, size, blockStart, blockSize, v);
    out, at, nextBlockStart := [], pos, blockStart;
    if !g.Gathered? {
      ScanFromEnds(rest, Header(flags, size), blockStart, blockSize, c, cls, v);
      var outcome := if g.ReadRaises? then ValueError else if g.Spins? then Hangs else Finished;
      return out, Some(outcome), at, nextBlockStart;
    }
    assert data == rest[..g.count];
    ScanFromGathered(rest, Header(flags, size), blockStart, blockSize, c, cls, v, g.count, g.blockStart);
    if Live(flags) {
      var row := FromBytes(cls, data, c);
      if row.None? {
        return out, Some(UnpackError), at, nextBlockStart;
      }
      out := [row.value];
    }
    assert out == Yielded(flags, data, c, cls).value;
    at, nextBlockStart := pos + g.count, g.blockStart;
    assert rest[g.count..] == file[at..];
    stop := None;
  }

  /**
    One pass of the scan loop body: read and decode the record whose header
    (`flags`, `size`) was just read, then read the next header. `stop` is the
    outcome where the loop ends here; otherwise the scan goes on from `next`
    with the new header and `block_start`.
   */
  method ScanRecord<V>(file: seq<byte>, pos: nat, flags: byte, size: nat, blockStart: int, blockSize: nat, c: Codec<V>, cls: RowClass, v: Variant)
    returns (out: seq<Row<V>>, stop: Option<Outcome>, next: nat, nextFlags: byte, nextSize: nat, nextBlockStart: int)
    requires pos <= |file| && size > 0 && blockSize > 0
    ensures stop.Some? ==>
      ScanFrom(file[pos..], Header(flags, size), blockStart, blockSize, c, cls, v) == Scanned(out, stop.value)
    ensures stop.None? ==>
      && pos < next <= |file|
      && Gather(file[pos..], size, blockStart, blockSize, v).Gathered?
      && nextBlockStart == Gather(file[pos..], size, blockStart, blockSize, v).blockStart + HEADER_SIZE
      && ScanFrom(file[pos..], Header(flags, size), blockStart, blockSize, c, cls, v)
         == Combine(out, ScanFrom(file[next..], Header(nextFlags, nextSize), nextBlockStart, blockSize, c, cls, v))
  {
    var at: nat;
    out, stop, at, nextBlockStart := ReadRecord(file, pos, flags, size, blockStart, blockSize, c, cls, v);
    next, nextFlags, nextSize := pos, flags, size;
    if stop.Some? {
      return;
    }
    ScanNextHeader(file[at..], out, nextBlockStart, blockSize, c, cls, v);
    var headerBytes := ReadCount(file[at..], HEADER_SIZE);
    if |headerBytes| == 0 {
      return out, Some(Finished), next, nextFlags, nextSize, nextBlockStart;
    }
    var header := DecodeHeader(headerBytes);
    if header.None? {
      return out, Some(StructError), next, nextFlags, nextSize, nextBlockStart;
    }
    assert file[at..][HEADER_SIZE..] == file[at + HEADER_SIZE..];
    next := at + HEADER_SIZE;
    nextFlags, nextSize := header.value.flags, header.value.size;
    nextBlockStart := nextBlockStart + HEADER_SIZE;
  }

  /** The scan loop of `HadroDB.scan`, collecting what it yields. Every call starts at offset 0. */
  method ScanLog<V>(file: seq<byte>, blockSize: nat, c: Codec<V>, cls: RowClass, v: Variant) returns (rows: seq<Row<V>>, outcome: Outcome)
    requires blockSize > 0
    ensures Scanned(rows, outcome) == Scan(file, blockSize, c, cls, v)
  {
    rows := [];
    var headerBytes := ReadCount(file, HEADER_SIZE);
    var header := DecodeHeader(headerBytes);
    if header.None? {
      return [], if v == Corrected && headerBytes == [] then Finished else StructError;
    }
    var pos: nat := HEADER_SIZE;
    var flags: byte, size: nat := header.value.flags, header.value.size;
    var blockStart: int := HEADER_SIZE;
    while size > 0
      invariant pos <= |file|
      invariant Combine(rows, ScanFrom(file[pos..], Header(flags, size), blockStart, blockSize, c, cls, v))
                == Scan(file, blockSize, c, cls, v)
      decreases |file| - pos
    {
      ghost var before := rows;
      var out, stop, next, nextFlags, nextSize, nextBlockStart :=
        ScanRecord(file, pos, flags, size, blockStart, blockSize, c, cls, v);
      rows := rows + out;
      if stop.Some? {
        return rows, stop.value;
      }
      CombineAssociates(before, out, ScanFrom(file[next..], Header(nextFlags, nextSize), nextBlockStart, blockSize, c, cls, v));
      pos, flags, size, blockStart := next, nextFlags, nextSize, nextBlockStart;
    }
    outcome := Finished;
  }

  /**
    Reading a payload that the file holds in full: when `block_start` has not
    passed the block size the bytes gathered are exactly `size`, and a record that
    fits the block moves `block_start` on by `size`; when it has passed, the read
    count is negative and nothing is gathered.
   */
  lemma GatherReassembles(rest: seq<byte>, size: nat, blockStart: int, blockSize: nat)
    requires size > 0 && blockSize > 0 && size <= |rest|
    ensures Gather(rest, size, blockStart, blockSize, AsWritten).Gathered? <==> blockStart <= blockSize
    ensures blockStart <= blockSize ==>
      Gather(rest, size, blockStart, blockSize, AsWritten).count == size
    ensures blockStart + size <= blockSize ==>
      Gather(rest, size, blockStart, blockSize, AsWritten).blockStart == blockStart + size
    ensures blockStart > blockSize ==>
      Gather(rest, size, blockStart, blockSize, AsWritten)
        == (if blockStart == blockSize + 1 then Spins else ReadRaises)
  {
    if blockStart + size > blockSize && blockStart <= blockSize {
      assert |ReadCount(rest, blockSize - blockStart)| == blockSize - blockStart;
    }
  }

  /** The corrected read gathers exactly `size` bytes whatever `block_start` is. */
  lemma CorrectedGatherReassembles(rest: seq<byte>, size: nat, blockStart: int, blockSize: nat)
    requires size > 0 && blockSize > 0 && size <= |rest|
    ensures Gather(rest, size, blockStart, blockSize, Corrected).Gathered?
    ensures Gather(rest, size, blockStart, blockSize, Corrected).count == size
  {
    if blockStart + size > blockSize {
      var first := FirstReadCount(blockStart, blockSize, Corrected);
      assert |ReadCount(rest, first)| == first;
    }
  }

  /**
    The bookkeeping of `block_start` over a file of `frames`: at every header after
    the first, `block_start` (which the source advances by 5 per header) has not
    passed the block size.
   */
  ghost predicate FitsBlocks(frames: seq<Frame>, blockStart: int, blockSize: nat)
    requires blockSize > 0
    decreases |frames|
  {
    frames == [] ||
    (0 < |frames[0].payload| && blockStart <= blockSize &&
     FitsBlocks(frames[1..], BlockStartAfter(|frames[0].payload|, blockStart, blockSize, AsWritten) + HEADER_SIZE, blockSize))
  }

  /** What may follow the last frame: the end of the file, a short header, or a header of size 0. */
  ghost predicate TailStops(tail: seq<byte>) {
    |tail| < HEADER_SIZE || DecodeHeader(tail[..HEADER_SIZE]).value.size == 0
  }

  /** How the scan ends on such a tail: clean at the end of the file or a size of 0, struct.error on a short header. */
  function TailOutcome(tail: seq<byte>): (r: Outcome) {
    if |tail| == 0 then Finished else if |tail| < HEADER_SIZE then StructError else Finished
  }

  /** One step of the scan over a frame whose payload the file holds in full. */
  lemma ScanFromPayload<V>(payload: seq<byte>, after: seq<byte>, flags: byte, blockStart: int, blockSize: nat, c: Codec<V>, cls: RowClass, v: Variant)
    requires blockSize > 0 && 0 < |payload|
    requires v == Corrected || blockStart <= blockSize
    ensures Yielded(flags, payload, c, cls).None? ==>
      ScanFrom(payload + after, Header(flags, |payload|), blockStart, blockSize, c, cls, v) == Scanned([], UnpackError)
    ensures Yielded(flags, payload, c, cls).Some? ==>
      ScanFrom(payload + after, Header(flags, |payload|), blockStart, blockSize, c, cls, v)
        == ScanNext(after, Yielded(flags, payload, c, cls).value, BlockStartAfter(|payload|, blockStart, blockSize, v), blockSize, c, cls, v)
  {
    var rest := payload + after;
    var size := |payload|;
    if v == Corrected {
      CorrectedGatherReassembles(rest, size, blockStart, blockSize);
    } else {
      GatherReassembles(rest, size, blockStart, blockSize);
    }
    var next := BlockStartAfter(size, blockStart, blockSize, v);
    assert Gather(rest, size, blockStart, blockSize, v) == Gathered(size, next);
    assert rest[..size] == payload;
    assert rest[size..] == after;
    ScanFromGathered(rest, Header(flags, size), blockStart, blockSize, c, cls, v, size, next);
  }

  /** A tail that stops the loop ends the scan with `TailOutcome`, keeping what was yielded. */
  lemma ScanNextTail<V>(tail: seq<byte>, out: seq<Row<V>>, blockStart: int, blockSize: nat, c: Codec<V>, cls: RowClass, v: Variant)
    requires blockSize > 0 && TailStops(tail)
    ensures ScanNext(tail, out, blockStart, blockSize, c, cls, v) == Scanned(out, TailOutcome(tail))
  {
    ScanNextHeader(tail, out, blockStart, blockSize, c, cls, v);
    if |tail| >= HEADER_SIZE {
      assert out + [] == out;
    }
  }

  /** A whole header after a payload: the scan goes on from the bytes after it, `block_start` advanced by 5. */
  lemma ScanNextFrame<V>(h: Header, more: seq<byte>, out: seq<Row<V>>, blockStart: int, blockSize: nat, c: Codec<V>, cls: RowClass, v: Variant)
    requires blockSize > 0 && h.size < U32_LIMIT
    ensures ScanNext(EncodeHeader(h) + more, out, blockStart, blockSize, c, cls, v)
         == Combine(out, ScanFrom(more, h, blockStart + HEADER_SIZE, blockSize, c, cls, v))
  {
    var after := EncodeHeader(h) + more;
    ScanNextHeader(after, out, blockStart, blockSize, c, cls, v);
    assert after[..HEADER_SIZE] == EncodeHeader(h);
    assert after[HEADER_SIZE..] == more;
    HeaderRoundTrip(h);
  }

  /** A file that starts with a whole header: the scan goes on from the bytes after it, at `block_start` 5. */
  lemma ScanFirstFrame<V>(h: Header, more: seq<byte>, blockSize: nat, c: Codec<V>, cls: RowClass, v: Variant)
    requires blockSize > 0 && h.size < U32_LIMIT
    ensures Scan(EncodeHeader(h) + more, blockSize, c, cls, v) == ScanFrom(more, h, HEADER_SIZE, blockSize, c, cls, v)
  {
    var file := EncodeHeader(h) + more;
    assert file[..HEADER_SIZE] == EncodeHeader(h);
    assert file[HEADER_SIZE..] == more;
    HeaderRoundTrip(h);
  }

  /** The block hypothesis of the scan theorems: the corrected read, or bookkeeping that never passes the block size. */
  ghost predicate Fits(frames: seq<Frame>, blockStart: int, blockSize: nat, v: Variant)
    requires blockSize > 0
  {
    (v == Corrected && NonEmpty(frames)) || FitsBlocks(frames, blockStart, blockSize)
  }

  /** What the hypothesis of `ScanFromFrames` gives for the first frame, and leaves for the rest. */
  lemma FirstFrameFits(frames: seq<Frame>, blockStart: int, blockSize: nat, v: Variant)
    requires blockSize > 0 && |frames| > 0
    requires Fits(frames, blockStart, blockSize, v)
    ensures 0 < |frames[0].payload| && (v == Corrected || blockStart <= blockSize)
    ensures Fits(frames[1..], BlockStartAfter(|frames[0].payload|, blockStart, blockSize, v) + HEADER_SIZE, blockSize, v)
  {
    if v == Corrected && NonEmpty(frames) {
      assert forall i :: 0 <= i < |frames[1..]| ==> frames[1..][i] == frames[i + 1];
    }
  }

  /** A file of frames starts with the first frame's header, then its payload, then the other frames. */
  lemma LogFirst(frames: seq<Frame>, tail: seq<byte>)
    requires |frames| > 0 && WellSized(frames)
    ensures WellSized(frames[1..]) && |frames[0].payload| < U32_LIMIT
    ensures Log(frames) + tail
         == EncodeHeader(Header(frames[0].flags, |frames[0].payload|)) + (frames[0].payload + (Log(frames[1..]) + tail))
  {
    var f := frames[0];
    assert WellSized(frames[1..]);
    var h, r := EncodeHeader(Header(f.flags, |f.payload|)), Log(frames[1..]);
    assert Log(frames) == (h + f.payload) + r;
    SeqAssociates(h, f.payload, r, tail);
  }

  lemma SeqAssociates<T>(a: seq<T>, b: seq<T>, c: seq<T>, d: seq<T>)
    ensures ((a + b) + c) + d == a + (b + (c + d))
  {
  }

  /** `DecodeLive` of frames: an unpack error at the first, or what it yields followed by the rest decoded. */
  lemma DecodeLiveFirst<V>(frames: seq<Frame>, c: Codec<V>, cls: RowClass, end: Outcome)
    requires |frames| > 0
    ensures Yielded(frames[0].flags, frames[0].payload, c, cls).None? ==>
      DecodeLive(frames, c, cls, end) == Scanned([], UnpackError)
    ensures Yielded(frames[0].flags, frames[0].payload, c, cls).Some? ==>
      DecodeLive(frames, c, cls, end)
        == Combine(Yielded(frames[0].flags, frames[0].payload, c, cls).value, DecodeLive(frames[1..], c, cls, end))
  {
  }

  /**
    From the header of the first of `frames` on, the scan yields what
    `DecodeLive` does, whenever the corrected read is used or the block
    bookkeeping never passes the block size.
   */
  lemma {:induction false} ScanFromFrames<V>(frames: seq<Frame>, tail: seq<byte>, blockStart: int, blockSize: nat, c: Codec<V>, cls: RowClass, v: Variant)
    requires blockSize > 0 && |frames| > 0 && WellSized(frames) && TailStops(tail)
    requires Fits(frames, blockStart, blockSize, v)
    ensures ScanFrom(frames[0].payload + (Log(frames[1..]) + tail), Header(frames[0].flags, |frames[0].payload|),
                     blockStart, blockSize, c, cls, v)
         == DecodeLive(frames, c, cls, TailOutcome(tail))
    decreases |frames|, 0
  {
    var f, more := frames[0], frames[1..];
    assert WellSized(more);
    FirstFrameFits(frames, blockStart, blockSize, v);
    var next := BlockStartAfter(|f.payload|, blockStart, blockSize, v);
    ScanFromPayload(f.payload, Log(more) + tail, f.flags, blockStart, blockSize, c, cls, v);
    DecodeLiveFirst(frames, c, cls, TailOutcome(tail));
    var y := Yielded(f.flags, f.payload, c, cls);
    if y.Some? {
      ScanNextFrames(more, tail, y.value, next, blockSize, c, cls, v);
    }
  }

  /** After the last frame, the scan ends on the tail, keeping what was yielded. */
  lemma ScanNextNoFrames<V>(tail: seq<byte>, out: seq<Row<V>>, blockStart: int, blockSize: nat, c: Codec<V>, cls: RowClass, v: Variant)
    requires blockSize > 0 && TailStops(tail)
    ensures ScanNext(Log([]) + tail, out, blockStart, blockSize, c, cls, v)
         == Combine(out, DecodeLive([], c, cls, TailOutcome(tail)))
  {
    assert Log([]) + tail == tail;
    ScanNextTail(tail, out, blockStart, blockSize, c, cls, v);
    assert out + [] == out;
  }

  /** After a payload that yielded `out`, the rest of the scan over `frames` and `tail` is what `DecodeLive` yields. */
  lemma {:induction false} ScanNextFrames<V>(frames: seq<Frame>, tail: seq<byte>, out: seq<Row<V>>, blockStart: int, blockSize: nat, c: Codec<V>, cls: RowClass, v: Variant)
    requires blockSize > 0 && WellSized(frames) && TailStops(tail)
    requires Fits(frames, blockStart + HEADER_SIZE, blockSize, v)
    ensures ScanNext(Log(frames) + tail, out, blockStart, blockSize, c, cls, v)
         == Combine(out, DecodeLive(frames, c, cls, TailOutcome(tail)))
    decreases |frames|, 1
  {
    if frames == [] {
      ScanNextNoFrames(tail, out, blockStart, blockSize, c, cls, v);
    } else {
      var g := frames[0];
      var gh := Header(g.flags, |g.payload|);
      LogFirst(frames, tail);
      var more := g.payload + (Log(frames[1..]) + tail);
      calc {
        ScanNext(Log(frames) + tail, out, blockStart, blockSize, c, cls, v);
        ScanNext(EncodeHeader(gh) + more, out, blockStart, blockSize, c, cls, v);
        { ScanNextFrame(gh, more, out, blockStart, blockSize, c, cls, v); }
        Combine(out, ScanFrom(more, gh, blockStart + HEADER_SIZE, blockSize, c, cls, v));
        { ScanFromFrames(frames, tail, blockStart + HEADER_SIZE, blockSize, c, cls, v); }
        Combine(out, DecodeLive(frames, c, cls, TailOutcome(tail)));
      }
    }
  }

  /**
    A data file made of well-formed frames (plus a tail that stops the loop),
    whose block bookkeeping never passes the block size, scans to the decoded
    payloads of exactly its live frames, in file order. An empty header read or a
    size of 0 ends the scan cleanly; a short trailing header raises struct.error.
   */
  lemma ScanYieldsLiveFrames<V>(frames: seq<Frame>, tail: seq<byte>, blockSize: nat, c: Codec<V>, cls: RowClass)
    requires blockSize > 0 && |frames| > 0 && WellSized(frames) && TailStops(tail)
    requires FitsBlocks(frames, HEADER_SIZE, blockSize)
    ensures Scan(Log(frames) + tail, blockSize, c, cls, AsWritten) == DecodeLive(frames, c, cls, TailOutcome(tail))
  {
    var f := frames[0];
    var h := Header(f.flags, |f.payload|);
    LogFirst(frames, tail);
    ScanFirstFrame(h, f.payload + (Log(frames[1..]) + tail), blockSize, c, cls, AsWritten);
    ScanFromFrames(frames, tail, HEADER_SIZE, blockSize, c, cls, AsWritten);
  }

  /** The corrected scan yields the live frames of any well-formed file, for every block size, the empty file included. */
  lemma CorrectedScanYieldsLiveFrames<V>(frames: seq<Frame>, tail: seq<byte>, blockSize: nat, c: Codec<V>, cls: RowClass)
    requires blockSize > 0 && WellSized(frames) && NonEmpty(frames) && TailStops(tail)
    ensures Scan(Log(frames) + tail, blockSize, c, cls, Corrected) == DecodeLive(frames, c, cls, TailOutcome(tail))
  {
    if frames == [] {
      assert Log(frames) + tail == tail;
    } else {
      var f := frames[0];
      var h := Header(f.flags, |f.payload|);
      LogFirst(frames, tail);
      ScanFirstFrame(h, f.payload + (Log(frames[1..]) + tail), blockSize, c, cls, Corrected);
      ScanFromFrames(frames, tail, HEADER_SIZE, blockSize, c, cls, Corrected);
    }
  }

  /** A scan of an empty data file raises struct.error at its first header read. */
  lemma EmptyLogRaises<V>(blockSize: nat, c: Codec<V>, cls: RowClass)
    requires blockSize > 0
    ensures Scan([], blockSize, c, cls, AsWritten) == Scanned([], StructError)
    ensures Scan([], blockSize, c, cls, Corrected) == Scanned([], Finished)
  {
  }

  /**
    A first record whose frame ends in the last five bytes of a block pushes
    `block_start` past the block size at the next header; the next record is then
    read with a negative count: -1 reads to the end of the file and the
    reassembly loop never ends, anything lower raises ValueError.
   */
  lemma NearFullBlockBreaksScan<V>(p0: seq<byte>, p1: seq<byte>, blockSize: nat, c: Codec<V>, cls: RowClass)
    requires blockSize >= 10 && blockSize - 10 < |p0| <= blockSize - 5 && |p0| < U32_LIMIT
    requires 0 < |p1| < U32_LIMIT
    requires c.unpack(p0).Some?
    ensures WellSized([Frame(0, p0), Frame(0, p1)])
    ensures !FitsBlocks([Frame(0, p0), Frame(0, p1)], HEADER_SIZE, blockSize)
    ensures Scan(Log([Frame(0, p0), Frame(0, p1)]), blockSize, c, cls, AsWritten)
         == Scanned([Row(cls, c.unpack(p0).value)], if |p0| == blockSize - 9 then Hangs else ValueError)
  {
    var frames := [Frame(0, p0), Frame(0, p1)];
    var h0, h1 := Header(0, |p0|), Header(0, |p1|);
    var next := HEADER_SIZE + |p0|;
    assert BlockStartAfter(|p0|, HEADER_SIZE, blockSize, AsWritten) == next;
    assert frames[1..] == [Frame(0, p1)];
    assert Log(frames[1..][1..]) == [];
    var rest1 := p1 + [];
    var rest0 := p0 + (EncodeHeader(h1) + rest1);
    assert Log(frames) == EncodeHeader(h0) + rest0;
    HeaderRoundTrip(h0);
    HeaderRoundTrip(h1);
    assert Gather(rest0, |p0|, HEADER_SIZE, blockSize, AsWritten) == Gathered(|p0|, next);
    assert rest0[..|p0|] == p0;
    ScanFromGathered(rest0, h0, HEADER_SIZE, blockSize, c, cls, AsWritten, |p0|, next);
    var out := [Row(cls, c.unpack(p0).value)];
    assert rest0[|p0|..] == EncodeHeader(h1) + rest1;
    ScanNextHeader(rest0[|p0|..], out, next, blockSize, c, cls, AsWritten);
    assert (EncodeHeader(h1) + rest1)[HEADER_SIZE..] == rest1;
    var g := if |p0| == blockSize - 9 then Spins else ReadRaises;
    assert Gather(rest1, |p1|, next + HEADER_SIZE, blockSize, AsWritten) == g;
    assert ScanFrom(rest1, h1, next + HEADER_SIZE, blockSize, c, cls, AsWritten).rows == [];
    assert out + [] == out;
  }

  /** A data file no longer than one block (8 MiB for the engine) never trips the block bookkeeping. */
  lemma {:induction false} LogWithinOneBlockFits(frames: seq<Frame>, blockStart: int, blockSize: nat)
    requires blockSize > 0 && WellSized(frames) && NonEmpty(frames)
    requires blockStart - HEADER_SIZE + |Log(frames)| <= blockSize
    ensures FitsBlocks(frames, blockStart, blockSize)
    decreases |frames|
  {
    if frames != [] {
      var size := |frames[0].payload|;
      assert Log(frames) == EncodeFrame(frames[0]) + Log(frames[1..]);
      assert BlockStartAfter(size, blockStart, blockSize, AsWritten) == blockStart + size;
      LogWithinOneBlockFits(frames[1..], blockStart + size + HEADER_SIZE, blockSize);
    }
  }

  /**
    The rows appended to an empty data file come back from a scan: each appended
    value sequence as a row of the class, in append order, when `unpackb` inverts
    `packb` and the block bookkeeping holds. With nothing appended the scan raises
    struct.error; the corrected scan returns every appended row for any block size.
   */
  lemma ScanReturnsAppendedRows<V(!new)>(frames: seq<Frame>, written: seq<seq<V>>, blockSize: nat, c: Codec<V>, cls: RowClass)
    requires blockSize > 0 && Inverse(c) && |frames| == |written| && WellSized(frames)
    requires forall i :: 0 <= i < |frames| ==>
      frames[i].flags == 0 && c.pack(written[i]) == Some(frames[i].payload)
    ensures written == [] ==> Scan(Log(frames), blockSize, c, cls, AsWritten) == Scanned([], StructError)
    ensures written != [] && FitsBlocks(frames, HEADER_SIZE, blockSize) ==>
      Scan(Log(frames), blockSize, c, cls, AsWritten)
        == Scanned(RowsOf(cls, written), Finished)
    ensures NonEmpty(frames) ==>
      Scan(Log(frames), blockSize, c, cls, Corrected)
        == Scanned(RowsOf(cls, written), Finished)
  {
    assert Log(frames) + [] == Log(frames);
    assert TailStops([]) && TailOutcome([]) == Finished;
    forall i | 0 <= i < |frames|
      ensures c.unpack(frames[i].payload) == Some(written[i])
    {
      assert c.pack(written[i]).Some?;
    }
    DecodeLiveUnpacked(frames, written, c, cls, Finished);
    if written != [] && FitsBlocks(frames, HEADER_SIZE, blockSize) {
      ScanYieldsLiveFrames(frames, [], blockSize, c, cls);
    }
    if NonEmpty(frames) {
      CorrectedScanYieldsLiveFrames(frames, [], blockSize, c, cls);
    }
  }

  /** The corrected read of a payload never raises and never spins. */
  lemma CorrectedGatherEnds(rest: seq<byte>, size: nat, blockStart: int, blockSize: nat)
    requires size > 0 && blockSize > 0
    ensures !Gather(rest, size, blockStart, blockSize, Corrected).ReadRaises?
    ensures !Gather(rest, size, blockStart, blockSize, Corrected).Spins?
  {
  }

  /** Whether a scan ends in a way the caller sees: a clean end or an exception, not a hang or a ValueError from `read`. */
  predicate EndsWell(o: Outcome) {
    o == Finished || o == StructError || o == UnpackError || o == ClosedFile
  }

  lemma {:induction false} CorrectedScanFromEnds<V>(rest: seq<byte>, h: Header, blockStart: int, blockSize: nat, c: Codec<V>, cls: RowClass)
    requires blockSize > 0
    ensures EndsWell(ScanFrom(rest, h, blockStart, blockSize, c, cls, Corrected).outcome)
    decreases |rest|, 1
  {
    if h.size > 0 {
      CorrectedGatherEnds(rest, h.size, blockStart, blockSize);
      match Gather(rest, h.size, blockStart, blockSize, Corrected)
      case Truncated =>
      case Gathered(n, next) =>
        match Yielded(h.flags, rest[..n], c, cls)
        case None =>
        case Some(out) =>
          CorrectedScanNextEnds(rest[n..], out, next, blockSize, c, cls);
    }
  }

  lemma {:induction false} CorrectedScanNextEnds<V>(after: seq<byte>, out: seq<Row<V>>, blockStart: int, blockSize: nat, c: Codec<V>, cls: RowClass)
    requires blockSize > 0
    ensures EndsWell(ScanNext(after, out, blockStart, blockSize, c, cls, Corrected).outcome)
    decreases |after|, 0
  {
    ScanNextHeader(after, out, blockStart, blockSize, c, cls, Corrected);
    if |after| >= HEADER_SIZE {
      var h := DecodeHeader(after[..HEADER_SIZE]).value;
      CorrectedScanFromEnds(after[HEADER_SIZE..], h, blockStart + HEADER_SIZE, blockSize, c, cls);
    }
  }

  /** The corrected scan ends on every file and every block size: it never hangs and never passes `read` a count below -1. */
  lemma CorrectedScanNeverHangs<V>(file: seq<byte>, blockSize: nat, c: Codec<V>, cls: RowClass)
    requires blockSize > 0
    ensures EndsWell(Scan(file, blockSize, c, cls, Corrected).outcome)
  {
    var headerBytes := ReadCount(file, HEADER_SIZE);
    if DecodeHeader(headerBytes).Some? {
      CorrectedScanFromEnds(file[HEADER_SIZE..], DecodeHeader(headerBytes).value, HEADER_SIZE, blockSize, c, cls);
    }
  }

  /**
    A record cut short by the end of the file whose declared size crosses the
    block: the inner loop reads nothing from then on and `remaining_size` never
    reaches 0, so the scan never ends. The corrected scan ends there cleanly.
   */
  lemma TruncatedCrossingRecordHangs<V>(size: nat, partial: seq<byte>, blockSize: nat, c: Codec<V>, cls: RowClass)
    requires HEADER_SIZE <= blockSize < HEADER_SIZE + size && size < U32_LIMIT
    requires |partial| < size
    ensures Scan(EncodeHeader(Header(0, size)) + partial, blockSize, c, cls, AsWritten) == Scanned([], Hangs)
    ensures Scan(EncodeHeader(Header(0, size)) + partial, blockSize, c, cls, Corrected) == Scanned([], Finished)
  {
    var h := Header(0, size);
    ScanFirstFrame(h, partial, blockSize, c, cls, AsWritten);
    ScanFirstFrame(h, partial, blockSize, c, cls, Corrected);
    var first := blockSize - HEADER_SIZE;
    assert |ReadCount(partial, first)| == Min(first, |partial|);
    assert Gather(partial, size, HEADER_SIZE, blockSize, AsWritten) == Spins;
    assert Gather(partial, size, HEADER_SIZE, blockSize, Corrected) == Truncated;
    ScanFromEnds(partial, h, HEADER_SIZE, blockSize, c, cls, AsWritten);
    ScanFromEnds(partial, h, HEADER_SIZE, blockSize, c, cls, Corrected);
  }
}
