/**
  `HadroDB` of hadro/engine.py: the same append-only data file and forward scan
  as hadrodb/engine.py, with rows made by the `Row` class of the orso library
  instead of hadrodb/record.py.

  orso's `Row` is not part of this model: `to_bytes` is taken as an opaque
  function from a row's values to the bytes `append` writes, and `from_bytes` as
  an opaque decoder of a payload. What the scan returns is proved under the
  hypothesis `OrsoFrames`, that `to_bytes` writes one live frame in the layout of
  hadrodb/record.py whose payload `from_bytes` decodes back to the values.
 */
module HadroEngine {
  import opened Results
  import opened Bytes
  import opened Record
  import opened Frame
  import LogScan
  import opened Store

  /** The bytes of several records one after the other. */
  function Concat(records: seq<seq<byte>>): (s: seq<byte>)
  {
    if records == [] then [] else Concat(records[..|records| - 1]) + records[|records| - 1]
  }

  /** The bytes after the 5-byte header. */
  function PayloadOf(record: seq<byte>): (r: seq<byte>) {
    if |record| >= HEADER_SIZE then record[HEADER_SIZE..] else []
  }

  /** `record` is one live frame whose payload decodes to `values`. */
  ghost predicate IsFrameOf<V>(record: seq<byte>, values: seq<V>, fromBytes: seq<byte> -> Option<seq<V>>) {
    && |record| >= HEADER_SIZE
    && record[0] == 0
    && FromBigEndian(record[1..HEADER_SIZE]) == |record| - HEADER_SIZE
    && fromBytes(record[HEADER_SIZE..]) == Some(values)
  }

  /**
    `orso.pack` is orso's `Row(values).to_bytes()` (None where it raises),
    `orso.unpack` its `from_bytes`. The hypothesis: every record `to_bytes`
    produces is one live frame that `from_bytes` decodes back.
   */
  ghost predicate OrsoFrames<V(!new)>(orso: Codec<V>) {
    forall vs :: orso.pack(vs).Some? ==> IsFrameOf(orso.pack(vs).value, vs, orso.unpack)
  }

  /** The frames a sequence of records reads as. */
  function FramesOf(records: seq<seq<byte>>): (frames: seq<Frame>)
    ensures |frames| == |records|
    ensures forall i :: 0 <= i < |records| ==> frames[i] == Frame(0, PayloadOf(records[i]))
  {
    if records == [] then [] else FramesOf(records[..|records| - 1]) + [Frame(0, PayloadOf(records[|records| - 1]))]
  }

  /** A record that is one live frame is the encoding of that frame. */
  lemma RecordIsFrame<V>(record: seq<byte>, values: seq<V>, fromBytes: seq<byte> -> Option<seq<V>>)
    requires IsFrameOf(record, values, fromBytes)
    ensures |PayloadOf(record)| < U32_LIMIT
    ensures record == EncodeFrame(Frame(0, PayloadOf(record)))
  {
    FromU32Bytes(record[1..HEADER_SIZE]);
    assert record == [record[0]] + record[1..HEADER_SIZE] + record[HEADER_SIZE..];
  }

  /**
    Records that are live frames of `written` concatenate to the data file of
    their frames, and each frame's payload decodes to its values.
   */
  lemma {:induction false} RecordsAreLog<V>(records: seq<seq<byte>>, written: seq<seq<V>>, fromBytes: seq<byte> -> Option<seq<V>>)
    requires |records| == |written|
    requires forall i :: 0 <= i < |records| ==> IsFrameOf(records[i], written[i], fromBytes)
    ensures WellSized(FramesOf(records))
    ensures Log(FramesOf(records)) == Concat(records)
    ensures forall i :: 0 <= i < |records| ==>
      FramesOf(records)[i].flags == 0 && fromBytes(FramesOf(records)[i].payload) == Some(written[i])
  {
    if records != [] {
      var n := |records| - 1;
      RecordsAreLog(records[..n], written[..n], fromBytes);
      RecordIsFrame(records[n], written[n], fromBytes);
      LogAppend(FramesOf(records[..n]), Frame(0, PayloadOf(records[n])));
    }
  }

  class HadroDB<V(!new)> {
    const collection: string
    const fileName: string
    const schemaFile: string
    /** `self.rows`: orso's row class made from the planet schema. */
    const rows: RowClass
    /** orso's `to_bytes` and `from_bytes`. */
    const orso: Codec<V>

    var writePosition: int
    /** `key_dir`, which nothing in this class reads or writes after `__init__`. */
    var keyDir: seq<(seq<byte>, Row<V>)>
    /** The contents of the data file. */
    var file: seq<byte>
    /** Whether `self.file`, and with it `self.fileno`, has been closed. */
    var closed: bool

    ghost const initial: seq<byte>
    /** The records written since opening, and the values each was made from. */
    ghost var records: seq<seq<byte>>
    ghost var written: seq<seq<V>>

    ghost predicate Valid()
      reads this
    {
      && |records| == |written|
      && file == initial + Concat(records)
      && writePosition == |Concat(records)|
      && (forall i :: 0 <= i < |records| ==> orso.pack(written[i]) == Some(records[i]))
    }

    /** `HadroDB(collection)` once the checks of `Store.OpenPaths` have passed. */
    constructor (collection: string, existing: seq<byte>, orso: Codec<V>)
      ensures Valid()
      ensures this.collection == collection
      ensures fileName == DataFileName(collection) && schemaFile == SchemaFileName(collection)
      ensures rows == CreateClass(PLANET_SCHEMA) && this.orso == orso
      ensures initial == existing && file == existing
      ensures writePosition == 0 && keyDir == [] && written == [] && !closed
    {
      this.collection := collection;
      fileName := DataFileName(collection);
      schemaFile := SchemaFileName(collection);
      rows := CreateClass(PLANET_SCHEMA);
      this.orso := orso;
      writePosition := 0;
      keyDir := [];
      file := existing;
      closed := false;
      initial := existing;
      records := [];
      written := [];
    }

    /** `_write(data)`: `os.write` appends `data` to the end of the data file, or raises on a closed descriptor. */
    method Write(data: seq<byte>) returns (ok: bool)
      modifies this`file
      ensures ok == !closed
      ensures file == if closed then old(file) else old(file) + data
    {
      if closed {
        return false;
      }
      file := file + data;
      return true;
    }

    /**
      `append(record)`: make an orso row of the record's values, append its
      `to_bytes` and advance `write_position` by their length. When `to_bytes`
      raises, or the data file has been closed, nothing is written.
     */
    method Append(record: Incoming<V>) returns (ok: bool)
      requires Valid()
      modifies this
      ensures Valid() && closed == old(closed)
      ensures var bytes := orso.pack(IncomingValues(record));
        && (bytes.None? || closed ==>
              && !ok
              && file == old(file) && writePosition == old(writePosition) && written == old(written))
        && (bytes.Some? && !closed ==>
              && ok
              && file == old(file) + bytes.value
              && writePosition == old(writePosition) + |bytes.value|
              && written == old(written) + [IncomingValues(record)])
      ensures keyDir == old(keyDir)
    {
      var values := IncomingValues(record);
      var bytes := orso.pack(values);
      if bytes.None? {
        return false;
      }
      var done := Write(bytes.value);
      if !done {
        return false;
      }
      assert (records + [bytes.value])[..|records|] == records;
      records := records + [bytes.value];
      written := written + [values];
      writePosition := writePosition + |bytes.value|;
      return true;
    }

    /**
      `list(scan())` with the reader detached from `self.file` afterwards, so the
      store stays open: a closed file raises at `seek`; otherwise the scan reads
      from offset 0. On a file this object created, an empty one raises
      struct.error, and, when orso's records are frames, the rows come back as
      they were appended whenever the block bookkeeping holds.
     */
    method ScanDetached() returns (result: seq<Row<V>>, outcome: Outcome)
      ensures closed ==> result == [] && outcome == ClosedFile
      ensures !closed ==> Scanned(result, outcome) == LogScan.Scan(file, BLOCK_SIZE, orso, rows, LogScan.AsWritten)
      ensures !closed && Valid() && initial == [] && written == [] ==> result == [] && outcome == StructError
      ensures !closed && Valid() && initial == [] && written != [] && OrsoFrames(orso)
              && LogScan.FitsBlocks(FramesOf(records), HEADER_SIZE, BLOCK_SIZE) ==>
        result == RowsOf(rows, written) && outcome == Finished
    {
      if closed {
        return [], ClosedFile;
      }
      result, outcome := LogScan.ScanLog(file, BLOCK_SIZE, orso, rows, LogScan.AsWritten);
      if Valid() && initial == [] && written != [] && OrsoFrames(orso)
         && LogScan.FitsBlocks(FramesOf(records), HEADER_SIZE, BLOCK_SIZE) {
        RecordsAreLog(records, written, orso.unpack);
        var frames := FramesOf(records);
        assert file == Log(frames) + [];
        LogScan.ScanYieldsLiveFrames(frames, [], BLOCK_SIZE, orso, rows);
        DecodeLiveUnpacked(frames, written, orso, rows, Finished);
      } else if Valid() && initial == [] && written == [] {
        assert file == [];
      }
    }

    /**
      `list(scan())` as written: the scan of `ScanDetached`, after which the
      `io.BufferedReader` wrapped around `self.file` is finalized and closes it,
      so later scans raise at `seek` and later appends write nothing.
     */
    method Scan() returns (result: seq<Row<V>>, outcome: Outcome)
      modifies this`closed
      ensures closed && Valid() == old(Valid())
      ensures old(closed) ==> result == [] && outcome == ClosedFile
      ensures !old(closed) ==> Scanned(result, outcome) == LogScan.Scan(file, BLOCK_SIZE, orso, rows, LogScan.AsWritten)
      ensures !old(closed) && Valid() && initial == [] && written != [] && OrsoFrames(orso)
              && LogScan.FitsBlocks(FramesOf(records), HEADER_SIZE, BLOCK_SIZE) ==>
        result == RowsOf(rows, written) && outcome == Finished
    {
      result, outcome := ScanDetached();
      closed := true;
    }
  }
}
