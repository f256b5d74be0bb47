/**
  `HadroDB` of hadrodb/engine.py: an append-only data file of framed MessagePack
  rows, a forward scan over it, and the `key_dir` index reads.

  The data file is the field `file`: its bytes when the object was opened
  (`initial`), followed by every frame `append` has written since. `write_position`
  counts the bytes written since opening, not the length of the file.
 */
module HadrodbEngine {
  import opened Results
  import opened Bytes
  import opened Record
  import opened Frame
  import LogScan
  import opened Store

  /** The argument of `__getitem__`: one key, or a list, set, tuple or keys view of keys in iteration order. */
  datatype Item<K> = Single(key: K) | Iterable(keys: seq<K>)

  /** What `__getitem__` returns: one document, or the list of them. */
  datatype Got<D> = One(doc: D) | Many(docs: seq<D>)

  /**
    `self.get` applied to each key in turn, collected; None as soon as one call
    raises. (`get` is None where it raises.)
   */
  function GetAll<K, D>(keys: seq<K>, get: K -> Option<D>): (r: Option<seq<D>>)
    ensures r.Some? <==> forall i :: 0 <= i < |keys| ==> get(keys[i]).Some?
    ensures r.Some? ==> |r.value| == |keys| && forall i :: 0 <= i < |keys| ==> Some(r.value[i]) == get(keys[i])
  {
    if keys == [] then Some([])
    else match get(keys[0])
      case None => None
      case Some(d) =>
        match GetAll(keys[1..], get)
        case None => None
        case Some(ds) => Some([d] + ds)
  }

  /**
    The bookkeeping of an open data file: `file` is what it held when opened
    followed by the frames of the packed `written` values, and `writePosition`
    counts the bytes of those frames.
   */
  ghost predicate Appended<V>(file: seq<byte>, initial: seq<byte>, writePosition: int,
                              frames: seq<Frame>, written: seq<seq<V>>, c: Codec<V>) {
    && PackedLog(frames, written, c)
    && file == initial + Log(frames)
    && writePosition == |Log(frames)|
  }

  /** Appending `to_bytes` of a row to a data file keeps its bookkeeping, with one more frame. */
  lemma AppendedAppend<V>(file: seq<byte>, initial: seq<byte>, writePosition: int,
                          frames: seq<Frame>, written: seq<seq<V>>, c: Codec<V>, row: Row<V>)
    requires Appended(file, initial, writePosition, frames, written, c) && ToBytes(row, c).Ok?
    ensures c.pack(row.values).Some?
    ensures Appended(file + ToBytes(row, c).value, initial, writePosition + |ToBytes(row, c).value|,
                     frames + [Frame(0, c.pack(row.values).value)], written + [row.values], c)
  {
    PackedLogAppend(frames, written, c, row);
  }

  /** Why `append` raises: `to_bytes` refused the row, or `os.write` was given a closed descriptor (EBADF). */
  datatype AppendError = Unencodable(error: EncodeError) | BadDescriptor

  class HadroDB<V(!new)> {
    const collection: string
    const fileName: string
    const schemaFile: string
    /** `self.rows`: the row class made from the planet schema. */
    const rows: RowClass
    /** `packb` and `unpackb`. */
    const codec: Codec<V>

    var writePosition: int
    /** `key_dir`: a dict from key to row, in insertion order. */
    var keyDir: seq<(seq<byte>, Row<V>)>
    /** The contents of the data file. */
    var file: seq<byte>
    /** Whether `self.file`, and with it `self.fileno`, has been closed. */
    var closed: bool

    ghost const initial: seq<byte>
    /** The frames written since opening, and the values each was packed from. */
    ghost var frames: seq<Frame>
    ghost var written: seq<seq<V>>

    ghost predicate Valid()
      reads this
    {
      && Appended(file, initial, writePosition, frames, written, codec)
      && Distinct(DictKeys(keyDir))
    }

    /**
      `HadroDB(collection)` once the checks of `Store.OpenPaths` have passed: the
      data file is opened for appending with its `existing` contents, nothing has
      been written and `key_dir` is empty.
     */
    constructor (collection: string, existing: seq<byte>, codec: Codec<V>)
      ensures Valid()
      ensures this.collection == collection
      ensures fileName == DataFileName(collection) && schemaFile == SchemaFileName(collection)
      ensures rows == CreateClass(PLANET_SCHEMA) && this.codec == codec
      ensures initial == existing && file == existing
      ensures writePosition == 0 && keyDir == [] && written == [] && !closed
    {
      this.collection := collection;
      fileName := DataFileName(collection);
      schemaFile := SchemaFileName(collection);
      rows := CreateClass(PLANET_SCHEMA);
      this.codec := codec;
      writePosition := 0;
      keyDir := [];
      file := existing;
      closed := false;
      initial := existing;
      frames := [];
      written := [];
    }

    /** `_write(data)`: `os.write` appends `data` to the end of the data file, or raises on a closed descriptor. */
    method Write(data: seq<byte>) returns (ok: bool)
      modifies this`file
      ensures ok == !closed
      ensures file == if closed then old(file) else old(file) + data
    {
      if closed {
        return false;
      }
      file := file + data;
      return true;
    }

    /**
      `append(record)`: make a row of the record's values, frame it with
      `to_bytes`, append the frame and advance `write_position` by its length.
      When `to_bytes` raises, or the data file has been closed, nothing is written.
     */
    method Append(record: Incoming<V>) returns (err: Option<AppendError>)
      requires Valid()
      modifies this
      ensures Valid() && closed == old(closed)
      ensures var bytes := ToBytes(New(rows, IncomingValues(record)), codec);
        && (bytes.Err? ==>
              && err == Some(Unencodable(bytes.error))
              && file == old(file) && writePosition == old(writePosition) && written == old(written))
        && (bytes.Ok? && closed ==>
              && err == Some(BadDescriptor)
              && file == old(file) && writePosition == old(writePosition) && written == old(written))
        && (bytes.Ok? && !closed ==>
              && err == None
              && file == old(file) + bytes.value
              && writePosition == old(writePosition) + |bytes.value|
              && written == old(written) + [IncomingValues(record)])
      ensures keyDir == old(keyDir)
    {
      var values := IncomingValues(record);
      var row := New(rows, values);
      var bytes := ToBytes(row, codec);
      if bytes.Err? {
        return Some(Unencodable(bytes.error));
      }
      AppendedAppend(file, initial, writePosition, frames, written, codec, row);
      var ok := Write(bytes.value);
      if !ok {
        return Some(BadDescriptor);
      }
      frames, written, writePosition := frames + [Frame(0, codec.pack(values).value)], written + [values], writePosition + |bytes.value|;
      return None;
    }

    /**
      `list(scan())` with the reader detached from `self.file` afterwards, so the
      store stays open: a closed file raises at `seek`; otherwise the scan reads
      from offset 0 and what it yields depends on the file's contents alone. On a
      file this object created, an empty one raises struct.error, and otherwise
      the rows come back as they were appended whenever the block bookkeeping holds.
     */
    method ScanDetached() returns (result: seq<Row<V>>, outcome: Outcome)
      ensures closed ==> result == [] && outcome == ClosedFile
      ensures !closed ==> Scanned(result, outcome) == LogScan.Scan(file, BLOCK_SIZE, codec, rows, LogScan.AsWritten)
      ensures !closed && Valid() && initial == [] && written == [] ==> result == [] && outcome == StructError
      ensures !closed && Valid() && initial == [] && written != [] && Inverse(codec)
              && LogScan.FitsBlocks(frames, HEADER_SIZE, BLOCK_SIZE) ==>
        result == RowsOf(rows, written) && outcome == Finished
    {
      if closed {
        return [], ClosedFile;
      }
      result, outcome := LogScan.ScanLog(file, BLOCK_SIZE, codec, rows, LogScan.AsWritten);
      if Valid() && initial == [] && Inverse(codec) {
        assert file == Log(frames);
        LogScan.ScanReturnsAppendedRows(frames, written, BLOCK_SIZE, codec, rows);
      } else if Valid() && initial == [] && written == [] {
        assert file == [];
      }
    }

    /**
      `list(scan())` as written: the scan of `ScanDetached`, after which the
      `io.BufferedReader` wrapped around `self.file` is finalized and closes it.
     */
    method Scan() returns (result: seq<Row<V>>, outcome: Outcome)
      modifies this`closed
      ensures closed && Valid() == old(Valid())
      ensures old(closed) ==> result == [] && outcome == ClosedFile
      ensures !old(closed) ==> Scanned(result, outcome) == LogScan.Scan(file, BLOCK_SIZE, codec, rows, LogScan.AsWritten)
      ensures !old(closed) && Valid() && initial == [] && written != [] && Inverse(codec)
              && LogScan.FitsBlocks(frames, HEADER_SIZE, BLOCK_SIZE) ==>
        result == RowsOf(rows, written) && outcome == Finished
    {
      result, outcome := ScanDetached();
      closed := true;
    }

    /** `keys()`: the keys of `key_dir` in insertion order, none repeated. */
    function Keys(): (ks: seq<seq<byte>>)
      reads this
      ensures |ks| == |keyDir| && forall i :: 0 <= i < |ks| ==> ks[i] == keyDir[i].0
      ensures Valid() ==> Distinct(ks)
    {
      DictKeys(keyDir)
    }

    /** `len(db)`: the number of keys `keys()` returns. */
    function Len(): (n: nat)
      reads this
      ensures n == |Keys()|
    {
      |keyDir|
    }

    /**
      `db[item]`: for an iterable of keys, `get` of each key in iteration order,
      collected into a list; otherwise `get(item)`. `get` is None where it raises.
     */
    method GetItem<K, D>(item: Item<K>, get: K -> Option<D>) returns (r: Option<Got<D>>)
      ensures item.Single? ==> r == (if get(item.key).Some? then Some(One(get(item.key).value)) else None)
      ensures item.Iterable? ==>
        r == (if GetAll(item.keys, get).Some? then Some(Many(GetAll(item.keys, get).value)) else None)
    {
      match item
      case Single(key) =>
        var doc := get(key);
        if doc.None? {
          return None;
        }
        return Some(One(doc.value));
      case Iterable(keys) =>
        var docs: seq<D> := [];
        var i := 0;
        while i < |keys|
          invariant 0 <= i <= |keys|
          invariant GetAll(keys, get).Some? <==> GetAll(keys[i..], get).Some?
          invariant GetAll(keys[i..], get).Some? ==> GetAll(keys, get).value == docs + GetAll(keys[i..], get).value
        {
          assert keys[i..][1..] == keys[i + 1..];
          var doc := get(keys[i]);
          if doc.None? {
            return None;
          }
          docs := docs + [doc.value];
          i := i + 1;
        }
        assert GetAll(keys[i..], get) == Some([]);
        assert docs + [] == docs;
        return Some(Many(docs));
    }
  }

  /**
    As written, the first scan closes the data file: a second scan raises at
    `seek`, and an `append` after it raises in `os.write`.
   */
  method ScanClosesStore<V(!new)>(collection: string, codec: Codec<V>, record: Incoming<V>)
    returns (second: Scanned<V>, err: Option<AppendError>)
    requires ToBytes(New(CreateClass(PLANET_SCHEMA), IncomingValues(record)), codec).Ok?
    ensures second == Scanned([], ClosedFile)
    ensures err == Some(BadDescriptor)
  {
    var db := new HadroDB(collection, [], codec);
    var rows, outcome := db.Scan();
    rows, outcome := db.Scan();
    second := Scanned(rows, outcome);
    err := db.Append(record);
  }

  /**
    With the reader detached, scanning leaves the store open: two scans in a row
    yield the same, and an `append` after them writes its frame.
   */
  method DetachedScanKeepsStoreOpen<V(!new)>(collection: string, codec: Codec<V>, record: Incoming<V>)
    returns (first: Scanned<V>, second: Scanned<V>, err: Option<AppendError>)
    requires ToBytes(New(CreateClass(PLANET_SCHEMA), IncomingValues(record)), codec).Ok?
    ensures first == second && first.outcome != ClosedFile
    ensures err == None
  {
    var db := new HadroDB(collection, [], codec);
    var rows, outcome := db.ScanDetached();
    first := Scanned(rows, outcome);
    rows, outcome := db.ScanDetached();
    second := Scanned(rows, outcome);
    err := db.Append(record);
  }
}
