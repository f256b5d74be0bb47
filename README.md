# HadroDB data file, in Dafny

A model of the storage core of HadroDB, an experimental append-only store.

Each `append` turns a record into a `Row` and writes the row's `to_bytes` to the end of one data file, `<collection>/00000000.data`. That frame is a flag byte of 0, the payload length as a 4-byte big-endian unsigned integer, and the MessagePack payload.

`scan` reads the file from offset 0. For each frame it:
- reads the 5-byte header;
- reads the payload, reassembling it in chunks when it crosses an 8 MiB block;
- yields `from_bytes` of the payload when the deleted bit (bit 0 of the flags) is clear.

It stops on an empty header read or a size of 0.

The project covers both copies of the engine: `hadrodb/engine.py`, which uses the `Row` of `hadrodb/record.py`, and `hadro/engine.py`, which uses orso's `Row`.

Modules, one per file:

- `Results` (results.dfy): `Option` and `Result`, which stand for Python exceptions.
- `Bytes` (bytes.dfy): bytes, byte counts (`Min`, `Max`) and big-endian unsigned integers. This is `int.to_bytes(4, "big")` and the `I` of `struct.unpack(">BI", ...)`.
- `Record` (record.dfy): `Row` and its class.
  - The MessagePack library is a `Codec`, a pair of functions.
  - `Inverse(c)` is the hypothesis that `unpackb` undoes `packb`.
- `Frame` (frame.dfy): the frame header, frames, the byte image `Log` of a sequence of frames, and `DecodeLive`. `DecodeLive` is the reference meaning of a scan: the decoded live payloads, in file order.
- `LogScan` (scan.dfy): the scan loop.
  - `Scan` is a function, the scan as a value.
  - `ScanLog` is the loop itself, a method with loop invariants, proved to compute `Scan`.
  - `io.BufferedReader.read(n)` is modelled by its contract: exactly `min(n, left)` bytes for `n >= 0`, where `left` is what remains of the file, everything left for -1, and ValueError below -1. The block size is a parameter.
  - Each definition takes a `Variant`. `AsWritten` is the source's scan. `Corrected` is the scan with the first three faults under "## Findings" repaired.
- `Store` (store.dfy): what the two engines share. This is the file names, the checks of `__init__`, the planet schema, the argument of `append` and the block size.
- `HadrodbEngine` (hadrodb_engine.dfy): the `HadroDB` class of `hadrodb/engine.py`. The data file is a field `file`. `append` and `_write` extend it and `scan` reads it; `keys` and `__len__` read `key_dir`, and `__getitem__` calls `get`.
- `HadroEngine` (hadro_engine.dfy): the `HadroDB` class of `hadro/engine.py`, with orso's row as an opaque encoder and decoder.

Behaviour of the code worth knowing:
- A trailing header shorter than 5 bytes reaches `struct.unpack` and raises `struct.error` (`Outcome.StructError`).
- Scanning an empty data file raises `struct.error` on the first header.
- The `io.BufferedReader` that `scan` wraps around the data file closes that file once the scan is over, so the store cannot scan or append again (`Outcome.ClosedFile`, see "## Findings").
- `append` does not compare a dict's keys with the schema. It takes the dict's values in insertion order.
- `__init__` builds the file names from `collection` before it checks it against `None`. So a missing collection raises `TypeError` (`None + str`), never the `ValueError` the check was written for.

## Model

| member | source | states |
|---|---|---|
| Bytes.U32Bytes | hadrodb/record.py:63 | `n.to_bytes(4, "big")` for `n < 2^32` is four bytes that decode back to `n` |
| Bytes.FromBigEndianBound | hadrodb/engine.py:146 | the unsigned big-endian value of `k` bytes is below `256^k` |
| Bytes.BigEndianRoundTrip | hadrodb/record.py:63 | a value that fits in `width` bytes, written big-endian and read back, is unchanged |
| Bytes.FromBigEndianRoundTrip | hadrodb/engine.py:146 | reading bytes as a big-endian integer and writing it back in as many bytes gives the same bytes |
| Bytes.FromU32Bytes | hadrodb/engine.py:146 | any four size bytes read as an `I` below 2^32, and `to_bytes(4, "big")` of that value gives the same four bytes |
| Record.CreateClass | hadrodb/record.py:65-70 | the class's `_fields` are the schema's keys in declared order, and `_schema` is the schema |
| Record.CreateClassFields | hadrodb/record.py:65-70 | for a dict schema the class has one field per entry, the i-th field is the i-th key, and no field is repeated |
| Record.New | hadrodb/record.py:30-33 | `cls(data)` is a row of `cls` holding exactly `data`; the schema is not checked |
| Record.Values | hadrodb/record.py:39-41 | `values` has the row's elements, same length, same order |
| Record.AsDict | hadrodb/record.py:35-37 | `as_dict` pairs the i-th field name with the i-th value and stops at the shorter of the two (`zip`) |
| Record.AsDictKeysAndValues | hadrodb/record.py:35-37 | with as many values as fields, `as_dict`'s keys are the fields and its values are the row's values |
| Record.AsDictIsLosslessView | hadrodb/record.py:35-41 | for a row of a dict schema with matching arity, `as_dict`'s keys are the schema's names and its values are `values`; looking up the i-th name gives the i-th value |
| Record.SetAttr | hadrodb/record.py:49-50 | setting any attribute raises AttributeError; no row is produced |
| Record.DelAttr | hadrodb/record.py:52-53 | deleting any attribute raises AttributeError; no row is produced |
| Record.ToBytes | hadrodb/record.py:60-63 | `to_bytes` raises exactly when `packb` raises or the payload needs 2^32 bytes or more; otherwise it is `5 + len(payload)` bytes: flag 0, the big-endian length, then the payload |
| Record.FromBytes | hadrodb/record.py:55-58 | `from_bytes` gives a row exactly when `unpackb` succeeds, and that row is of the calling class and holds the unpacked values |
| Record.FromBytesInvertsToBytes | hadrodb/record.py:55-63 | when `unpackb` inverts `packb`, `from_bytes` of `to_bytes(row)` without its 5-byte header is `row` |
| Record.TableToTuples | hadrodb/record.py:17-23 | `num_rows` tuples, each as wide as the schema, tuple i holding each named column's i-th value in schema order |
| Record.TableToTuplesTransposes | hadrodb/record.py:17-23 | reading column j back out of the tuples gives the table's column j: the transpose loses nothing |
| Frame.DecodeHeader | hadrodb/engine.py:145-146 | `struct.unpack(">BI", h)` succeeds exactly on 5 bytes, and its flags and size re-encode to those bytes |
| Frame.HeaderRoundTrip | hadrodb/engine.py:146 | unpacking an encoded header gives back its flags and size |
| Frame.ToBytesIsFrame | hadrodb/record.py:60-63 | what `to_bytes` writes is exactly the encoding of one live frame (flags 0) holding the packed values |
| Frame.LogAppend | hadrodb/engine.py:177-182 | appending a frame to a file of frames appends exactly its encoding to the file's bytes |
| Frame.PackedLogAppend | hadrodb/engine.py:129-135 | after a successful `to_bytes`, the file gains one live frame of the packed values and exactly the bytes `to_bytes` returned |
| Frame.DecodeLiveUnpacked | hadrodb/engine.py:167-168 | when every frame is live and unpacks to the values written, the decoded rows are one row per written value sequence, in order |
| LogScan.ReadCount | hadrodb/engine.py:154 | `read(n)` returns a prefix of what is left: `min(n, left)` bytes for `n >= 0`, and everything left for -1 |
| LogScan.LastChunk | hadrodb/engine.py:156-161 | the last chunk of the reassembly loop is non-empty, no longer than a block and no longer than what was owed |
| LogScan.LastChunkValue | hadrodb/engine.py:158-161 | the `block_start` the loop leaves is what is owed less the whole blocks read before the last chunk |
| LogScan.ReadPayload | hadrodb/engine.py:150-165 | reading one payload, crossing the block or not, ends as `Gather` says, and the bytes read are the next `count` bytes of the file |
| LogScan.ReadAcross | hadrodb/engine.py:152-161 | the reassembly loop ends as `GatherAcross` says: with the bytes owed gathered, the new `block_start` the last chunk's length, or spinning at the end of the file |
| LogScan.ReadRecord | hadrodb/engine.py:150-168 | reading and decoding one record either ends the scan with the outcome `ScanFrom` gives, or leaves it at the next header position, having consumed the bytes the payload read gathered and set `block_start` as that read does |
| LogScan.ScanRecord | hadrodb/engine.py:150-175 | one pass of the loop body either ends the scan as `ScanFrom` does, or moves strictly forward to the next header, with `block_start` the payload read's new value plus 5 |
| LogScan.ScanLog | hadrodb/engine.py:137-175 | the scan loop from offset 0 yields exactly the rows of `Scan` and ends the way `Scan` does |
| LogScan.ScanNextHeader | hadrodb/engine.py:171-175 | after a payload, an empty header read ends the scan cleanly, a short header raises struct.error, and a whole header continues with `block_start + 5` |
| LogScan.GatherReassembles | hadrodb/engine.py:150-165 | on a file holding the payload, the read gathers exactly `size` bytes iff `block_start <= block_size`; a fitting record moves `block_start` by `size`; past the block it spins (count -1) or raises (count below -1) |
| LogScan.CorrectedGatherReassembles | hadrodb/engine.py:150-165 | the corrected read gathers exactly `size` bytes whatever `block_start` is |
| LogScan.ScanFromFrames | hadrodb/engine.py:149-175 | from the header of a well-formed frame on, the scan yields what `DecodeLive` yields |
| LogScan.ScanNextFrames | hadrodb/engine.py:167-175 | after a payload that yielded `out`, the rest of the scan is `out` followed by `DecodeLive` of the remaining frames |
| LogScan.ScanYieldsLiveFrames | hadrodb/engine.py:137-175 | a file of well-formed frames whose block bookkeeping holds scans to the decoded payloads of exactly its live frames, in file order, ending cleanly or with struct.error on a short trailing header |
| LogScan.CorrectedScanYieldsLiveFrames | hadrodb/engine.py:137-175 | the corrected scan yields the live frames of any well-formed file (the empty one included), for every block size |
| LogScan.EmptyLogRaises | hadrodb/engine.py:145-146 | scanning an empty file raises struct.error at the first header; the corrected scan ends cleanly |
| LogScan.NearFullBlockBreaksScan | hadrodb/engine.py:150-175 | a first frame ending in the last five bytes of a block yields its row, then the next record spins (`read(-1)`) or raises ValueError |
| LogScan.LogWithinOneBlockFits | hadrodb/engine.py:150-165 | a data file no longer than one block never trips the block bookkeeping |
| LogScan.ScanReturnsAppendedRows | hadrodb/engine.py:120-175 | a file of appended rows scans back to those rows in append order (under the block bookkeeping); an empty one raises struct.error; the corrected scan returns them for any block size |
| LogScan.CorrectedGatherEnds | hadrodb/engine.py:150-161 | the corrected payload read never raises and never spins |
| LogScan.CorrectedScanNeverHangs | hadrodb/engine.py:149-175 | the corrected scan ends on every file: it never hangs and never passes `read` a count below -1 |
| LogScan.TruncatedCrossingRecordHangs | hadrodb/engine.py:156-161 | a record cut short by the end of the file whose size crosses the block makes the scan spin forever; the corrected scan ends cleanly |
| Store.DataFileName | hadrodb/engine.py:81 | the data file is the collection name followed by `/00000000.data` |
| Store.SchemaFileName | hadrodb/engine.py:82 | the schema file is the collection name followed by `/00000000.schema` |
| Store.FileNamesInjective | hadrodb/engine.py:81-82 | two collections share a data file, or a schema file, only if they are the same collection |
| Store.DataFileIsNeverSchemaFile | hadro/engine.py:83-84 | no collection's data file is any collection's schema file |
| Store.OpenPaths | hadrodb/engine.py:80-91 | `__init__` raises TypeError exactly when the collection is None, raises when the collection path is a file, and otherwise uses the two derived paths |
| Store.PlanetRowClass | hadrodb/engine.py:107-118 | the hard-coded schema is a dict, and its row class has the eight field names in declared order |
| Store.IncomingValues | hadrodb/engine.py:121-124 | a dict argument becomes its values in insertion order; any other argument is taken as it is |
| HadrodbEngine.GetAll | hadrodb/engine.py:239-244 | the list of `get` results exists iff `get` succeeds on every key, and then holds one result per key, in iteration order |
| HadrodbEngine.AppendedAppend | hadrodb/engine.py:129-135 | appending `to_bytes` keeps the file equal to its opening contents plus the frames written, with `write_position` their total length |
| HadrodbEngine.HadroDB.constructor | hadrodb/engine.py:76-118 | a new store has the derived file names, the planet row class, `write_position` 0, an empty `key_dir`, and the file as it was |
| HadrodbEngine.HadroDB.Write | hadrodb/engine.py:177-182 | `_write` appends exactly `data` to the end of the file, and fails leaving it unchanged once the file is closed |
| HadrodbEngine.HadroDB.Append | hadrodb/engine.py:120-135 | `append` writes `to_bytes` of the row made from the record's values and advances `write_position` by its length; where `to_bytes` raises, or the file is closed, nothing changes; `key_dir` is untouched |
| HadrodbEngine.HadroDB.ScanDetached | hadrodb/engine.py:137-175 | with the reader detached: on a closed file, the error of `seek`; otherwise the scan of the file's bytes from offset 0, which on a file this store created raises struct.error when empty and otherwise returns the appended rows in order, under the block bookkeeping |
| HadrodbEngine.HadroDB.Scan | hadrodb/engine.py:137-175 | `scan` as written yields what `ScanDetached` yields and leaves the file closed, since the `io.BufferedReader` of line 143 closes it |
| HadrodbEngine.ScanClosesStore | hadrodb/engine.py:137-143 | on a new store, a second scan raises at `seek` and a later `append` fails to write |
| HadrodbEngine.DetachedScanKeepsStoreOpen | hadrodb/engine.py:137-143 | with the reader detached, two scans in a row agree, neither meets a closed file, and a later `append` succeeds |
| HadrodbEngine.HadroDB.Keys | hadrodb/engine.py:224-225 | `keys()` is the `key_dir` keys in insertion order, none repeated |
| HadrodbEngine.HadroDB.Len | hadrodb/engine.py:248-249 | `len(db)` is the number of keys `keys()` returns |
| HadrodbEngine.HadroDB.GetItem | hadrodb/engine.py:238-246 | for an iterable, one `get` result per key in iteration order, failing if any `get` fails; otherwise `get(item)` |
| HadroEngine.RecordIsFrame | hadro/engine.py:147-148 | a record laid out as one live frame is exactly the encoding of that frame |
| HadroEngine.RecordsAreLog | hadro/engine.py:131-137 | records that are live frames concatenate to the bytes of their frames, and each frame's payload decodes to its values |
| HadroEngine.HadroDB.constructor | hadro/engine.py:80-120 | a new store has the derived file names, the row class, `write_position` 0, an empty `key_dir`, and the file as it was |
| HadroEngine.HadroDB.Write | hadro/engine.py:179-184 | `_write` appends exactly `data` to the end of the file, and fails leaving it unchanged once the file is closed |
| HadroEngine.HadroDB.Append | hadro/engine.py:122-137 | `append` writes orso's `to_bytes` of the record's values and advances `write_position` by its length; where it raises, or the file is closed, nothing changes |
| HadroEngine.HadroDB.ScanDetached | hadro/engine.py:139-177 | with the reader detached: on a closed file, the error of `seek`; otherwise the scan of the file's bytes from offset 0, which on a file this store created raises struct.error when empty and otherwise, when orso writes frames, returns the appended rows in order |
| HadroEngine.HadroDB.Scan | hadro/engine.py:139-177 | `scan` as written yields what `ScanDetached` yields and leaves the file closed, since the `io.BufferedReader` of line 145 closes it |

## Left out

- File-system I/O is not modelled: `open`, `os.makedirs`, `os.fsync` and the `WRITE_CONSISTENCY` branch. Of `close`, only its effect is kept: a boolean `closed`, after which `seek` and `os.write` fail. `os.write` is taken to write all its bytes. The file is a byte sequence that `_write` extends.
- `Store.OpenPaths`: `os.path.exists`/`os.path.isdir` are one boolean parameter.
- The store objects are created once those checks have passed, from the file's existing bytes.
- `_init_key_dir` is not modelled. Its call is commented out, and it uses names that do not exist in the module (`HEADER_SIZE`, `decode_header`, `KeyEntry`).
- Nothing in the shown code inserts into `key_dir`, so the model only reads it.
- `get`, `set` and `delete` are not defined in these files. `__setitem__`, which only delegates to `set`, is not modelled.
- `HadrodbEngine.HadroDB.Append`: a record that is neither a dict nor iterable makes `self.rows(_record)` raise TypeError in `tuple.__new__` before anything is written. `Store.Incoming` cannot express such a record, so that error path is not modelled.
- `HadrodbEngine.HadroDB.GetItem` takes `get` as a function parameter, with None where it raises. In the source, `self.get` does not exist, so the call would raise `AttributeError`.
- The MessagePack library (`packb`, `unpackb`) is not re-implemented. It is a pair of functions, and `Inverse` is the hypothesis that one undoes the other.
- orso's `Row.create_class` is not part of this model. `HadroEngine.HadroDB.constructor` takes it to build the same class as `hadrodb/record.py` does: the schema's keys in declared order.
- orso's `Row` is not part of this model. `HadroEngine.HadroDB.Scan` recovers the appended rows only under the hypothesis `OrsoFrames`: orso's `to_bytes` writes one live frame in the layout of `hadrodb/record.py`, and its `from_bytes` decodes that frame's payload.
- `HadrodbEngine.HadroDB.Scan` returns the appended rows only when `LogScan.FitsBlocks` holds. Without it the source's scan can raise or hang (see "## Findings"). The same condition applies to `LogScan.ScanYieldsLiveFrames` and `HadroEngine.HadroDB.Scan`.
- `scan` is a generator. The model collects its yields into a sequence, together with how the scan ended. Rows yielded before an exception or a hang are kept in the result.
- The `columns` and `predicates` arguments of `scan` are unused in the source and not modelled.
- `io.BufferedReader` internals beyond the `read(n)` contract are not modelled, nor are pyarrow's `Table` (a names/columns/row-count record) and `as_py` (the identity).
- `Record.AsDict` requires distinct field names. A class made from a dict schema always has them, so no call in the source is excluded. What a dict comprehension does with a repeated key (the later value overwrites the earlier one) is not modelled.
- `Record.TableToTuples`: a `Table` is a map from column names, so it cannot hold two columns of the same name. For a schema that repeats a name, pyarrow's `table.column(name)` raises KeyError; the model does not capture that error.
- The time at which CPython finalizes the `io.BufferedReader` of `scan` is not modelled. `HadrodbEngine.HadroDB.Scan` and `HadroEngine.HadroDB.Scan` close the file when the scan ends.
- Values are opaque (`V`). The `FLOAT` and `SMALLINT` types of the schema are only names, and floating point is not modelled.
- Logging, `print`, `__repr__` and `__str__` are not modelled.
- Concurrent writers and readers of the same file are not modelled.

## Findings

| source | as written | input that shows it | evidently intended | confidence | as-written member | corrected member |
|---|---|---|---|---|---|---|
| hadrodb/engine.py:175 | after a frame ending in the last five bytes of a block, `block_start += 5` passes `block_size`, and the next crossing read gets `block_size - block_start < 0` (lines 150-156) | block size 8388608, first payload of 8388600 bytes, then any record: `read(-2)` raises ValueError (a first payload of 8388599 bytes gives `read(-1)`, which reads to the end, and the loop spins) | read no more than is left of the block, never a negative count, and yield every record | not executed | LogScan.NearFullBlockBreaksScan | LogScan.CorrectedScanYieldsLiveFrames |
| hadrodb/engine.py:145-146 | the first header is unpacked without checking the read returned anything | an empty data file (a new collection before any `append`): `struct.unpack` of 0 bytes raises struct.error | an empty file scans to nothing | not executed | LogScan.EmptyLogRaises | LogScan.CorrectedScanYieldsLiveFrames |
| hadrodb/engine.py:156-161 | when the file ends before a crossing record's payload does, `read` returns 0 bytes, `remaining_size` never shrinks and the loop never ends | a header declaring 8388608 bytes followed by only 10 payload bytes | stop at the end of the file | not executed | LogScan.TruncatedCrossingRecordHangs | LogScan.CorrectedScanNeverHangs |
| hadrodb/engine.py:143 | `io.BufferedReader(self.file, block_size)` takes ownership of `self.file`; when the reader is finalized after the scan, it closes the file | on a new store, `list(db.scan())` twice: the second raises ValueError at `seek` (line 139); an `append` after the scan fails in `os.write` (line 182) with EBADF | the scan leaves the store open (the reader detached, or the file not wrapped) | not executed | HadrodbEngine.ScanClosesStore | HadrodbEngine.DetachedScanKeepsStoreOpen |

The same four faults are in hadro/engine.py:139-177, whose scan is the same code; `HadroEngine.HadroDB.Scan` closes the file as written and `HadroEngine.HadroDB.ScanDetached` is the corrected scan.
