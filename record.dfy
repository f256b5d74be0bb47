/**
  The row type of hadrodb/record.py: a tuple of values whose class carries the
  field names of a schema, its MessagePack payload framed for the data file, and
  the column-to-row transpose of an Arrow table.
 */
module Record {
  import opened Results
  import opened Bytes

  /**
    `packb` and `unpackb` of the MessagePack library, which is not part of this
    model. `pack` is None where `packb` raises (a value it cannot serialise);
    `unpack` is None where `unpackb` raises or gives something that is not a sequence.
   */
  datatype Codec<!V> = Codec(pack: seq<V> -> Option<seq<byte>>, unpack: seq<byte> -> Option<seq<V>>)

  /** The library's promise: unpacking what was packed gives the same values back. */
  ghost predicate Inverse<V(!new)>(c: Codec<V>) {
    forall vs :: c.pack(vs).Some? ==> c.unpack(c.pack(vs).value) == Some(vs)
  }

  /** One entry of a schema: `{"type": ..., "nullable": ...}`. */
  datatype FieldSpec = FieldSpec(typeName: string, nullable: bool)

  /**
    A schema is a Python dict from field name to its spec, in declaration order;
    `IsDict` says no name is repeated.
   */
  type Schema = seq<(string, FieldSpec)>

  ghost predicate Distinct<T>(s: seq<T>) {
    forall i, j :: 0 <= i < j < |s| ==> s[i] != s[j]
  }

  /** The names of a schema; a dict never holds a key twice. */
  function Names(schema: Schema): (names: seq<string>)
    ensures |names| == |schema|
    ensures forall i :: 0 <= i < |schema| ==> names[i] == schema[i].0
  {
    seq(|schema|, i requires 0 <= i < |schema| => schema[i].0)
  }

  ghost predicate IsDict(schema: Schema) {
    Distinct(Names(schema))
  }

  /** The class `create_class` builds: `_fields` and `_schema`. */
  datatype RowClass = RowClass(fields: seq<string>, schema: Schema)

  /** A row: an immutable tuple of values, an instance of a row class. */
  datatype Row<V> = Row(cls: RowClass, values: seq<V>)

  /** `Row.create_class(schema)`: `_fields` are the schema's keys in declared order. */
  function CreateClass(schema: Schema): (cls: RowClass)
    ensures cls.schema == schema
    ensures cls.fields == Names(schema)
  {
    RowClass(Names(schema), schema)
  }

  /** A class built from a dict schema has one field per schema entry, none repeated. */
  lemma CreateClassFields(schema: Schema)
    requires IsDict(schema)
    ensures Distinct(CreateClass(schema).fields)
    ensures |CreateClass(schema).fields| == |schema|
    ensures forall i :: 0 <= i < |schema| ==> CreateClass(schema).fields[i] == schema[i].0
  {
  }

  /** `cls(data)`: `Row.__new__` makes a tuple of `data`; the schema check is not performed. */
  function New<V>(cls: RowClass, data: seq<V>): (row: Row<V>)
    ensures row.cls == cls && row.values == data
  {
    Row(cls, data)
  }

  /** `row.values`: the row's elements as a plain tuple, same elements in the same order. */
  function Values<V>(row: Row<V>): (t: seq<V>)
    ensures |t| == |row.values|
    ensures forall i :: 0 <= i < |t| ==> t[i] == row.values[i]
  {
    row.values
  }

  /**
    `row.as_dict`: field names zipped with the values, stopping at the shorter of
    the two. The fields are the keys of a dict schema, so none repeats and every
    pair is an entry of its own.
   */
  function AsDict<V>(row: Row<V>): (d: seq<(string, V)>)
    requires Distinct(row.cls.fields)
    ensures |d| == Min(|row.cls.fields|, |row.values|)
    ensures forall i :: 0 <= i < |d| ==> d[i] == (row.cls.fields[i], row.values[i])
  {
    Zip(row.cls.fields, row.values)
  }

  function Zip<K, V>(ks: seq<K>, vs: seq<V>): (d: seq<(K, V)>)
    ensures |d| == Min(|ks|, |vs|)
    ensures forall i :: 0 <= i < |d| ==> d[i] == (ks[i], vs[i])
  {
    if ks == [] || vs == [] then [] else [(ks[0], vs[0])] + Zip(ks[1..], vs[1..])
  }

  /** The value a dict (an association list without repeated keys) holds for `k`. */
  function Lookup<K(==), V>(d: seq<(K, V)>, k: K): (r: Option<V>)
  {
    if d == [] then None else if d[0].0 == k then Some(d[0].1) else Lookup(d[1..], k)
  }

  function DictValues<K, V>(d: seq<(K, V)>): (vs: seq<V>)
    ensures |vs| == |d|
    ensures forall i :: 0 <= i < |d| ==> vs[i] == d[i].1
  {
    if d == [] then [] else [d[0].1] + DictValues(d[1..])
  }

  function DictKeys<K, V>(d: seq<(K, V)>): (ks: seq<K>)
    ensures |ks| == |d|
    ensures forall i :: 0 <= i < |d| ==> ks[i] == d[i].0
  {
    if d == [] then [] else [d[0].0] + DictKeys(d[1..])
  }

  lemma {:induction false} LookupAt<K, V>(d: seq<(K, V)>, i: nat)
    requires i < |d| && Distinct(DictKeys(d))
    ensures Lookup(d, d[i].0) == Some(d[i].1)
  {
    if i > 0 {
      assert DictKeys(d)[0] != DictKeys(d)[i];
      assert DictKeys(d[1..]) == DictKeys(d)[1..];
      LookupAt(d[1..], i - 1);
    }
  }

  /** When there are as many values as fields, `as_dict` has the fields as keys and the values as values. */
  lemma AsDictKeysAndValues<V>(row: Row<V>)
    requires Distinct(row.cls.fields) && |row.cls.fields| == |row.values|
    ensures DictKeys(AsDict(row)) == row.cls.fields
    ensures DictValues(AsDict(row)) == row.values
  {
    var d := AsDict(row);
    assert forall i :: 0 <= i < |d| ==> DictKeys(d)[i] == row.cls.fields[i];
    assert forall i :: 0 <= i < |d| ==> DictValues(d)[i] == row.values[i];
  }

  /**
    `as_dict` of a row whose class came from a dict schema and whose arity matches
    it is a lossless view: its keys are the schema's names, its values are
    `values`, and looking up the i-th name gives the i-th value.
   */
  lemma AsDictIsLosslessView<V>(schema: Schema, data: seq<V>)
    requires IsDict(schema) && |data| == |schema|
    ensures DictKeys(AsDict(New(CreateClass(schema), data))) == Names(schema)
    ensures DictValues(AsDict(New(CreateClass(schema), data))) == Values(New(CreateClass(schema), data))
    ensures forall i :: 0 <= i < |schema| ==>
      Lookup(AsDict(New(CreateClass(schema), data)), schema[i].0) == Some(data[i])
  {
    var row := New(CreateClass(schema), data);
    var d := AsDict(row);
    AsDictKeysAndValues(row);
    forall i | 0 <= i < |schema|
      ensures Lookup(d, schema[i].0) == Some(data[i])
    {
      LookupAt(d, i);
    }
  }

  datatype AttrError = CannotSetAttribute | CannotDeleteAttribute

  /** `row.name = value`: always raises; a row is never changed in place. */
  function SetAttr<V>(row: Row<V>, name: string, value: V): (r: Result<Row<V>, AttrError>)
    ensures r.Err? && r.error == CannotSetAttribute
  {
    Err(CannotSetAttribute)
  }

  /** `del row.name`: always raises. */
  function DelAttr<V>(row: Row<V>, name: string): (r: Result<Row<V>, AttrError>)
    ensures r.Err? && r.error == CannotDeleteAttribute
  {
    Err(CannotDeleteAttribute)
  }

  /** Why `to_bytes` raises: `packb` refused a value, or the payload length needs more than 4 bytes. */
  datatype EncodeError = PackFailed | SizeOverflow

  /**
    `row.to_bytes()`: the flag byte 0, the payload length as four big-endian
    bytes, then the MessagePack payload of the row's values.
   */
  function ToBytes<V>(row: Row<V>, c: Codec<V>): (r: Result<seq<byte>, EncodeError>)
    ensures c.pack(row.values).None? <==> r == Err(PackFailed)
    ensures c.pack(row.values).Some? ==>
      var payload := c.pack(row.values).value;
      && (r == Err(SizeOverflow) <==> |payload| >= U32_LIMIT)
      && (r.Ok? ==>
            && |r.value| == 5 + |payload|
            && r.value[0] == 0
            && FromBigEndian(r.value[1..5]) == |payload|
            && r.value[5..] == payload)
  {
    match c.pack(row.values)
    case None => Err(PackFailed)
    case Some(payload) =>
      if |payload| >= U32_LIMIT then Err(SizeOverflow)
      else
        var out := [0 as byte] + U32Bytes(|payload|) + payload;
        assert out[1..5] == U32Bytes(|payload|);
        Ok(out)
  }

  /** `cls.from_bytes(data)`: a row of `cls` holding the unpacked values, or None where `unpackb` raises. */
  function FromBytes<V>(cls: RowClass, data: seq<byte>, c: Codec<V>): (r: Option<Row<V>>)
    ensures r.Some? <==> c.unpack(data).Some?
    ensures r.Some? ==> r.value.cls == cls && r.value.values == c.unpack(data).value
  {
    match c.unpack(data)
    case None => None
    case Some(fields) => Some(New(cls, fields))
  }

  /** Stripping the 5-byte header from `to_bytes(r)` and calling `from_bytes` gives `r` back. */
  lemma FromBytesInvertsToBytes<V(!new)>(row: Row<V>, c: Codec<V>)
    requires Inverse(c) && ToBytes(row, c).Ok?
    ensures FromBytes(row.cls, ToBytes(row, c).value[5..], c) == Some(row)
  {
    assert c.pack(row.values).Some?;
  }

  /**
    An Arrow table as `table_to_tuples` reads it: the schema's column names in
    order, each name's column, and the row count. `as_py` is taken as the identity.
   */
  datatype Table<V> = Table(names: seq<string>, columns: map<string, seq<V>>, numRows: nat)

  /** What Arrow guarantees of a table: every named column exists and has `num_rows` entries. */
  ghost predicate WellFormed<V>(t: Table<V>) {
    forall j :: 0 <= j < |t.names| ==> t.names[j] in t.columns && |t.columns[t.names[j]]| == t.numRows
  }

  /** `table_to_tuples(table)`: tuple i holds each column's i-th value, columns in schema order. */
  function TableToTuples<V>(t: Table<V>): (rows: seq<seq<V>>)
    requires WellFormed(t)
    ensures |rows| == t.numRows
    ensures forall i :: 0 <= i < |rows| ==> |rows[i]| == |t.names|
    ensures forall i, j :: 0 <= i < |rows| && 0 <= j < |t.names| ==>
      rows[i][j] == t.columns[t.names[j]][i]
  {
    seq(t.numRows, i requires 0 <= i < t.numRows =>
      seq(|t.names|, j requires 0 <= j < |t.names| => t.columns[t.names[j]][i]))
  }

  /** The j-th entry of every row. */
  function Column<V>(rows: seq<seq<V>>, j: nat): (col: seq<V>)
    requires forall i :: 0 <= i < |rows| ==> j < |rows[i]|
    ensures |col| == |rows|
  {
    if rows == [] then [] else [rows[0][j]] + Column(rows[1..], j)
  }

  lemma {:induction false} ColumnAt<V>(rows: seq<seq<V>>, j: nat, i: nat)
    requires forall k :: 0 <= k < |rows| ==> j < |rows[k]|
    requires i < |rows|
    ensures Column(rows, j)[i] == rows[i][j]
  {
    if i > 0 {
      ColumnAt(rows[1..], j, i - 1);
    }
  }

  /** Reading column j back out of the tuples gives the table's column j: the transpose loses nothing. */
  lemma TableToTuplesTransposes<V>(t: Table<V>, j: nat)
    requires WellFormed(t) && j < |t.names|
    ensures Column(TableToTuples(t), j) == t.columns[t.names[j]]
  {
    var rows := TableToTuples(t);
    forall i | 0 <= i < |rows|
      ensures Column(rows, j)[i] == t.columns[t.names[j]][i]
    {
      ColumnAt(rows, j, i);
    }
  }
}
