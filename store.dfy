/**
  What the two `HadroDB` engines (hadrodb/engine.py and hadro/engine.py) share:
  the paths derived from the collection name, the checks `__init__` makes before
  opening the data file, the hard-coded planet schema, the argument `append`
  accepts, and the block size of the scan.
 */
module Store {
  import opened Results
  import opened Record

  /** `block_size` of the scan: 8 MiB. */
  const BLOCK_SIZE: nat := 8 * 1024 * 1024

  const DATA_SUFFIX: string := "/00000000.data"
  const SCHEMA_SUFFIX: string := "/00000000.schema"

  /** `collection + "/00000000.data"`: the data file inside the collection folder. */
  function DataFileName(collection: string): (name: string)
    ensures |name| == |collection| + |DATA_SUFFIX|
    ensures name[..|collection|] == collection && name[|collection|..] == DATA_SUFFIX
  {
    collection + DATA_SUFFIX
  }

  /** `collection + "/00000000.schema"`: the schema file beside it. */
  function SchemaFileName(collection: string): (name: string)
    ensures |name| == |collection| + |SCHEMA_SUFFIX|
    ensures name[..|collection|] == collection && name[|collection|..] == SCHEMA_SUFFIX
  {
    collection + SCHEMA_SUFFIX
  }

  /** Two collections share a data file only if they are the same collection; likewise for the schema file. */
  lemma FileNamesInjective(a: string, b: string)
    ensures DataFileName(a) == DataFileName(b) ==> a == b
    ensures SchemaFileName(a) == SchemaFileName(b) ==> a == b
  {
    if DataFileName(a) == DataFileName(b) {
      assert a == DataFileName(a)[..|a|];
    }
    if SchemaFileName(a) == SchemaFileName(b) {
      assert a == SchemaFileName(a)[..|a|];
    }
  }

  /** No collection's data file is any collection's schema file. */
  lemma DataFileIsNeverSchemaFile(a: string, b: string)
    ensures DataFileName(a) != SchemaFileName(b)
  {
    var d, s := DataFileName(a), SchemaFileName(b);
    assert d[|d| - 2] == DATA_SUFFIX[|DATA_SUFFIX| - 2] == 't';
    assert s[|s| - 2] == SCHEMA_SUFFIX[|SCHEMA_SUFFIX| - 2] == 'm';
  }

  /** Why `__init__` raises. */
  datatype InitError =
    | TypeError    // `None + "/00000000.data"`: the name is concatenated before it is checked
    | NotAFolder   // a file, not a folder, exists at the collection path

  /**
    The checks of `__init__` before the data file is opened: the data and schema
    paths, or why it raises. `existsAsFile` is what `os.path.exists` and
    `os.path.isdir` report for the collection path.
   */
  function OpenPaths(collection: Option<string>, existsAsFile: bool): (r: Result<(string, string), InitError>)
    ensures collection.None? <==> r == Err(TypeError)
    ensures r == Err(NotAFolder) <==> collection.Some? && existsAsFile
    ensures r.Ok? ==> r.value == (DataFileName(collection.value), SchemaFileName(collection.value))
  {
    match collection
    case None => Err(TypeError)
    case Some(name) =>
      var paths := (DataFileName(name), SchemaFileName(name));
      if existsAsFile then Err(NotAFolder) else Ok(paths)
  }

  /** The schema `__init__` builds its row class from (hadrodb/engine.py and hadro/engine.py alike). */
  const PLANET_SCHEMA: Schema := [
    ("id", FieldSpec("SMALLINT", false)),
    ("planetId", FieldSpec("SMALLINT", false)),
    ("name", FieldSpec("VARCHAR", false)),
    ("gm", FieldSpec("FLOAT", false)),
    ("radius", FieldSpec("FLOAT", false)),
    ("density", FieldSpec("FLOAT", true)),
    ("magnitude", FieldSpec("FLOAT", true)),
    ("albedo", FieldSpec("FLOAT", true))
  ]

  const PLANET_FIELDS: seq<string> := ["id", "planetId", "name", "gm", "radius", "density", "magnitude", "albedo"]

  lemma PlanetFieldsDistinct()
    ensures Distinct(PLANET_FIELDS)
  {
    // the eight names already differ in their first letter
    var initials := ['i', 'p', 'n', 'g', 'r', 'd', 'm', 'a'];
    assert forall k :: 0 <= k < |PLANET_FIELDS| ==> PLANET_FIELDS[k][0] == initials[k];
    forall i, j | 0 <= i < j < |PLANET_FIELDS|
      ensures PLANET_FIELDS[i] != PLANET_FIELDS[j]
    {
      assert initials[i] != initials[j];
    }
  }

  /** The planet schema is a dict, and its row class has its eight names as fields, in declared order. */
  lemma PlanetRowClass()
    ensures IsDict(PLANET_SCHEMA)
    ensures CreateClass(PLANET_SCHEMA).fields == PLANET_FIELDS
  {
    assert forall k :: 0 <= k < |PLANET_SCHEMA| ==> Names(PLANET_SCHEMA)[k] == PLANET_FIELDS[k];
    PlanetFieldsDistinct();
  }

  /**
    The argument of `append`: a dict (name to value, in insertion order) or any
    sequence of values. `entries` stands for a Python dict, so its keys are
    distinct; `IncomingValues` does not depend on that.
   */
  datatype Incoming<V> = FromDict(entries: seq<(string, V)>) | FromSequence(items: seq<V>)

  /**
    The values `append` makes its row of: a dict's values in insertion order (its
    keys are not compared with the schema), a sequence as it is.
   */
  function IncomingValues<V>(record: Incoming<V>): (values: seq<V>)
    ensures record.FromSequence? ==> values == record.items
    ensures record.FromDict? ==>
      |values| == |record.entries| && forall i :: 0 <= i < |values| ==> values[i] == record.entries[i].1
  {
    match record
    case FromDict(entries) => DictValues(entries)
    case FromSequence(items) => items
  }
}
