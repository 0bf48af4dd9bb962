/** What an Idefix dump dataset derives from the two dicts of the dump read
    (`IdefixDmpDataset._parse_parameter_file` in
    yt_idefix/data_structures.py): the physical fields found, the domain
    dimensions, the dimensionality and the domain edges. The dataset reads
    the dump with `skip_data` set; the lemmas at the end show that nothing
    it derives depends on the skipped payloads. */
module DumpDataset {
  import opened Results
  import opened ByteReader
  import opened Dicts
  import opened DumpRecords
  import opened DumpWalk
  import Domain

  datatype DatasetError =
    | ReadFailed(cause: DumpError)  // the dump read itself raised
    | KeyError(key: string)      // a name missing from `fprops` or `fdata`
    | NotIndexable(key: string)  // `[0]` or `[-1]` of a scalar, of a skipped payload or of an empty array

  /** `d[key]`. */
  function Lookup<V>(d: Dict<string, V>, key: string): (r: Result<V, DatasetError>)
    ensures r.Err? <==> key !in Keys(d)
    ensures r.Err? ==> r.error == KeyError(key)
    ensures r.Ok? ==> Get(d, key) == Some(r.value)
  {
    match Get(d, key)
    case None => Err(KeyError(key))
    case Some(v) => Ok(v)
  }

  // ---------------------------------------------------------------------
  // Detected fields

  /** `[k for k in names if re.match(r"^V[sc]-", k)]` */
  function FieldNames(names: seq<string>): (r: seq<string>)
    ensures |r| <= |names|
  {
    if |names| == 0 then []
    else (if IsFieldName(names[0]) then [names[0]] else []) + FieldNames(names[1..])
  }

  /** A name is detected exactly when it is a key naming a physical field. */
  lemma {:induction false} FieldNamesMembers(names: seq<string>)
    ensures forall x :: x in FieldNames(names) <==> x in names && IsFieldName(x)
  {
    if |names| > 0 {
      FieldNamesMembers(names[1..]);
      assert names == [names[0]] + names[1..];
    }
  }

  /** Filtering keeps the order of the names: the fields of a concatenation
      are the fields of the first part followed by those of the second. */
  lemma {:induction false} FieldNamesAppend(a: seq<string>, b: seq<string>)
    ensures FieldNames(a + b) == FieldNames(a) + FieldNames(b)
  {
    if |a| > 0 {
      var x, rest := a[0], a[1..];
      assert a == [x] + rest;
      assert a + b == [x] + (rest + b);
      FieldNamesAppend(rest, b);
      FieldNamesCons(x, rest + b);
      FieldNamesCons(x, rest);
      var head := if IsFieldName(x) then [x] else [];
      assert (head + FieldNames(rest)) + FieldNames(b) == head + (FieldNames(rest) + FieldNames(b));
    } else {
      assert a + b == b;
    }
  }

  lemma FieldNamesCons(x: string, xs: seq<string>)
    ensures FieldNames([x] + xs) == (if IsFieldName(x) then [x] else []) + FieldNames(xs)
  {
    assert ([x] + xs)[1..] == xs;
  }

  /** `_detected_field_list`, in the key order of `fprops`. */
  function DetectedFields(fprops: Dict<string, FieldProps>): seq<string> {
    FieldNames(Keys(fprops))
  }

  // ---------------------------------------------------------------------
  // Domain dimensions

  const AXES: seq<string> := ["x1", "x2", "x3"]

  /** `np.concatenate([fprops[k][-1] for k in ("x1", "x2", "x3")])`: the
      extents of the three coordinate records, one after the other; the
      first missing axis raises. */
  function DomainDimensions(fprops: Dict<string, FieldProps>): (r: Result<seq<int>, DatasetError>) {
    var p1 :- Lookup(fprops, AXES[0]);
    var p2 :- Lookup(fprops, AXES[1]);
    var p3 :- Lookup(fprops, AXES[2]);
    Ok(p1.extents + p2.extents + p3.extents)
  }

  /** The dimensions are found exactly when the three axes are keys, and
      hold their extents in axis order; otherwise the first missing axis is
      reported. */
  lemma DomainDimensionsSpec(fprops: Dict<string, FieldProps>)
    ensures DomainDimensions(fprops).Ok? <==> forall a :: a in AXES ==> a in Keys(fprops)
    ensures DomainDimensions(fprops).Ok? ==>
      var dims := DomainDimensions(fprops).value;
      var e1, e2, e3 := Get(fprops, "x1").value.extents, Get(fprops, "x2").value.extents, Get(fprops, "x3").value.extents;
      && |dims| == |e1| + |e2| + |e3|
      && dims[..|e1|] == e1
      && dims[|e1|..|e1| + |e2|] == e2
      && dims[|e1| + |e2|..] == e3
    ensures DomainDimensions(fprops).Err? ==>
      exists i :: 0 <= i < 3 && AXES[i] !in Keys(fprops) && DomainDimensions(fprops).error == KeyError(AXES[i])
        && forall j :: 0 <= j < i ==> AXES[j] in Keys(fprops)
  {
    if DomainDimensions(fprops).Err? {
      if "x1" !in Keys(fprops) {
        assert AXES[0] !in Keys(fprops);
      } else if "x2" !in Keys(fprops) {
        assert AXES[1] !in Keys(fprops);
      } else {
        assert AXES[2] !in Keys(fprops);
      }
    }
  }

  // ---------------------------------------------------------------------
  // Domain edges

  /** `fdata[key][0]`, the first value of a serial array. */
  function FirstValue(fdata: Dict<string, Data>, key: string): (r: Result<seq<byte>, DatasetError>) {
    var d :- Lookup(fdata, key);
    if d.Array? && |d.elements| > 0 then Ok(d.elements[0]) else Err(NotIndexable(key))
  }

  /** `fdata[key][-1]`, the last value of a serial array. */
  function LastValue(fdata: Dict<string, Data>, key: string): (r: Result<seq<byte>, DatasetError>) {
    var d :- Lookup(fdata, key);
    if d.Array? && |d.elements| > 0 then Ok(d.elements[|d.elements| - 1]) else Err(NotIndexable(key))
  }

  /** Only a non-empty array can be indexed; a missing key raises first. */
  lemma EndValuesSpec(fdata: Dict<string, Data>, key: string)
    ensures FirstValue(fdata, key).Ok? <==> LastValue(fdata, key).Ok?
    ensures FirstValue(fdata, key).Ok? <==>
      key in Keys(fdata) && Get(fdata, key).value.Array? && |Get(fdata, key).value.elements| > 0
    ensures key !in Keys(fdata) ==> FirstValue(fdata, key) == Err(KeyError(key)) && LastValue(fdata, key) == Err(KeyError(key))
    ensures FirstValue(fdata, key).Ok? ==>
      var es := Get(fdata, key).value.elements;
      FirstValue(fdata, key).value == es[0] && LastValue(fdata, key).value == es[|es| - 1]
  {
  }

  /** The domain edges: the first left edge and the last right edge of each
      axis, taken from the records `xl1`..`xl3` and `xr1`..`xr3`. The
      values stay the raw words of the file; converting them to float64 is
      not modelled. */
  function LeftEdge(fdata: Dict<string, Data>): Result<seq<seq<byte>>, DatasetError> {
    var l1 :- FirstValue(fdata, "xl1");
    var l2 :- FirstValue(fdata, "xl2");
    var l3 :- FirstValue(fdata, "xl3");
    Ok([l1, l2, l3])
  }

  function RightEdge(fdata: Dict<string, Data>): Result<seq<seq<byte>>, DatasetError> {
    var r1 :- LastValue(fdata, "xr1");
    var r2 :- LastValue(fdata, "xr2");
    var r3 :- LastValue(fdata, "xr3");
    Ok([r1, r2, r3])
  }

  // ---------------------------------------------------------------------
  // The parameters of a dump dataset

  datatype DumpParameters = DumpParameters(
    fields: seq<string>,
    dimensions: seq<int>,
    dimensionality: nat,
    leftEdge: seq<seq<byte>>,
    rightEdge: seq<seq<byte>>,
    time: Data)

  /** The derivations of `_parse_parameter_file`, in its order. */
  function ParseParameters(fprops: Dict<string, FieldProps>, fdata: Dict<string, Data>): Result<DumpParameters, DatasetError> {
    var fields := DetectedFields(fprops);
    var dims :- DomainDimensions(fprops);
    var left :- LeftEdge(fdata);
    var right :- RightEdge(fdata);
    var time :- Lookup(fdata, "time");
    Ok(DumpParameters(fields, dims, Domain.Dimensionality(dims), left, right, time))
  }

  /** The parameters read from a dump file with the given `skip_data`. */
  function DumpParametersOf(f: seq<byte>, skip: bool): Result<DumpParameters, DatasetError> {
    match ReadIdefixDump(f, skip)
    case Err(e) => Err(ReadFailed(e))
    case Ok((fprops, fdata)) => ParseParameters(fprops, fdata)
  }

  /** The parameters are found exactly when the dimensions, both edges and
      the time are; the dimensionality then counts the axes of a non-unit
      extent and the detected fields are the physical-field keys. */
  lemma ParametersSpec(fprops: Dict<string, FieldProps>, fdata: Dict<string, Data>)
    ensures ParseParameters(fprops, fdata).Ok? <==>
      DomainDimensions(fprops).Ok? && LeftEdge(fdata).Ok? && RightEdge(fdata).Ok? && "time" in Keys(fdata)
    ensures ParseParameters(fprops, fdata).Ok? ==>
      var p := ParseParameters(fprops, fdata).value;
      && p.dimensions == DomainDimensions(fprops).value
      && p.dimensionality == |Domain.NonUnitAxes(p.dimensions)|
      && p.leftEdge == LeftEdge(fdata).value && p.rightEdge == RightEdge(fdata).value
      && Get(fdata, "time") == Some(p.time)
      && (forall x :: x in p.fields <==> x in Keys(fprops) && IsFieldName(x))
  {
    if ParseParameters(fprops, fdata).Ok? {
      var p := ParseParameters(fprops, fdata).value;
      Domain.DimensionalityCountsAxes(p.dimensions);
      FieldNamesMembers(Keys(fprops));
    }
  }

  const LEFT_KEYS: seq<string> := ["xl1", "xl2", "xl3"]
  const RIGHT_KEYS: seq<string> := ["xr1", "xr2", "xr3"]

  /** The left edge is found exactly when every `xl` record is a non-empty
      array, and holds the first value of each; the right edge likewise
      holds the last value of each `xr` record. */
  lemma EdgesSpec(fdata: Dict<string, Data>)
    ensures LeftEdge(fdata).Ok? <==> forall i :: 0 <= i < 3 ==> FirstValue(fdata, LEFT_KEYS[i]).Ok?
    ensures RightEdge(fdata).Ok? <==> forall i :: 0 <= i < 3 ==> LastValue(fdata, RIGHT_KEYS[i]).Ok?
    ensures LeftEdge(fdata).Ok? ==>
      && |LeftEdge(fdata).value| == 3
      && forall i :: 0 <= i < 3 ==> LeftEdge(fdata).value[i] == FirstValue(fdata, LEFT_KEYS[i]).value
    ensures RightEdge(fdata).Ok? ==>
      && |RightEdge(fdata).value| == 3
      && forall i :: 0 <= i < 3 ==> RightEdge(fdata).value[i] == LastValue(fdata, RIGHT_KEYS[i]).value
  {
    assert LEFT_KEYS[0] == "xl1" && LEFT_KEYS[1] == "xl2" && LEFT_KEYS[2] == "xl3";
    assert RIGHT_KEYS[0] == "xr1" && RIGHT_KEYS[1] == "xr2" && RIGHT_KEYS[2] == "xr3";
  }

  // ---------------------------------------------------------------------
  // The coordinate records of a dump

  /** Every record that is not a physical field has rank 1: the grid
      records and the other records are read serially. */
  predicate OthersRankOne(es: seq<Entry>) {
    forall i :: 0 <= i < |es| && !IsFieldName(es[i].header.name) ==> Rank(es[i].header) == 1
  }

  lemma OthersRankOneCons(e: Entry, es: seq<Entry>)
    requires IsFieldName(e.header.name) || Rank(e.header) == 1
    requires OthersRankOne(es)
    ensures OthersRankOne([e] + es)
  {
    var r := [e] + es;
    forall i | 0 <= i < |r| && !IsFieldName(r[i].header.name) ensures Rank(r[i].header) == 1 {
      if i > 0 {
        assert r[i] == es[i - 1];
      }
    }
  }

  lemma {:induction false} FieldsOthersRankOne(f: seq<byte>, cur: nat, skip: bool)
    requires ReadFields(f, cur, skip).Ok?
    ensures OthersRankOne(ReadFields(f, cur, skip).value)
    decreases if cur <= |f| then |f| - cur else 0
  {
    if |ReadFields(f, cur, skip).value| > 0 {
      FieldsStep(f, cur, skip);
      var (h, body) := ParseHeader(f, cur).value;
      var (d, next) := ReadPayload(f, body, h, skip).value;
      FieldsOthersRankOne(f, next, skip);
      OthersRankOneCons(Entry(cur, h, d), ReadFields(f, next, skip).value);
    }
  }

  /** In a dump the full read accepts, every record outside the physical
      fields has rank 1. */
  lemma DumpOthersRankOne(f: seq<byte>, skip: bool)
    requires ReadDumpEntries(f, skip).Ok?
    ensures OthersRankOne(ReadDumpEntries(f, skip).value)
  {
    DumpFromParts(f, HEADER_SIZE, GRID_RECORDS, skip);
    var grid := ReadGrid(f, HEADER_SIZE, GRID_RECORDS).value;
    var fields := ReadFields(f, grid.1, skip).value;
    FieldsOthersRankOne(f, grid.1, skip);
    var es := grid.0 + fields;
    forall i | 0 <= i < |es| && !IsFieldName(es[i].header.name) ensures Rank(es[i].header) == 1 {
      if i < |grid.0| {
        assert IsGridEntry(f, grid.0[i]);
      } else {
        assert es[i] == fields[i - |grid.0|];
      }
    }
  }

  /** The properties stored under a name that is not a physical field have
      a single extent. */
  lemma PropsOfOthersRankOne(es: seq<Entry>, key: string)
    requires OthersRankOne(es) && !IsFieldName(key) && key in Keys(PropsDict(es))
    ensures |Get(PropsDict(es), key).value.extents| == 1
  {
    var ps := seq(|es|, j requires 0 <= j < |es| => (es[j].header.name, PropsOf(es[j])));
    var i := FromPairsGetSome(ps, key);
    assert es[i].header.name == key;
  }

  /** With one extent per coordinate record, the domain dimensions are one
      extent per axis, so the dimensionality is at most 3. */
  lemma DimensionsOfLog(es: seq<Entry>)
    requires OthersRankOne(es)
    requires DomainDimensions(PropsDict(es)).Ok?
    ensures var fprops := PropsDict(es);
      var dims := DomainDimensions(fprops).value;
      && |dims| == 3
      && (forall i :: 0 <= i < 3 ==> Get(fprops, AXES[i]).value.extents == [dims[i]])
      && Domain.Dimensionality(dims) <= 3
  {
    DomainDimensionsSpec(PropsDict(es));
    PropsOfOthersRankOne(es, "x1");
    PropsOfOthersRankOne(es, "x2");
    PropsOfOthersRankOne(es, "x3");
  }

  /** In a dump the full read accepts, the domain dimensions are one extent
      per axis, so the dimensionality is at most 3. */
  lemma DumpDimensions(f: seq<byte>, skip: bool)
    requires ReadDumpEntries(f, skip).Ok?
    requires DomainDimensions(PropsDict(ReadDumpEntries(f, skip).value)).Ok?
    ensures var fprops := PropsDict(ReadDumpEntries(f, skip).value);
      var dims := DomainDimensions(fprops).value;
      && |dims| == 3
      && (forall i :: 0 <= i < 3 ==> Get(fprops, AXES[i]).value.extents == [dims[i]])
      && Domain.Dimensionality(dims) <= 3
  {
    DumpOthersRankOne(f, skip);
    DimensionsOfLog(ReadDumpEntries(f, skip).value);
  }

  // ---------------------------------------------------------------------
  // Skipping the payloads changes nothing the dataset derives

  /** `lazy` holds the records of `full` with the same headers, and the
      same payload for every record that is not a physical field. */
  predicate SameOutsideFields(full: seq<Entry>, lazy: seq<Entry>) {
    && |lazy| == |full|
    && forall i :: 0 <= i < |full| ==>
      && lazy[i].header == full[i].header
      && (!IsFieldName(full[i].header.name) ==> lazy[i].data == full[i].data)
  }

  /** The grid records, read alike, followed by the records after the grid
      with the physical fields' payloads left out. */
  lemma GridThenSkipped(grid: seq<Entry>, full: seq<Entry>, lazy: seq<Entry>)
    requires SkippedFields(full, lazy)
    ensures SameOutsideFields(grid + full, grid + lazy)
  {
    forall i | 0 <= i < |grid| + |full|
      ensures (grid + lazy)[i].header == (grid + full)[i].header
      ensures !IsFieldName((grid + full)[i].header.name) ==> (grid + lazy)[i].data == (grid + full)[i].data
    {
      if i >= |grid| {
        assert (grid + lazy)[i] == lazy[i - |grid|];
        assert (grid + full)[i] == full[i - |grid|];
      }
    }
  }

  /** A dump the full read accepts is accepted when skipping too, with the
      same headers and the same payload outside the physical fields. */
  lemma SkipKeepsOthers(f: seq<byte>)
    requires ReadDumpEntries(f, false).Ok?
    ensures ReadDumpEntries(f, true).Ok?
    ensures SameOutsideFields(ReadDumpEntries(f, false).value, ReadDumpEntries(f, true).value)
  {
    SkipFromKeepsHeaders(f, HEADER_SIZE, GRID_RECORDS);
    DumpFromParts(f, HEADER_SIZE, GRID_RECORDS, false);
    DumpFromParts(f, HEADER_SIZE, GRID_RECORDS, true);
    var grid := ReadGrid(f, HEADER_SIZE, GRID_RECORDS).value;
    SkipOnlyAffectsFields(f, grid.1);
    GridThenSkipped(grid.0, ReadFields(f, grid.1, false).value, ReadFields(f, grid.1, true).value);
  }

  /** The data dict of the lazy read agrees with that of the full read on
      every name that is not a physical field. */
  lemma DataDictOutsideFields(full: seq<Entry>, lazy: seq<Entry>, key: string)
    requires SameOutsideFields(full, lazy) && !IsFieldName(key)
    ensures Get(DataDict(lazy), key) == Get(DataDict(full), key)
  {
    var a := seq(|lazy|, j requires 0 <= j < |lazy| => (lazy[j].header.name, lazy[j].data));
    var b := seq(|full|, j requires 0 <= j < |full| => (full[j].header.name, full[j].data));
    FromPairsGetAgree(a, b, key);
  }

  /** The names of `fdata` the parameters are taken from. */
  const DATA_KEYS: seq<string> := ["xl1", "xl2", "xl3", "xr1", "xr2", "xr3", "time"]

  /** Two data dicts that agree on the names the parameters read give the
      same parameters. */
  lemma ParametersOfAgreeingData(fprops: Dict<string, FieldProps>, d1: Dict<string, Data>, d2: Dict<string, Data>)
    requires forall i :: 0 <= i < |DATA_KEYS| ==> Get(d1, DATA_KEYS[i]) == Get(d2, DATA_KEYS[i])
    ensures ParseParameters(fprops, d1) == ParseParameters(fprops, d2)
  {
    assert LeftEdge(d1) == LeftEdge(d2) by {
      EndValuesAgree(d1, d2, DATA_KEYS[0]);
      EndValuesAgree(d1, d2, DATA_KEYS[1]);
      EndValuesAgree(d1, d2, DATA_KEYS[2]);
    }
    assert RightEdge(d1) == RightEdge(d2) by {
      EndValuesAgree(d1, d2, DATA_KEYS[3]);
      EndValuesAgree(d1, d2, DATA_KEYS[4]);
      EndValuesAgree(d1, d2, DATA_KEYS[5]);
    }
    assert Lookup(d1, "time") == Lookup(d2, "time") by {
      EndValuesAgree(d1, d2, DATA_KEYS[6]);
    }
  }

  lemma EndValuesAgree(d1: Dict<string, Data>, d2: Dict<string, Data>, key: string)
    requires Get(d1, key) == Get(d2, key)
    ensures Lookup(d1, key) == Lookup(d2, key)
    ensures FirstValue(d1, key) == FirstValue(d2, key) && LastValue(d1, key) == LastValue(d2, key)
  {
  }

  /** Two logs that agree outside the physical fields give the same
      parameters. */
  lemma ParametersOutsideFields(full: seq<Entry>, lazy: seq<Entry>)
    requires SameOutsideFields(full, lazy)
    ensures ParseParameters(PropsDict(lazy), DataDict(lazy)) == ParseParameters(PropsDict(full), DataDict(full))
  {
    PropsDictOfHeaders(lazy, full);
    forall i | 0 <= i < |DATA_KEYS| ensures Get(DataDict(lazy), DATA_KEYS[i]) == Get(DataDict(full), DATA_KEYS[i]) {
      DataDictOutsideFields(full, lazy, DATA_KEYS[i]);
    }
    ParametersOfAgreeingData(PropsDict(full), DataDict(lazy), DataDict(full));
  }

  /** Reading the dump with `skip_data`, as the dataset does, yields the
      same parameters as reading every payload. */
  lemma SkipKeepsParameters(f: seq<byte>)
    requires ReadDumpEntries(f, false).Ok?
    ensures DumpParametersOf(f, true) == DumpParametersOf(f, false)
  {
    SkipKeepsOthers(f);
    ParametersOutsideFields(ReadDumpEntries(f, false).value, ReadDumpEntries(f, true).value);
  }
}
