/** The two walks over an Idefix dump file (yt_idefix/_io/dmp_io.py): the
    full read, which decodes every record up to the "eof" sentinel, and the
    offset-index walk, which records where each physical field starts and
    skips its payload. Both start at byte 128 and first pass the nine grid
    records (cell centres and left/right edges along three axes). */
module DumpWalk {
  import opened Results
  import opened ByteReader
  import opened DumpRecords
  import opened Dicts
  import opened ColumnMajor
  import Text

  const GRID_RECORDS: nat := 9
  const EOF_NAME: string := "eof"

  /** A physical field: the name starts with "Vc-" (cell-centred) or "Vs-"
      (face-centred). */
  predicate IsFieldName(name: string) {
    |name| >= 3 && name[0] == 'V' && (name[1] == 'c' || name[1] == 's') && name[2] == '-'
  }

  /** The regular expression `^V[cs]-` of the index walk and the two
      `startswith` tests of the full read accept the same names. */
  lemma FieldNameSpellings(name: string)
    ensures IsFieldName(name) <==> Text.StartsWith(name, "Vc-") || Text.StartsWith(name, "Vs-")
  {
    if Text.StartsWith(name, "Vc-") {
      assert name[..3] == "Vc-";
      assert name[0] == 'V' && name[1] == 'c' && name[2] == '-';
    }
    if Text.StartsWith(name, "Vs-") {
      assert name[..3] == "Vs-";
      assert name[0] == 'V' && name[1] == 's' && name[2] == '-';
    }
  }

  /** A serial record other than the coordinate arrays x1, x2, x3 holding a
      single value is decoded as that value. */
  predicate IsScalar(h: Header) {
    Rank(h) == 1 && h.extents[0] == 1 && h.name != "x1" && h.name != "x2" && h.name != "x3"
  }

  /** One decoded record: where its header starts, the header, the payload. */
  datatype Entry = Entry(offset: nat, header: Header, data: Data)

  /** The `(dtype, ndim, dim)` triple the full read stores per name. */
  datatype FieldProps = FieldProps(dtype: DType, rank: nat, extents: seq<int>)

  function PropsOf(e: Entry): FieldProps {
    FieldProps(e.header.dtype, Rank(e.header), e.header.extents)
  }

  /** The header parsed at `off` is `h`. */
  predicate HeaderAt(f: seq<byte>, off: nat, h: Header) {
    ParseHeader(f, off).Ok? && ParseHeader(f, off).value.0 == h
  }

  predicate Increasing(es: seq<Entry>) {
    forall i, j :: 0 <= i < j < |es| ==> es[i].offset < es[j].offset
  }

  lemma IncreasingCons(e: Entry, es: seq<Entry>)
    requires Increasing(es)
    requires forall i :: 0 <= i < |es| ==> e.offset < es[i].offset
    ensures Increasing([e] + es)
  {
    var r := [e] + es;
    forall i, j | 0 <= i < j < |r| ensures r[i].offset < r[j].offset {
      assert r[j] == es[j - 1];
      if i > 0 {
        assert r[i] == es[i - 1];
      }
    }
  }

  lemma IncreasingAppend(a: seq<Entry>, b: seq<Entry>)
    requires Increasing(a) && Increasing(b)
    requires forall i, j :: 0 <= i < |a| && 0 <= j < |b| ==> a[i].offset < b[j].offset
    ensures Increasing(a + b)
  {
    var r := a + b;
    forall i, j | 0 <= i < j < |r| ensures r[i].offset < r[j].offset {
      if j >= |a| {
        assert r[j] == b[j - |a|];
        if i >= |a| {
          assert r[i] == b[i - |a|];
        }
      }
    }
  }

  /** One grid record: a header and its payload, read serially in full. */
  function ReadGridRecord(f: seq<byte>, cur: nat): (r: Result<(Entry, nat), DumpError>)
    ensures r.Ok? ==> var (e, next) := r.value;
      && e.offset == cur < next <= |f|
      && HeaderAt(f, cur, e.header)
  {
    var hc :- ParseHeader(f, cur);
    var dc :- ReadSerial(f, hc.1, hc.0, false);
    Ok((Entry(cur, hc.0, dc.0), dc.1))
  }

  /** `k` grid records read from `cur` up to `next`: each is a rank-1
      array whose header sits at its offset, and they lie in the file in
      strictly increasing order. */
  predicate GridRead(f: seq<byte>, cur: nat, k: nat, es: seq<Entry>, next: nat) {
    && |es| == k && cur <= next
    && (k > 0 ==> next <= |f|)
    && (forall i :: 0 <= i < k ==> cur <= es[i].offset < next)
    && Increasing(es) && AllGridEntries(f, es)
  }

  /** The `k` grid records from `cur` on. */
  function ReadGrid(f: seq<byte>, cur: nat, k: nat): (r: Result<(seq<Entry>, nat), DumpError>)
    ensures r.Ok? ==> GridRead(f, cur, k, r.value.0, r.value.1)
    decreases k
  {
    if k == 0 then Ok(([], cur))
    else
      var ec :- ReadGridRecord(f, cur);
      var rest :- ReadGrid(f, ec.1, k - 1);
      GridRecordCons(f, cur, rest.0);
      Ok(([ec.0] + rest.0, rest.1))
  }

  /** One step of the grid walk: the first record, then the remaining
      `k - 1` from the end of its payload. */
  lemma GridStep(f: seq<byte>, cur: nat, k: nat)
    requires ReadGrid(f, cur, k).Ok? && k > 0
    ensures ReadGridRecord(f, cur).Ok?
    ensures var (e, next) := ReadGridRecord(f, cur).value;
      && ReadGrid(f, next, k - 1).Ok?
      && ReadGrid(f, cur, k).value.0 == [e] + ReadGrid(f, next, k - 1).value.0
  {
  }

  /** A grid record is a rank-1 array whose header sits at its offset. */
  predicate IsGridEntry(f: seq<byte>, e: Entry) {
    && HeaderAt(f, e.offset, e.header)
    && Rank(e.header) == 1
    && e.data.Array?
    && e.data.extents == e.header.extents
  }

  lemma GridRecordSpec(f: seq<byte>, cur: nat)
    requires ReadGridRecord(f, cur).Ok?
    ensures IsGridEntry(f, ReadGridRecord(f, cur).value.0)
  {
    var hc := ParseHeader(f, cur).value;
    ReadSerialSpec(f, hc.1, hc.0, false);
  }

  /** A grid record in front of later grid records in file order. */
  lemma GridRecordCons(f: seq<byte>, cur: nat, rest: seq<Entry>)
    requires ReadGridRecord(f, cur).Ok?
    requires Increasing(rest) && AllGridEntries(f, rest)
    requires forall i :: 0 <= i < |rest| ==> ReadGridRecord(f, cur).value.1 <= rest[i].offset
    ensures var e := ReadGridRecord(f, cur).value.0; Increasing([e] + rest) && AllGridEntries(f, [e] + rest)
  {
    var e := ReadGridRecord(f, cur).value.0;
    IncreasingCons(e, rest);
    GridRecordSpec(f, cur);
    AllGridEntriesCons(f, e, rest);
  }

  predicate AllGridEntries(f: seq<byte>, es: seq<Entry>) {
    forall i :: 0 <= i < |es| ==> IsGridEntry(f, es[i])
  }

  lemma AllGridEntriesCons(f: seq<byte>, e: Entry, es: seq<Entry>)
    requires IsGridEntry(f, e) && AllGridEntries(f, es)
    ensures AllGridEntries(f, [e] + es)
  {
    var r := [e] + es;
    forall i | 0 <= i < |r| ensures IsGridEntry(f, r[i]) {
      if i > 0 {
        assert r[i] == es[i - 1];
      }
    }
  }

  /** How a record after the grid is decoded by the full read: physical
      fields take the distributed path (the only one `skip` affects), every
      other record the serial one. */
  function ReadPayload(f: seq<byte>, cur: nat, h: Header, skip: bool): (r: Result<(Data, nat), DumpError>)
    ensures r.Ok? ==> cur <= r.value.1
  {
    if IsFieldName(h.name) then ReadDistributed(f, cur, h.extents, skip)
    else ReadSerial(f, cur, h, IsScalar(h))
  }

  /** The loop of `read_idefix_dump_from_buffer`: records from `cur` up to,
      and not including, the first one named "eof". */
  function ReadFields(f: seq<byte>, cur: nat, skip: bool): (r: Result<seq<Entry>, DumpError>)
    ensures r.Ok? ==> forall i :: 0 <= i < |r.value| ==>
      && r.value[i].header.name != EOF_NAME
      && cur <= r.value[i].offset < |f|
    decreases if cur <= |f| then |f| - cur else 0
  {
    var hc :- ParseHeader(f, cur);
    if hc.0.name == EOF_NAME then Ok([])
    else
      var dc :- ReadPayload(f, hc.1, hc.0, skip);
      var rest :- ReadFields(f, dc.1, skip);
      Ok([Entry(cur, hc.0, dc.0)] + rest)
  }

  /** One step of the loop: a non-empty log starts with the record whose
      header sits at `cur`, followed by the log from the end of its payload. */
  lemma FieldsStep(f: seq<byte>, cur: nat, skip: bool)
    requires ReadFields(f, cur, skip).Ok? && |ReadFields(f, cur, skip).value| > 0
    ensures ParseHeader(f, cur).Ok?
    ensures var (h, body) := ParseHeader(f, cur).value;
      && h.name != EOF_NAME
      && ReadPayload(f, body, h, skip).Ok?
      && var (d, next) := ReadPayload(f, body, h, skip).value;
      && cur < next
      && ReadFields(f, next, skip).Ok?
      && ReadFields(f, cur, skip).value == [Entry(cur, h, d)] + ReadFields(f, next, skip).value
  {
  }

  /** The records after the grid are logged in file order. */
  lemma {:induction false} FieldsInOrder(f: seq<byte>, cur: nat, skip: bool)
    requires ReadFields(f, cur, skip).Ok?
    ensures Increasing(ReadFields(f, cur, skip).value)
    decreases if cur <= |f| then |f| - cur else 0
  {
    if |ReadFields(f, cur, skip).value| > 0 {
      FieldsStep(f, cur, skip);
      var (h, body) := ParseHeader(f, cur).value;
      var (d, next) := ReadPayload(f, body, h, skip).value;
      FieldsInOrder(f, next, skip);
      IncreasingCons(Entry(cur, h, d), ReadFields(f, next, skip).value);
    }
  }

  /** Every record of a log is the one whose header sits at its offset. */
  predicate AllHeadersAt(f: seq<byte>, es: seq<Entry>) {
    forall i :: 0 <= i < |es| ==> HeaderAt(f, es[i].offset, es[i].header)
  }

  lemma AllHeadersAtCons(f: seq<byte>, e: Entry, es: seq<Entry>)
    requires HeaderAt(f, e.offset, e.header) && AllHeadersAt(f, es)
    ensures AllHeadersAt(f, [e] + es)
  {
    var r := [e] + es;
    forall i | 0 <= i < |r| ensures HeaderAt(f, r[i].offset, r[i].header) {
      if i > 0 {
        assert r[i] == es[i - 1];
      }
    }
  }

  lemma AllHeadersAtAppend(f: seq<byte>, a: seq<Entry>, b: seq<Entry>)
    requires AllHeadersAt(f, a) && AllHeadersAt(f, b)
    ensures AllHeadersAt(f, a + b)
  {
    var r := a + b;
    forall i | 0 <= i < |r| ensures HeaderAt(f, r[i].offset, r[i].header) {
      if i >= |a| {
        assert r[i] == b[i - |a|];
      }
    }
  }

  /** Each record after the grid is the one whose header sits at its offset. */
  lemma {:induction false} FieldHeaders(f: seq<byte>, cur: nat, skip: bool)
    requires ReadFields(f, cur, skip).Ok?
    ensures AllHeadersAt(f, ReadFields(f, cur, skip).value)
    decreases if cur <= |f| then |f| - cur else 0
  {
    if |ReadFields(f, cur, skip).value| > 0 {
      FieldsStep(f, cur, skip);
      var (h, body) := ParseHeader(f, cur).value;
      var (d, next) := ReadPayload(f, body, h, skip).value;
      FieldHeaders(f, next, skip);
      AllHeadersAtCons(f, Entry(cur, h, d), ReadFields(f, next, skip).value);
    }
  }

  /** The dict `fprops` or `fdata` of the full read: one assignment per
      record, in file order. */
  function PropsDict(es: seq<Entry>): Dict<string, FieldProps> {
    FromPairs(seq(|es|, i requires 0 <= i < |es| => (es[i].header.name, PropsOf(es[i]))))
  }

  function DataDict(es: seq<Entry>): Dict<string, Data> {
    FromPairs(seq(|es|, i requires 0 <= i < |es| => (es[i].header.name, es[i].data)))
  }

  /** The full read from `start` with `k` grid records: the grid records,
      then the records up to "eof". The file format fixes `start` at 128
      and `k` at 9; the properties below hold for any values. */
  function ReadDumpFrom(f: seq<byte>, start: nat, k: nat, skip: bool): (r: Result<seq<Entry>, DumpError>)
    ensures r.Ok? ==> |r.value| >= k
  {
    var grid :- ReadGrid(f, start, k);
    var fields :- ReadFields(f, grid.1, skip);
    Ok(grid.0 + fields)
  }

  /** `read_idefix_dump_from_buffer`: every record of the file as a log, from
      which the two dicts are built. */
  function ReadDumpEntries(f: seq<byte>, skip: bool): Result<seq<Entry>, DumpError> {
    ReadDumpFrom(f, HEADER_SIZE, GRID_RECORDS, skip)
  }

  function ReadIdefixDump(f: seq<byte>, skip: bool): Result<(Dict<string, FieldProps>, Dict<string, Data>), DumpError> {
    var es :- ReadDumpEntries(f, skip);
    Ok((PropsDict(es), DataDict(es)))
  }

  /** The log of the full read is the grid log followed by the field log. */
  lemma DumpFromParts(f: seq<byte>, start: nat, k: nat, skip: bool)
    requires ReadDumpFrom(f, start, k, skip).Ok?
    ensures ReadGrid(f, start, k).Ok?
    ensures var grid := ReadGrid(f, start, k).value;
      && ReadFields(f, grid.1, skip).Ok?
      && ReadDumpFrom(f, start, k, skip).value == grid.0 + ReadFields(f, grid.1, skip).value
  {
  }

  lemma DumpFromInOrder(f: seq<byte>, start: nat, k: nat, skip: bool)
    requires ReadDumpFrom(f, start, k, skip).Ok?
    ensures Increasing(ReadDumpFrom(f, start, k, skip).value)
  {
    DumpFromParts(f, start, k, skip);
    var grid := ReadGrid(f, start, k).value;
    FieldsInOrder(f, grid.1, skip);
    IncreasingAppend(grid.0, ReadFields(f, grid.1, skip).value);
  }

  /** The log of the full read lists the records in file order. */
  lemma DumpInOrder(f: seq<byte>, skip: bool)
    requires ReadDumpEntries(f, skip).Ok?
    ensures Increasing(ReadDumpEntries(f, skip).value)
  {
    DumpFromInOrder(f, HEADER_SIZE, GRID_RECORDS, skip);
  }

  lemma DumpFromRecordAt(f: seq<byte>, start: nat, k: nat, skip: bool, i: nat)
    requires ReadDumpFrom(f, start, k, skip).Ok? && i < |ReadDumpFrom(f, start, k, skip).value|
    ensures var e := ReadDumpFrom(f, start, k, skip).value[i];
      && HeaderAt(f, e.offset, e.header)
      && (i < k ==> Rank(e.header) == 1 && e.data.Array?)
      && (i >= k ==> e.header.name != EOF_NAME)
  {
    DumpFromParts(f, start, k, skip);
    var grid := ReadGrid(f, start, k).value;
    var fields := ReadFields(f, grid.1, skip).value;
    FieldHeaders(f, grid.1, skip);
    assert forall j :: 0 <= j < |fields| ==> fields[j].header.name != EOF_NAME;
    RecordOfParts(f, grid.0, fields, i);
  }

  /** A record of a grid log followed by a field log, by position. */
  lemma RecordOfParts(f: seq<byte>, grid: seq<Entry>, fields: seq<Entry>, i: nat)
    requires AllGridEntries(f, grid) && AllHeadersAt(f, fields)
    requires forall j :: 0 <= j < |fields| ==> fields[j].header.name != EOF_NAME
    requires i < |grid| + |fields|
    ensures var e := (grid + fields)[i];
      && HeaderAt(f, e.offset, e.header)
      && (i < |grid| ==> Rank(e.header) == 1 && e.data.Array?)
      && (i >= |grid| ==> e.header.name != EOF_NAME)
  {
    if i < |grid| {
      assert (grid + fields)[i] == grid[i];
    } else {
      assert (grid + fields)[i] == fields[i - |grid|];
    }
  }

  /** Each logged record of the full read is the one whose header sits at
      its offset; the first nine are the rank-1 coordinate arrays, and none
      after them is the "eof" sentinel. */
  lemma DumpRecordAt(f: seq<byte>, skip: bool, i: nat)
    requires ReadDumpEntries(f, skip).Ok? && i < |ReadDumpEntries(f, skip).value|
    ensures var e := ReadDumpEntries(f, skip).value[i];
      && HeaderAt(f, e.offset, e.header)
      && (i < GRID_RECORDS ==> Rank(e.header) == 1 && e.data.Array?)
      && (i >= GRID_RECORDS ==> e.header.name != EOF_NAME)
  {
    DumpFromRecordAt(f, HEADER_SIZE, GRID_RECORDS, skip, i);
  }

  /** In the dicts built from a log, each name maps to the properties and
      the payload of the last record carrying it. */
  lemma DictsHoldLastRecord(es: seq<Entry>, i: nat)
    requires i < |es| && forall j :: i < j < |es| ==> es[j].header.name != es[i].header.name
    ensures Get(PropsDict(es), es[i].header.name) == Some(PropsOf(es[i]))
    ensures Get(DataDict(es), es[i].header.name) == Some(es[i].data)
  {
    var ps := seq(|es|, j requires 0 <= j < |es| => (es[j].header.name, PropsOf(es[j])));
    var ds := seq(|es|, j requires 0 <= j < |es| => (es[j].header.name, es[j].data));
    FromPairsGet(ps, es[i].header.name, i);
    FromPairsGet(ds, es[i].header.name, i);
  }

  /** Each name of the two dicts of the full read maps to the properties
      and the payload of the last record of the file carrying it. */
  lemma DumpDictsHoldLastRecord(f: seq<byte>, skip: bool, i: nat)
    requires ReadDumpEntries(f, skip).Ok?
    requires var es := ReadDumpEntries(f, skip).value;
      i < |es| && forall j :: i < j < |es| ==> es[j].header.name != es[i].header.name
    ensures var es := ReadDumpEntries(f, skip).value;
      var (props, data) := ReadIdefixDump(f, skip).value;
      && Get(props, es[i].header.name) == Some(PropsOf(es[i]))
      && Get(data, es[i].header.name) == Some(es[i].data)
  {
    DictsHoldLastRecord(ReadDumpEntries(f, skip).value, i);
  }

  /** Logs with the same headers give the same properties dict. */
  lemma PropsDictOfHeaders(a: seq<Entry>, b: seq<Entry>)
    requires |a| == |b| && forall i :: 0 <= i < |a| ==> a[i].header == b[i].header
    ensures PropsDict(a) == PropsDict(b)
  {
    assert seq(|a|, j requires 0 <= j < |a| => (a[j].header.name, PropsOf(a[j])))
        == seq(|b|, j requires 0 <= j < |b| => (b[j].header.name, PropsOf(b[j])));
  }

  lemma SkipFromKeepsHeaders(f: seq<byte>, start: nat, k: nat)
    requires ReadDumpFrom(f, start, k, false).Ok?
    ensures ReadDumpFrom(f, start, k, true).Ok?
    ensures var full := ReadDumpFrom(f, start, k, false).value;
      var lazy := ReadDumpFrom(f, start, k, true).value;
      && |lazy| == |full|
      && forall i :: 0 <= i < |full| ==> lazy[i].offset == full[i].offset && lazy[i].header == full[i].header
  {
    DumpFromParts(f, start, k, false);
    var grid := ReadGrid(f, start, k).value;
    SkipOnlyAffectsFields(f, grid.1);
  }

  /** `skip_data` leaves the properties dict of the full read as it is. */
  lemma SkipKeepsProps(f: seq<byte>)
    requires ReadIdefixDump(f, false).Ok?
    ensures ReadIdefixDump(f, true).Ok?
    ensures ReadIdefixDump(f, true).value.0 == ReadIdefixDump(f, false).value.0
  {
    SkipFromKeepsHeaders(f, HEADER_SIZE, GRID_RECORDS);
    PropsDictOfHeaders(ReadDumpEntries(f, true).value, ReadDumpEntries(f, false).value);
  }

  /** The loop of `get_field_offset_index`: the name and start offset of each
      consecutive physical-field record from `cur` on, up to the first record
      whose name is not a physical field. */
  function IndexVisits(f: seq<byte>, cur: nat): (r: Result<seq<(string, nat)>, DumpError>)
    ensures r.Ok? ==> forall i :: 0 <= i < |r.value| ==> cur <= r.value[i].1
    decreases if cur <= |f| then |f| - cur else 0
  {
    var hc :- ParseHeader(f, cur);
    if !IsFieldName(hc.0.name) then Ok([])
    else
      var dc :- ReadDistributed(f, hc.1, hc.0.extents, true);
      var rest :- IndexVisits(f, dc.1);
      Ok([(hc.0.name, cur)] + rest)
  }

  predicate AllVisited(f: seq<byte>, vs: seq<(string, nat)>) {
    forall i :: 0 <= i < |vs| ==> Visited(f, vs[i])
  }

  predicate OffsetsIncreasing(vs: seq<(string, nat)>) {
    forall i, j :: 0 <= i < j < |vs| ==> vs[i].1 < vs[j].1
  }

  lemma AllVisitedCons(f: seq<byte>, v: (string, nat), vs: seq<(string, nat)>)
    requires Visited(f, v) && AllVisited(f, vs)
    ensures AllVisited(f, [v] + vs)
  {
    var r := [v] + vs;
    forall i | 0 <= i < |r| ensures Visited(f, r[i]) {
      if i > 0 {
        assert r[i] == vs[i - 1];
      }
    }
  }

  lemma OffsetsIncreasingCons(v: (string, nat), vs: seq<(string, nat)>)
    requires OffsetsIncreasing(vs)
    requires forall i :: 0 <= i < |vs| ==> v.1 < vs[i].1
    ensures OffsetsIncreasing([v] + vs)
  {
    var r := [v] + vs;
    forall i, j | 0 <= i < j < |r| ensures r[i].1 < r[j].1 {
      assert r[j] == vs[j - 1];
      if i > 0 {
        assert r[i] == vs[i - 1];
      }
    }
  }

  /** Every offset the index walk records re-parses to a physical-field
      header carrying the recorded name, and the walk read a further header
      after each skipped payload, so each payload lies inside the file. The
      offsets increase. */
  lemma {:induction false} IndexVisitsSpec(f: seq<byte>, cur: nat)
    requires IndexVisits(f, cur).Ok?
    ensures AllVisited(f, IndexVisits(f, cur).value)
    ensures OffsetsIncreasing(IndexVisits(f, cur).value)
    decreases if cur <= |f| then |f| - cur else 0
  {
    var hc := ParseHeader(f, cur).value;
    if IsFieldName(hc.0.name) {
      var dc := ReadDistributed(f, hc.1, hc.0.extents, true).value;
      IndexVisitsSpec(f, dc.1);
      assert ParseHeader(f, dc.1).Ok?;
      AllVisitedCons(f, (hc.0.name, cur), IndexVisits(f, dc.1).value);
      OffsetsIncreasingCons((hc.0.name, cur), IndexVisits(f, dc.1).value);
    }
  }

  /** What the index walk established about a recorded `(name, offset)`. */
  predicate Visited(f: seq<byte>, v: (string, nat)) {
    && ParseHeader(f, v.1).Ok?
    && var (h, body) := ParseHeader(f, v.1).value;
    && h.name == v.0
    && IsFieldName(h.name)
    && PayloadSize(h.extents, Double).Ok?
    && body + PayloadSize(h.extents, Double).value <= |f|
  }

  /** The index walk from `start` with `k` grid records. */
  function IndexFrom(f: seq<byte>, start: nat, k: nat): (r: Result<Dict<string, nat>, DumpError>)
    ensures r.Ok? ==> ReadGrid(f, start, k).Ok?
    ensures r.Ok? ==> forall name :: name in Keys(r.value) ==> IsFieldName(name)
  {
    var grid :- ReadGrid(f, start, k);
    var visits :- IndexVisits(f, grid.1);
    IndexVisitsSpec(f, grid.1);
    Ok(FromPairs(visits))
  }

  /** `get_field_offset_index`: skip the 128-byte header, read the nine grid
      records, then map each leading physical field to its offset. */
  function GetFieldOffsetIndex(f: seq<byte>): Result<Dict<string, nat>, DumpError> {
    IndexFrom(f, HEADER_SIZE, GRID_RECORDS)
  }

  /** `read_single_field`: seek to the offset, re-read the record header and
      decode the payload as doubles. */
  function ReadSingleField(f: seq<byte>, offset: nat): (r: Result<Data, DumpError>)
    ensures r.Ok? ==> r.value.Array? && r.value.dtype == Double
    ensures r.Ok? ==> ParseHeader(f, offset).Ok? && r.value.extents == ParseHeader(f, offset).value.0.extents
  {
    var hc :- ParseHeader(f, offset);
    var dc :- ReadDistributed(f, hc.1, hc.0.extents, false);
    ReadDistributedSpec(f, hc.1, hc.0.extents, false);
    Ok(dc.0)
  }

  /** The `(name, offset)` pairs of the leading run of physical-field
      records of a log. */
  function FieldRun(es: seq<Entry>): (vs: seq<(string, nat)>)
    ensures |vs| <= |es|
    ensures forall i :: 0 <= i < |vs| ==> IsFieldName(es[i].header.name) && vs[i] == (es[i].header.name, es[i].offset)
    ensures |vs| < |es| ==> !IsFieldName(es[|vs|].header.name)
  {
    if |es| == 0 || !IsFieldName(es[0].header.name) then []
    else [(es[0].header.name, es[0].offset)] + FieldRun(es[1..])
  }

  /** Whichever way the full read treats payloads, the index walk from the
      same position visits exactly the leading physical fields the full read
      decoded, at the same offsets. */
  lemma {:induction false} IndexAgreesWithFields(f: seq<byte>, cur: nat, skip: bool)
    requires ReadFields(f, cur, skip).Ok?
    ensures IndexVisits(f, cur) == Ok(FieldRun(ReadFields(f, cur, skip).value))
    decreases if cur <= |f| then |f| - cur else 0
  {
    var hc := ParseHeader(f, cur).value;
    if hc.0.name != EOF_NAME && IsFieldName(hc.0.name) {
      var dc := ReadDistributed(f, hc.1, hc.0.extents, skip).value;
      ReadDistributedSpec(f, hc.1, hc.0.extents, true);
      assert ReadDistributed(f, hc.1, hc.0.extents, true) == Ok((Skipped, dc.1));
      IndexAgreesWithFields(f, dc.1, skip);
      var es := ReadFields(f, cur, skip).value;
      assert es[1..] == ReadFields(f, dc.1, skip).value;
    }
  }

  lemma IndexFromAgrees(f: seq<byte>, start: nat, k: nat, skip: bool)
    requires ReadDumpFrom(f, start, k, skip).Ok?
    ensures IndexFrom(f, start, k) == Ok(FromPairs(FieldRun(ReadDumpFrom(f, start, k, skip).value[k..])))
  {
    DumpFromParts(f, start, k, skip);
    var grid := ReadGrid(f, start, k).value;
    IndexAgreesWithFields(f, grid.1, skip);
    assert (grid.0 + ReadFields(f, grid.1, skip).value)[k..] == ReadFields(f, grid.1, skip).value;
  }

  /** The offset index of a dump the full read accepts maps each physical
      field of the leading run after the grid to the offset of its record. */
  lemma IndexAgreesWithFullRead(f: seq<byte>, skip: bool)
    requires ReadDumpEntries(f, skip).Ok?
    ensures GetFieldOffsetIndex(f) == Ok(FromPairs(FieldRun(ReadDumpEntries(f, skip).value[GRID_RECORDS..])))
  {
    IndexFromAgrees(f, HEADER_SIZE, GRID_RECORDS, skip);
  }

  /** The header at `off` carries `name`, and reading the field there
      succeeds exactly when its extents can be reshaped, yielding the
      column-major array of doubles stored right after the header. */
  predicate LeadsToField(f: seq<byte>, off: nat, name: string) {
    && ParseHeader(f, off).Ok?
    && var (h, body) := ParseHeader(f, off).value;
    && h.name == name
    && (ReadSingleField(f, off).Ok? <==> Reshapable(h.extents))
    && var n := Product(h.extents);
    && (ReadSingleField(f, off).Ok? ==>
          && 0 <= n && body + ByteSize(n, Double) <= |f|
          && ReadSingleField(f, off).value == Array(Double, h.extents, Words(f[body..body + ByteSize(n, Double)], n, Double)))
  }

  /** Every offset of the index leads back to a header with that name, from
      which the field can be read. */
  lemma IndexLeadsToField(f: seq<byte>, name: string)
    requires GetFieldOffsetIndex(f).Ok? && name in Keys(GetFieldOffsetIndex(f).value)
    ensures LeadsToField(f, Get(GetFieldOffsetIndex(f).value, name).value, name)
  {
    IndexFromLeadsToField(f, HEADER_SIZE, GRID_RECORDS, name);
  }

  lemma IndexFromLeadsToField(f: seq<byte>, start: nat, k: nat, name: string)
    requires IndexFrom(f, start, k).Ok? && name in Keys(IndexFrom(f, start, k).value)
    ensures LeadsToField(f, Get(IndexFrom(f, start, k).value, name).value, name)
  {
    var grid := ReadGrid(f, start, k).value;
    var visits := IndexVisits(f, grid.1).value;
    assert IndexFrom(f, start, k).value == FromPairs(visits);
    IndexVisitsSpec(f, grid.1);
    var i := FromPairsGetSome(visits, name);
    VisitedLeadsToField(f, visits[i]);
  }

  /** A visit of the index walk found the payload inside the file, so
      reading the field there fails only on the reshape. */
  lemma VisitedLeadsToField(f: seq<byte>, v: (string, nat))
    requires Visited(f, v)
    ensures LeadsToField(f, v.1, v.0)
  {
    var (h, body) := ParseHeader(f, v.1).value;
    ReadChunkSpec(f, body, h.extents, Double, false, false);
  }

  /** Every physical field of a log reads back lazily, through its offset,
      as the payload the log holds for it. */
  predicate FieldsReadBack(f: seq<byte>, es: seq<Entry>) {
    forall i :: 0 <= i < |es| && IsFieldName(es[i].header.name) ==> ReadSingleField(f, es[i].offset) == Ok(es[i].data)
  }

  lemma FieldsReadBackCons(f: seq<byte>, e: Entry, es: seq<Entry>)
    requires IsFieldName(e.header.name) ==> ReadSingleField(f, e.offset) == Ok(e.data)
    requires FieldsReadBack(f, es)
    ensures FieldsReadBack(f, [e] + es)
  {
    var r := [e] + es;
    forall i | 0 <= i < |r| && IsFieldName(r[i].header.name) ensures ReadSingleField(f, r[i].offset) == Ok(r[i].data) {
      if i > 0 {
        assert r[i] == es[i - 1];
      }
    }
  }

  /** Reading one field lazily through its offset gives the array the full
      read decodes for that record. */
  lemma {:induction false} SingleFieldMatchesFullRead(f: seq<byte>, cur: nat)
    requires ReadFields(f, cur, false).Ok?
    ensures FieldsReadBack(f, ReadFields(f, cur, false).value)
    decreases if cur <= |f| then |f| - cur else 0
  {
    if |ReadFields(f, cur, false).value| > 0 {
      FieldsStep(f, cur, false);
      var (h, body) := ParseHeader(f, cur).value;
      var (d, next) := ReadPayload(f, body, h, false).value;
      SingleFieldMatchesFullRead(f, next);
      FieldsReadBackCons(f, Entry(cur, h, d), ReadFields(f, next, false).value);
    }
  }

  /** `lazy` is `full` with the payload of each physical field left out. */
  predicate SkippedFields(full: seq<Entry>, lazy: seq<Entry>) {
    && |lazy| == |full|
    && forall i :: 0 <= i < |full| ==>
      && lazy[i].offset == full[i].offset
      && lazy[i].header == full[i].header
      && lazy[i].data == (if IsFieldName(full[i].header.name) then Skipped else full[i].data)
  }

  lemma SkippedFieldsCons(e: Entry, l: Entry, full: seq<Entry>, lazy: seq<Entry>)
    requires l.offset == e.offset && l.header == e.header
    requires l.data == (if IsFieldName(e.header.name) then Skipped else e.data)
    requires SkippedFields(full, lazy)
    ensures SkippedFields([e] + full, [l] + lazy)
  {
    var f2 := [e] + full;
    var l2 := [l] + lazy;
    forall i | 0 <= i < |f2|
      ensures l2[i].offset == f2[i].offset && l2[i].header == f2[i].header
      ensures l2[i].data == (if IsFieldName(f2[i].header.name) then Skipped else f2[i].data)
    {
      if i > 0 {
        assert f2[i] == full[i - 1] && l2[i] == lazy[i - 1];
      }
    }
  }

  /** The payload of one record read with and without skipping: the same end,
      and the payload left out exactly for a physical field. */
  lemma PayloadSkip(f: seq<byte>, cur: nat, h: Header)
    requires ReadPayload(f, cur, h, false).Ok?
    ensures ReadPayload(f, cur, h, true).Ok?
    ensures ReadPayload(f, cur, h, true).value.1 == ReadPayload(f, cur, h, false).value.1
    ensures ReadPayload(f, cur, h, true).value.0
      == (if IsFieldName(h.name) then Skipped else ReadPayload(f, cur, h, false).value.0)
  {
    ReadChunkSpec(f, cur, h.extents, Double, false, true);
  }

  /** `skip_data` changes nothing but the physical fields' payloads: a file
      the full read accepts is also accepted when skipping, with the same
      records at the same offsets, every other payload unchanged and each
      physical field's payload left out. */
  lemma {:induction false} SkipOnlyAffectsFields(f: seq<byte>, cur: nat)
    requires ReadFields(f, cur, false).Ok?
    ensures ReadFields(f, cur, true).Ok?
    ensures SkippedFields(ReadFields(f, cur, false).value, ReadFields(f, cur, true).value)
    decreases if cur <= |f| then |f| - cur else 0
  {
    var (h, body) := ParseHeader(f, cur).value;
    if h.name != EOF_NAME {
      FieldsStep(f, cur, false);
      var (d, next) := ReadPayload(f, body, h, false).value;
      PayloadSkip(f, body, h);
      SkipOnlyAffectsFields(f, next);
      var dl := ReadPayload(f, body, h, true).value.0;
      SkippedFieldsCons(Entry(cur, h, d), Entry(cur, h, dl), ReadFields(f, next, false).value, ReadFields(f, next, true).value);
    }
  }
}
