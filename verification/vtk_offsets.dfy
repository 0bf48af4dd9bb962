/** `read_field_offset_index` (yt_idefix/_io/h5_io.py): the walk over the
    dataset-attribute section of a legacy VTK file that records where each
    field's data starts. Each block opens with a declaration line
    `SCALARS name type` or `VECTORS name type`; a scalar block has one more
    line (the lookup table) before its data, and every block is followed by
    one trailing line. The data is skipped, not read: the byte size of one
    field (one component) is a parameter, `size`.

    The source skips each field by calling `read_single_field`, a name
    h5_io.py neither defines nor imports, so as written it raises NameError
    at the first block (`WalkAsWritten`). `Walk` is the loop with that call
    read as the evident intent, skipping `size` bytes. */
module VtkOffsets {
  import opened Results
  import opened ByteReader
  import opened Dicts
  import Text
  import Utf8

  const NEWLINE: byte := 10

  /** Where the line starting at `cur` ends: just past the first newline at
      or after `cur`, or the end of the file. */
  function LineEnd(f: seq<byte>, cur: nat): (j: nat)
    requires cur <= |f|
    ensures cur <= j <= |f|
    ensures j == cur ==> cur == |f|
    decreases |f| - cur
  {
    if cur == |f| then cur
    else if f[cur] == NEWLINE then cur + 1
    else LineEnd(f, cur + 1)
  }

  /** The line holds no newline before its last byte, and ends with one
      unless it runs to the end of the file. */
  lemma {:induction false} LineEndSpec(f: seq<byte>, cur: nat)
    requires cur <= |f|
    ensures var j := LineEnd(f, cur);
      && (forall k :: cur <= k < j - 1 ==> f[k] != NEWLINE)
      && (j > cur ==> (f[j - 1] == NEWLINE || j == |f|))
    decreases |f| - cur
  {
    if cur < |f| && f[cur] != NEWLINE {
      LineEndSpec(f, cur + 1);
    }
  }

  /** `fh.readline()`: the bytes up to and including the next newline, or
      to the end of the file; nothing once the cursor is at or past the
      end. */
  function ReadLine(f: seq<byte>, cur: nat): (r: (seq<byte>, nat))
    ensures r.1 == cur + |r.0|
    ensures cur >= |f| <==> |r.0| == 0
  {
    if cur >= |f| then ([], cur)
    else
      var j := LineEnd(f, cur);
      (f[cur..j], j)
  }

  /** What the walk raises. */
  datatype VtkError =
    | WrongTokenCount(count: nat)  // ValueError: the unpack into three names
    | UnknownDatatype(kind: string) // RuntimeError("Unknown datatype ...")
    | MissingLine                   // StopIteration from `next(fh)` at the end
    | Undecodable                   // UnicodeDecodeError from `line.decode()`
    | UndefinedName                 // NameError: `read_single_field` is unbound in h5_io.py

  /** The three component names of a vector field. */
  function ComponentNames(name: string): seq<string> {
    [name + "_X", name + "_Y", name + "_Z"]
  }

  /** The two kinds of block the walk knows. */
  datatype Kind = Scalars | Vectors

  /** `s = line.decode()`, then `datatype, varname, dtype = s.split()`,
      with the name upper-cased and the leading word checked against the
      two kinds (the check raises before anything more is read). */
  function Declaration(line: seq<byte>): (r: Result<(Kind, string), VtkError>) {
    match Utf8.Decode(line)
    case None => Err(Undecodable)
    case Some(s) =>
      var tokens := Text.Split(s);
      if |tokens| != 3 then Err(WrongTokenCount(|tokens|))
      else if tokens[0] == "SCALARS" then Ok((Scalars, Text.Upper(tokens[1])))
      else if tokens[0] == "VECTORS" then Ok((Vectors, Text.Upper(tokens[1])))
      else Err(UnknownDatatype(tokens[0]))
  }

  /** The assignments of one block whose declaration line ends at `c1`, and
      where the cursor is after its trailing line. */
  function Block(f: seq<byte>, c1: nat, kind: Kind, name: string, size: nat)
    : (r: Result<(seq<(string, nat)>, nat), VtkError>)
  {
    match kind
    case Scalars =>
      if c1 >= |f| then Err(MissingLine)
      else
        var c2 := ReadLine(f, c1).1;
        Ok(([(name, c2)], ReadLine(f, c2 + size).1))
    case Vectors =>
      var names := ComponentNames(name);
      var entries: seq<(string, nat)> := [(names[0], c1), (names[1], c1 + size), (names[2], c1 + size + size)];
      Ok((entries, ReadLine(f, c1 + size + size + size).1))
  }

  /** The loop of `read_field_offset_index` from `cur`: the `(name, offset)`
      assignments it makes, in order. */
  function Walk(f: seq<byte>, cur: nat, size: nat): (r: Result<seq<(string, nat)>, VtkError>)
    decreases if cur <= |f| then |f| - cur else 0
  {
    var (line, c1) := ReadLine(f, cur);
    if |line| < 2 then Ok([])
    else
      var decl :- Declaration(line);
      var block :- Block(f, c1, decl.0, decl.1, size);
      var rest :- Walk(f, block.1, size);
      Ok(block.0 + rest)
  }

  /** `read_field_offset_index(fh, shape)` with `fh` at `cur`. */
  function ReadFieldOffsetIndex(f: seq<byte>, cur: nat, size: nat): Result<Dict<string, nat>, VtkError> {
    var log :- Walk(f, cur, size);
    Ok(FromPairs(log))
  }

  // ---------------------------------------------------------------------
  // Properties of the walk

  /** One pass of the loop: a line of at least two bytes is a declaration
      opening a block, and the log continues with the walk from the end of
      that block. */
  lemma WalkStep(f: seq<byte>, cur: nat, size: nat)
    requires Walk(f, cur, size).Ok? && |ReadLine(f, cur).0| >= 2
    ensures var c1 := ReadLine(f, cur).1;
      && Declaration(ReadLine(f, cur).0).Ok?
      && var (kind, name) := Declaration(ReadLine(f, cur).0).value;
      && Block(f, c1, kind, name, size).Ok?
      && var (entries, next) := Block(f, c1, kind, name, size).value;
      && cur < c1 <= next
      && Walk(f, next, size).Ok?
      && Walk(f, cur, size).value == entries + Walk(f, next, size).value
  {
  }

  /** Every block records at least one offset, so the walk records nothing
      exactly when it stops at once, at a line shorter than two bytes. */
  lemma WalkStopsAtShortLine(f: seq<byte>, cur: nat, size: nat)
    requires Walk(f, cur, size).Ok?
    ensures |Walk(f, cur, size).value| == 0 <==> |ReadLine(f, cur).0| < 2
  {
    if |ReadLine(f, cur).0| >= 2 {
      WalkStep(f, cur, size);
    }
  }

  /** The declaration is rejected when it is not well-formed UTF-8, when it
      does not hold exactly three words, and when its leading word is
      neither `SCALARS` nor `VECTORS`; otherwise it yields that kind and the
      upper-cased second word. */
  lemma DeclarationSpec(line: seq<byte>)
    ensures Utf8.Decode(line).None? <==> Declaration(line) == Err(Undecodable)
    ensures Utf8.Decode(line).Some? ==>
      var tokens := Text.Split(Utf8.Decode(line).value);
      var r := Declaration(line);
      && (|tokens| != 3 ==> r == Err(WrongTokenCount(|tokens|)))
      && (|tokens| == 3 ==>
            && (tokens[0] == "SCALARS" ==> r == Ok((Scalars, Text.Upper(tokens[1]))))
            && (tokens[0] == "VECTORS" ==> r == Ok((Vectors, Text.Upper(tokens[1]))))
            && (tokens[0] != "SCALARS" && tokens[0] != "VECTORS" ==> r == Err(UnknownDatatype(tokens[0]))))
  {
  }

  /** A scalar block records one offset, just past the line after the
      declaration; a vector block records the three components `_X`, `_Y`,
      `_Z` at successive field boundaries from the end of the declaration.
      Either way one trailing line is consumed after the data. */
  lemma BlockSpec(f: seq<byte>, c1: nat, kind: Kind, name: string, size: nat)
    ensures var r := Block(f, c1, kind, name, size);
      && (kind == Scalars ==>
            if c1 >= |f| then r == Err(MissingLine)
            else var c2 := ReadLine(f, c1).1;
              r == Ok(([(name, c2)], ReadLine(f, c2 + size).1)))
      && (kind == Vectors ==>
            && r.Ok?
            && |r.value.0| == 3
            && r.value.0[0] == (name + "_X", c1)
            && r.value.0[1] == (name + "_Y", c1 + size)
            && r.value.0[2] == (name + "_Z", c1 + size + size)
            && r.value.1 == ReadLine(f, c1 + size + size + size).1)
  {
  }

  /** The names recorded are in upper case. */
  predicate AllUpper(log: seq<(string, nat)>) {
    forall i :: 0 <= i < |log| ==> Text.Upper(log[i].0) == log[i].0
  }

  /** Offsets strictly increase along the log. */
  predicate Increasing(log: seq<(string, nat)>) {
    forall i, j :: 0 <= i < j < |log| ==> log[i].1 < log[j].1
  }

  /** All offsets of the log lie strictly after `c`. */
  predicate After(log: seq<(string, nat)>, c: nat) {
    forall i :: 0 <= i < |log| ==> c < log[i].1
  }

  lemma UpperName(t: string, suffix: string)
    requires Text.Upper(suffix) == suffix
    ensures Text.Upper(Text.Upper(t) + suffix) == Text.Upper(t) + suffix
  {
    Text.UpperIdempotent(t);
    Text.UpperAppend(Text.Upper(t), suffix);
  }

  lemma BlockUpper(f: seq<byte>, c1: nat, kind: Kind, t: string, size: nat)
    requires Block(f, c1, kind, Text.Upper(t), size).Ok?
    ensures AllUpper(Block(f, c1, kind, Text.Upper(t), size).value.0)
  {
    var name := Text.Upper(t);
    BlockSpec(f, c1, kind, name, size);
    UpperName(t, "");
    assert name + "" == name;
    UpperName(t, "_X");
    UpperName(t, "_Y");
    UpperName(t, "_Z");
  }

  lemma AllUpperAppend(a: seq<(string, nat)>, b: seq<(string, nat)>)
    requires AllUpper(a) && AllUpper(b)
    ensures AllUpper(a + b)
  {
    var r := a + b;
    forall i | 0 <= i < |r| ensures Text.Upper(r[i].0) == r[i].0 {
      if i >= |a| {
        assert r[i] == b[i - |a|];
      }
    }
  }

  /** Every name the walk records is upper case, whatever case the file
      uses. */
  lemma {:induction false} WalkNamesUpper(f: seq<byte>, cur: nat, size: nat)
    requires Walk(f, cur, size).Ok?
    ensures AllUpper(Walk(f, cur, size).value)
    decreases if cur <= |f| then |f| - cur else 0
  {
    var (line, c1) := ReadLine(f, cur);
    if |line| >= 2 {
      WalkStep(f, cur, size);
      var (kind, name) := Declaration(line).value;
      var (entries, next) := Block(f, c1, kind, name, size).value;
      var tokens := Text.Split(Utf8.Decode(line).value);
      BlockUpper(f, c1, kind, tokens[1], size);
      WalkNamesUpper(f, next, size);
      AllUpperAppend(entries, Walk(f, next, size).value);
    }
  }

  /** The offsets of one block increase when a field takes at least one
      byte. */
  lemma BlockIncreasing(f: seq<byte>, c1: nat, kind: Kind, name: string, size: nat)
    requires Block(f, c1, kind, name, size).Ok? && size > 0
    ensures Increasing(Block(f, c1, kind, name, size).value.0)
  {
    BlockSpec(f, c1, kind, name, size);
  }

  /** The offsets of one block lie after the declaration line's start and
      no later than where the block ends. */
  lemma BlockBounds(f: seq<byte>, cur: nat, c1: nat, kind: Kind, name: string, size: nat,
                    entries: seq<(string, nat)>, next: nat)
    requires cur < c1 && Block(f, c1, kind, name, size) == Ok((entries, next))
    ensures After(entries, cur)
    ensures forall i :: 0 <= i < |entries| ==> entries[i].1 <= next
  {
    BlockSpec(f, c1, kind, name, size);
  }

  lemma IncreasingAppend(a: seq<(string, nat)>, b: seq<(string, nat)>, c: nat)
    requires Increasing(a) && Increasing(b) && After(b, c)
    requires forall i :: 0 <= i < |a| ==> a[i].1 <= c
    ensures Increasing(a + b)
  {
    var r := a + b;
    forall i, j | 0 <= i < j < |r| ensures r[i].1 < r[j].1 {
      if j >= |a| {
        assert r[j] == b[j - |a|];
        if i >= |a| {
          assert r[i] == b[i - |a|];
        }
      }
    }
  }

  lemma AfterAppend(a: seq<(string, nat)>, b: seq<(string, nat)>, c: nat)
    requires After(a, c) && After(b, c)
    ensures After(a + b, c)
  {
    var r := a + b;
    forall i | 0 <= i < |r| ensures c < r[i].1 {
      if i >= |a| {
        assert r[i] == b[i - |a|];
      }
    }
  }

  /** Offsets recorded by the walk from `cur` lie after `cur` and, when a
      field takes at least one byte, strictly increase in file order. */
  lemma {:induction false} WalkIncreasing(f: seq<byte>, cur: nat, size: nat)
    requires Walk(f, cur, size).Ok?
    ensures After(Walk(f, cur, size).value, cur)
    ensures size > 0 ==> Increasing(Walk(f, cur, size).value)
    decreases if cur <= |f| then |f| - cur else 0
  {
    var (line, c1) := ReadLine(f, cur);
    if |line| >= 2 {
      WalkStep(f, cur, size);
      var (kind, name) := Declaration(line).value;
      var (entries, next) := Block(f, c1, kind, name, size).value;
      WalkIncreasing(f, next, size);
      var rest := Walk(f, next, size).value;
      BlockBounds(f, cur, c1, kind, name, size, entries, next);
      AfterAppend(entries, rest, cur);
      if size > 0 {
        BlockIncreasing(f, c1, kind, name, size);
        IncreasingAppend(entries, rest, next);
      }
    }
  }

  // ---------------------------------------------------------------------
  // Sections written block by block

  /** One block as laid out in a file: the declaration line `head`, for a
      scalar the lookup-table line `lookup`, then `data` (one field, or
      three for a vector) and a newline. Both lines keep their newline.
      `name` is the name the declaration stands for, as the walk records
      it. */
  datatype VtkBlock = VtkBlock(kind: Kind, name: string, head: seq<byte>, lookup: seq<byte>, data: seq<byte>)

  /** One whole line: a newline at the end and nowhere else. */
  predicate IsLine(l: seq<byte>) {
    && |l| > 0 && l[|l| - 1] == NEWLINE
    && forall k :: 0 <= k < |l| - 1 ==> l[k] != NEWLINE
  }

  function DataSize(k: Kind, size: nat): nat {
    match k
    case Scalars => size
    case Vectors => size + size + size
  }

  /** The layout a writer produces: whole lines, a declaration line of
      more than a newline, and data of the size the kind calls for. */
  predicate LaidOut(b: VtkBlock, size: nat) {
    && |b.head| >= 2 && IsLine(b.head) && IsLine(b.lookup)
    && |b.data| == DataSize(b.kind, size)
  }

  /** The declaration line states the block's kind and name. */
  predicate Declares(b: VtkBlock) {
    Declaration(b.head) == Ok((b.kind, b.name))
  }

  predicate WellFormed(b: VtkBlock, size: nat) {
    LaidOut(b, size) && Declares(b)
  }

  predicate AllWellFormed(bs: seq<VtkBlock>, size: nat) {
    forall i :: 0 <= i < |bs| ==> WellFormed(bs[i], size)
  }

  function Render(b: VtkBlock): seq<byte> {
    b.head + (if b.kind == Scalars then b.lookup else []) + b.data + [NEWLINE]
  }

  function Encode(bs: seq<VtkBlock>): seq<byte> {
    if |bs| == 0 then [] else Render(bs[0]) + Encode(bs[1..])
  }

  /** The assignments a block written at `cur` should produce: a scalar's
      offset is where its data starts, past the lookup-table line; a
      vector's three components start one field apart, right after the
      declaration. */
  function Entries(b: VtkBlock, cur: nat, size: nat): seq<(string, nat)> {
    var c1 := cur + |b.head|;
    match b.kind
    case Scalars => [(b.name, c1 + |b.lookup|)]
    case Vectors => [(b.name + "_X", c1), (b.name + "_Y", c1 + size), (b.name + "_Z", c1 + size + size)]
  }

  function Expected(bs: seq<VtkBlock>, cur: nat, size: nat): seq<(string, nat)> {
    if |bs| == 0 then [] else Entries(bs[0], cur, size) + Expected(bs[1..], cur + |Render(bs[0])|, size)
  }

  /** A whole line is read whole. */
  lemma LineRead(f: seq<byte>, c: nat, l: seq<byte>)
    requires IsLine(l)
    requires c + |l| <= |f| && f[c..c + |l|] == l
    ensures ReadLine(f, c) == (l, c + |l|)
  {
    LineEndSpec(f, c);
    assert f[c + |l| - 1] == l[|l| - 1];
  }

  /** A slice of the bytes written at `cur` is the same slice of what was
      written. */
  lemma WrittenSlice(f: seq<byte>, cur: nat, w: seq<byte>, a: nat, b: nat)
    requires cur + |w| <= |f| && f[cur..cur + |w|] == w
    requires a <= b <= |w|
    ensures f[cur + a..cur + b] == w[a..b]
  {
    assert forall k :: a <= k < b ==> f[cur + k] == w[k];
  }

  /** Bytes written as `r` followed by `rest` at `cur` hold `r` at `cur` and
      `rest` right after. */
  lemma WrittenSplit(f: seq<byte>, cur: nat, r: seq<byte>, rest: seq<byte>)
    requires cur + |r + rest| <= |f| && f[cur..cur + |r + rest|] == r + rest
    ensures cur + |r| <= |f| && f[cur..cur + |r|] == r
    ensures cur + |r| + |rest| <= |f| && f[cur + |r|..cur + |r| + |rest|] == rest
  {
    var e := r + rest;
    assert e[..|r|] == r;
    assert e[|r|..] == rest;
    WrittenSlice(f, cur, e, 0, |r|);
    WrittenSlice(f, cur, e, |r|, |e|);
  }

  /** Where the lines of a written block lie. */
  lemma BlockLayout(f: seq<byte>, cur: nat, b: VtkBlock, size: nat)
    requires LaidOut(b, size)
    requires cur + |Render(b)| <= |f| && f[cur..cur + |Render(b)|] == Render(b)
    ensures var c1 := cur + |b.head|;
      && f[cur..c1] == b.head
      && (b.kind == Scalars ==>
            && f[c1..c1 + |b.lookup|] == b.lookup
            && |Render(b)| == |b.head| + |b.lookup| + size + 1)
      && (b.kind == Vectors ==> |Render(b)| == |b.head| + size + size + size + 1)
      && f[cur + |Render(b)| - 1] == NEWLINE
  {
    var r := Render(b);
    var h := |b.head|;
    assert r[..h] == b.head;
    WrittenSlice(f, cur, r, 0, h);
    if b.kind == Scalars {
      assert r == b.head + b.lookup + b.data + [NEWLINE];
      assert r[h..h + |b.lookup|] == b.lookup;
      WrittenSlice(f, cur, r, h, h + |b.lookup|);
    }
    assert f[cur + |r| - 1] == r[|r| - 1];
  }

  /** A scalar block laid out as written: one offset, past the lookup-table
      line, and the cursor past the trailing newline. */
  lemma ScalarBlockRead(f: seq<byte>, c1: nat, name: string, lookup: seq<byte>, size: nat)
    requires IsLine(lookup)
    requires c1 + |lookup| <= |f| && f[c1..c1 + |lookup|] == lookup
    requires c1 + |lookup| + size < |f| && f[c1 + |lookup| + size] == NEWLINE
    ensures Block(f, c1, Scalars, name, size) == Ok(([(name, c1 + |lookup|)], c1 + |lookup| + size + 1))
  {
    LineRead(f, c1, lookup);
    LineRead(f, c1 + |lookup| + size, [NEWLINE]);
  }

  /** A vector block laid out as written: three offsets one field apart, and
      the cursor past the trailing newline. */
  lemma VectorBlockRead(f: seq<byte>, c1: nat, name: string, size: nat)
    requires c1 + size + size + size < |f| && f[c1 + size + size + size] == NEWLINE
    ensures Block(f, c1, Vectors, name, size)
         == Ok(([(name + "_X", c1), (name + "_Y", c1 + size), (name + "_Z", c1 + size + size)],
                c1 + size + size + size + 1))
  {
    LineRead(f, c1 + size + size + size, [NEWLINE]);
  }

  /** The declaration line of a written block is read whole. */
  lemma HeadRead(f: seq<byte>, cur: nat, b: VtkBlock, size: nat)
    requires LaidOut(b, size)
    requires cur + |Render(b)| <= |f| && f[cur..cur + |Render(b)|] == Render(b)
    ensures ReadLine(f, cur) == (b.head, cur + |b.head|)
  {
    BlockLayout(f, cur, b, size);
    LineRead(f, cur, b.head);
  }

  lemma ScalarBody(f: seq<byte>, cur: nat, b: VtkBlock, size: nat)
    requires LaidOut(b, size) && b.kind == Scalars
    requires cur + |Render(b)| <= |f| && f[cur..cur + |Render(b)|] == Render(b)
    ensures Block(f, cur + |b.head|, b.kind, b.name, size) == Ok((Entries(b, cur, size), cur + |Render(b)|))
  {
    BlockLayout(f, cur, b, size);
    ScalarBlockRead(f, cur + |b.head|, b.name, b.lookup, size);
  }

  lemma VectorBody(f: seq<byte>, cur: nat, b: VtkBlock, size: nat)
    requires LaidOut(b, size) && b.kind == Vectors
    requires cur + |Render(b)| <= |f| && f[cur..cur + |Render(b)|] == Render(b)
    ensures Block(f, cur + |b.head|, b.kind, b.name, size) == Ok((Entries(b, cur, size), cur + |Render(b)|))
  {
    BlockLayout(f, cur, b, size);
    VectorBlockRead(f, cur + |b.head|, b.name, size);
  }

  /** The lines of a written block are read as the walk expects: the
      declaration line whole, then the block's entries, leaving the cursor
      just past the block. */
  lemma BlockLines(f: seq<byte>, cur: nat, b: VtkBlock, size: nat)
    requires LaidOut(b, size)
    requires cur + |Render(b)| <= |f| && f[cur..cur + |Render(b)|] == Render(b)
    ensures ReadLine(f, cur) == (b.head, cur + |b.head|)
    ensures Block(f, cur + |b.head|, b.kind, b.name, size) == Ok((Entries(b, cur, size), cur + |Render(b)|))
  {
    HeadRead(f, cur, b, size);
    if b.kind == Scalars {
      ScalarBody(f, cur, b, size);
    } else {
      VectorBody(f, cur, b, size);
    }
  }

  /** A pass of the loop that reads a declaration line, parses it and
      reads the block it declares, followed by a walk that succeeds, is a
      walk that succeeds with the block's entries first. */
  lemma WalkCons(f: seq<byte>, cur: nat, size: nat, line: seq<byte>, c1: nat, kind: Kind, name: string,
                 entries: seq<(string, nat)>, next: nat, rest: seq<(string, nat)>)
    requires ReadLine(f, cur) == (line, c1) && |line| >= 2
    requires Declaration(line) == Ok((kind, name))
    requires Block(f, c1, kind, name, size) == Ok((entries, next))
    requires Walk(f, next, size) == Ok(rest)
    ensures Walk(f, cur, size) == Ok(entries + rest)
  {
  }

  /** The walk stops, recording nothing, at a line shorter than two
      bytes. */
  lemma WalkEnd(f: seq<byte>, cur: nat, size: nat)
    requires |ReadLine(f, cur).0| < 2
    ensures Walk(f, cur, size) == Ok([])
  {
  }

  /** One pass of the loop as the walk meets it: the kind and name its
      declaration line declares, the entries the block records and where
      the cursor is after the block. */
  datatype Pass = Pass(kind: Kind, name: string, entries: seq<(string, nat)>, next: nat)

  /** The loop makes pass `p` from `cur`, reading `line` as the
      declaration. */
  predicate PassAt(f: seq<byte>, cur: nat, line: seq<byte>, p: Pass, size: nat) {
    && ReadLine(f, cur) == (line, cur + |line|) && |line| >= 2
    && Declaration(line) == Ok((p.kind, p.name))
    && Block(f, cur + |line|, p.kind, p.name, size) == Ok((p.entries, p.next))
  }

  /** Where the `i`-th of the passes `ps` made from `cur` starts: at `cur`
      for the first, where the one before ended for the others. */
  function StartOf(ps: seq<Pass>, cur: nat, i: nat): nat
    requires i <= |ps|
  {
    if i == 0 then cur else ps[i - 1].next
  }

  /** The loop makes the passes `ps` in turn from `cur`, reading the
      declaration lines `ls`, and then meets a line shorter than two
      bytes. */
  predicate Trace(f: seq<byte>, cur: nat, ls: seq<seq<byte>>, ps: seq<Pass>, size: nat) {
    |ls| == |ps| && AllPassesAt(f, cur, ls, ps, size) && |ReadLine(f, StartOf(ps, cur, |ps|)).0| < 2
  }

  /** The loop makes each of the passes `ps` where the one before ended. */
  predicate AllPassesAt(f: seq<byte>, cur: nat, ls: seq<seq<byte>>, ps: seq<Pass>, size: nat) {
    forall i {:trigger PassAt(f, StartOf(ps, cur, i), ls[i], ps[i], size)} ::
      0 <= i < |ps| && i < |ls| ==> PassAt(f, StartOf(ps, cur, i), ls[i], ps[i], size)
  }

  lemma TraceIntro(f: seq<byte>, cur: nat, ls: seq<seq<byte>>, ps: seq<Pass>, size: nat)
    requires |ls| == |ps| && AllPassesAt(f, cur, ls, ps, size)
    requires |ReadLine(f, StartOf(ps, cur, |ps|)).0| < 2
    ensures Trace(f, cur, ls, ps, size)
  {
  }

  /** The entries the passes record, in order. */
  function Logged(ps: seq<Pass>): seq<(string, nat)> {
    if |ps| == 0 then [] else ps[0].entries + Logged(ps[1..])
  }

  /** A pass followed by a walk that succeeds is a walk that succeeds with
      the pass's entries first. */
  lemma WalkPass(f: seq<byte>, cur: nat, line: seq<byte>, p: Pass, size: nat, rest: seq<(string, nat)>)
    requires PassAt(f, cur, line, p, size)
    requires Walk(f, p.next, size) == Ok(rest)
    ensures Walk(f, cur, size) == Ok(p.entries + rest)
  {
    WalkCons(f, cur, size, line, cur + |line|, p.kind, p.name, p.entries, p.next, rest);
  }

  /** The walk from the start of the `k`-th pass records what that pass and
      the ones after it record. */
  lemma {:induction false} WalkSuffix(f: seq<byte>, cur: nat, ls: seq<seq<byte>>, ps: seq<Pass>, k: nat, size: nat)
    requires Trace(f, cur, ls, ps, size) && k <= |ps|
    ensures Walk(f, StartOf(ps, cur, k), size) == Ok(Logged(ps[k..]))
    decreases |ps| - k
  {
    if k == |ps| {
      WalkSuffixEnd(f, cur, ls, ps, size);
    } else {
      WalkSuffix(f, cur, ls, ps, k + 1, size);
      WalkSuffixStep(f, cur, ls, ps, k, size);
    }
  }

  lemma WalkSuffixEnd(f: seq<byte>, cur: nat, ls: seq<seq<byte>>, ps: seq<Pass>, size: nat)
    requires Trace(f, cur, ls, ps, size)
    ensures Walk(f, StartOf(ps, cur, |ps|), size) == Ok(Logged(ps[|ps|..]))
  {
    WalkEnd(f, StartOf(ps, cur, |ps|), size);
    assert ps[|ps|..] == [];
  }

  lemma WalkSuffixStep(f: seq<byte>, cur: nat, ls: seq<seq<byte>>, ps: seq<Pass>, k: nat, size: nat)
    requires Trace(f, cur, ls, ps, size) && k < |ps|
    requires Walk(f, StartOf(ps, cur, k + 1), size) == Ok(Logged(ps[k + 1..]))
    ensures Walk(f, StartOf(ps, cur, k), size) == Ok(Logged(ps[k..]))
  {
    assert PassAt(f, StartOf(ps, cur, k), ls[k], ps[k], size);
    WalkPass(f, StartOf(ps, cur, k), ls[k], ps[k], size, Logged(ps[k + 1..]));
    assert ps[k..][1..] == ps[k + 1..];
  }

  /** A walk that makes the passes `ps` succeeds with what they record. */
  lemma WalkTrace(f: seq<byte>, cur: nat, ls: seq<seq<byte>>, ps: seq<Pass>, size: nat)
    requires Trace(f, cur, ls, ps, size)
    ensures Walk(f, cur, size) == Ok(Logged(ps))
  {
    WalkSuffix(f, cur, ls, ps, 0, size);
    assert ps[0..] == ps;
  }

  /** The pass the loop should make over block `b` written at `cur`. */
  function PassOf(b: VtkBlock, cur: nat, size: nat): Pass {
    Pass(b.kind, b.name, Entries(b, cur, size), cur + |Render(b)|)
  }

  /** The passes the loop should make over blocks written in turn from
      `cur`. */
  function Passes(bs: seq<VtkBlock>, cur: nat, size: nat): (ps: seq<Pass>)
    ensures |ps| == |bs|
    decreases |bs|
  {
    if |bs| == 0 then [] else [PassOf(bs[0], cur, size)] + Passes(bs[1..], cur + |Render(bs[0])|, size)
  }

  /** The declaration lines of the blocks. */
  function Heads(bs: seq<VtkBlock>): seq<seq<byte>> {
    seq(|bs|, i requires 0 <= i < |bs| => bs[i].head)
  }

  /** What those passes record is what the blocks should produce. */
  lemma {:induction false} LoggedPasses(bs: seq<VtkBlock>, cur: nat, size: nat)
    ensures Logged(Passes(bs, cur, size)) == Expected(bs, cur, size)
    decreases |bs|
  {
    if |bs| > 0 {
      var ps := Passes(bs, cur, size);
      assert ps[1..] == Passes(bs[1..], cur + |Render(bs[0])|, size);
      LoggedPasses(bs[1..], cur + |Render(bs[0])|, size);
    }
  }

  /** Where the `i`-th of the blocks `bs` written in turn from `cur`
      starts. */
  function Offset(bs: seq<VtkBlock>, cur: nat, i: nat): nat
    requires i <= |bs|
    decreases i
  {
    if i == 0 then cur else Offset(bs[1..], cur + |Render(bs[0])|, i - 1)
  }

  /** Each block starts where the one before it ends. */
  lemma {:induction false} OffsetNext(bs: seq<VtkBlock>, cur: nat, i: nat)
    requires i < |bs|
    ensures Offset(bs, cur, i + 1) == Offset(bs, cur, i) + |Render(bs[i])|
    decreases i
  {
    if i > 0 {
      OffsetNext(bs[1..], cur + |Render(bs[0])|, i - 1);
    }
  }

  /** The blocks end where the written section ends. */
  lemma {:induction false} OffsetEnd(bs: seq<VtkBlock>, cur: nat)
    ensures Offset(bs, cur, |bs|) == cur + |Encode(bs)|
    decreases |bs|
  {
    if |bs| > 0 {
      OffsetEnd(bs[1..], cur + |Render(bs[0])|);
    }
  }

  /** The `i`-th pass is the pass over the `i`-th block, where that block
      starts. */
  lemma {:induction false} PassesIndex(bs: seq<VtkBlock>, cur: nat, size: nat, i: nat)
    requires i < |bs|
    ensures Passes(bs, cur, size)[i] == PassOf(bs[i], Offset(bs, cur, i), size)
    decreases i
  {
    if i > 0 {
      var next := cur + |Render(bs[0])|;
      PassesIndex(bs[1..], next, size, i - 1);
      assert Passes(bs, cur, size)[i] == Passes(bs[1..], next, size)[i - 1];
    }
  }

  /** Each pass starts where its block was written. */
  lemma StartOfPasses(bs: seq<VtkBlock>, cur: nat, size: nat, i: nat)
    requires i <= |bs|
    ensures StartOf(Passes(bs, cur, size), cur, i) == Offset(bs, cur, i)
  {
    if i > 0 {
      PassesIndex(bs, cur, size, i - 1);
      OffsetNext(bs, cur, i - 1);
    }
  }

  /** In a written section, each block lies where it starts. */
  lemma {:induction false} EncodedAt(f: seq<byte>, cur: nat, bs: seq<VtkBlock>, i: nat)
    requires cur + |Encode(bs)| <= |f| && f[cur..cur + |Encode(bs)|] == Encode(bs)
    requires i < |bs|
    ensures var at := Offset(bs, cur, i);
      at + |Render(bs[i])| <= |f| && f[at..at + |Render(bs[i])|] == Render(bs[i])
    decreases i
  {
    WrittenSplit(f, cur, Render(bs[0]), Encode(bs[1..]));
    if i > 0 {
      EncodedAt(f, cur + |Render(bs[0])|, bs[1..], i - 1);
    }
  }

  /** A block written where the `i`-th pass starts is read back by that
      pass. */
  lemma EncodedPassAt(f: seq<byte>, cur: nat, bs: seq<VtkBlock>, size: nat, i: nat)
    requires i < |bs| && WellFormed(bs[i], size)
    requires var at := Offset(bs, cur, i);
      at + |Render(bs[i])| <= |f| && f[at..at + |Render(bs[i])|] == Render(bs[i])
    ensures PassAt(f, StartOf(Passes(bs, cur, size), cur, i), Heads(bs)[i], Passes(bs, cur, size)[i], size)
  {
    var at := Offset(bs, cur, i);
    PassesIndex(bs, cur, size, i);
    StartOfPasses(bs, cur, size, i);
    WrittenPassAt(f, at, bs[i], size);
    PassAtSame(f, at, bs[i].head, PassOf(bs[i], at, size),
               StartOf(Passes(bs, cur, size), cur, i), Heads(bs)[i], Passes(bs, cur, size)[i], size);
  }

  lemma EncodedPassAtIndex(f: seq<byte>, cur: nat, bs: seq<VtkBlock>, size: nat, i: nat)
    requires AllWellFormed(bs, size)
    requires cur + |Encode(bs)| <= |f| && f[cur..cur + |Encode(bs)|] == Encode(bs)
    requires i < |bs|
    ensures PassAt(f, StartOf(Passes(bs, cur, size), cur, i), Heads(bs)[i], Passes(bs, cur, size)[i], size)
  {
    assert WellFormed(bs[i], size);
    EncodedAt(f, cur, bs, i);
    EncodedPassAt(f, cur, bs, size, i);
  }

  lemma PassAtSame(f: seq<byte>, cur: nat, line: seq<byte>, p: Pass, cur': nat, line': seq<byte>, p': Pass, size: nat)
    requires PassAt(f, cur, line, p, size) && cur' == cur && line' == line && p' == p
    ensures PassAt(f, cur', line', p', size)
  {
  }

  /** A written block is read back by one pass of the loop: its declaration
      is parsed, its entries are recorded where its data starts, and the
      cursor ends just past the block. */
  lemma WrittenPassAt(f: seq<byte>, cur: nat, b: VtkBlock, size: nat)
    requires WellFormed(b, size)
    requires cur + |Render(b)| <= |f| && f[cur..cur + |Render(b)|] == Render(b)
    ensures PassAt(f, cur, b.head, PassOf(b, cur, size), size)
  {
    BlockLines(f, cur, b, size);
    PassOfLines(f, cur, b, size);
  }

  lemma PassOfLines(f: seq<byte>, cur: nat, b: VtkBlock, size: nat)
    requires |b.head| >= 2 && Declares(b)
    requires ReadLine(f, cur) == (b.head, cur + |b.head|)
    requires Block(f, cur + |b.head|, b.kind, b.name, size) == Ok((Entries(b, cur, size), cur + |Render(b)|))
    ensures PassAt(f, cur, b.head, PassOf(b, cur, size), size)
  {
  }

  lemma PassIntro(f: seq<byte>, cur: nat, line: seq<byte>, kind: Kind, name: string,
                  entries: seq<(string, nat)>, next: nat, p: Pass, size: nat)
    requires ReadLine(f, cur) == (line, cur + |line|) && |line| >= 2
    requires Declaration(line) == Ok((kind, name))
    requires Block(f, cur + |line|, kind, name, size) == Ok((entries, next))
    requires p == Pass(kind, name, entries, next)
    ensures PassAt(f, cur, line, p, size)
  {
  }

  /** A section of well-formed blocks written in turn, and ended by the end
      of the file or a line shorter than two bytes, is read by one pass of
      the loop per block. */
  lemma EncodedTrace(f: seq<byte>, cur: nat, bs: seq<VtkBlock>, size: nat)
    requires AllWellFormed(bs, size)
    requires cur + |Encode(bs)| <= |f| && f[cur..cur + |Encode(bs)|] == Encode(bs)
    requires |ReadLine(f, cur + |Encode(bs)|).0| < 2
    ensures Trace(f, cur, Heads(bs), Passes(bs, cur, size), size)
  {
    EncodedAllPasses(f, cur, bs, size);
    TraceOfPasses(f, cur, bs, size);
  }

  lemma TraceOfPasses(f: seq<byte>, cur: nat, bs: seq<VtkBlock>, size: nat)
    requires AllPassesAt(f, cur, Heads(bs), Passes(bs, cur, size), size)
    requires |ReadLine(f, cur + |Encode(bs)|).0| < 2
    ensures Trace(f, cur, Heads(bs), Passes(bs, cur, size), size)
  {
    StartOfPasses(bs, cur, size, |bs|);
    OffsetEnd(bs, cur);
    TraceIntro(f, cur, Heads(bs), Passes(bs, cur, size), size);
  }

  lemma EncodedAllPasses(f: seq<byte>, cur: nat, bs: seq<VtkBlock>, size: nat)
    requires AllWellFormed(bs, size)
    requires cur + |Encode(bs)| <= |f| && f[cur..cur + |Encode(bs)|] == Encode(bs)
    ensures AllPassesAt(f, cur, Heads(bs), Passes(bs, cur, size), size)
  {
    var ps := Passes(bs, cur, size);
    var ls := Heads(bs);
    forall i {:trigger PassAt(f, StartOf(ps, cur, i), ls[i], ps[i], size)} | 0 <= i < |ps| && i < |ls|
      ensures PassAt(f, StartOf(ps, cur, i), ls[i], ps[i], size)
    {
      EncodedPassAtIndex(f, cur, bs, size, i);
    }
  }

  /** A section written block by block, and ended by the end of the file or
      a line shorter than two bytes, is walked back to exactly the entries
      each block should produce, in writing order. */
  lemma WalkEncoded(f: seq<byte>, cur: nat, bs: seq<VtkBlock>, size: nat)
    requires AllWellFormed(bs, size)
    requires cur + |Encode(bs)| <= |f| && f[cur..cur + |Encode(bs)|] == Encode(bs)
    requires |ReadLine(f, cur + |Encode(bs)|).0| < 2
    ensures Walk(f, cur, size) == Ok(Expected(bs, cur, size))
  {
    EncodedTrace(f, cur, bs, size);
    WalkTrace(f, cur, Heads(bs), Passes(bs, cur, size), size);
    LoggedPasses(bs, cur, size);
  }

  /** The offset index of such a section is the fold of those entries. */
  lemma OffsetIndexOfEncoded(f: seq<byte>, cur: nat, bs: seq<VtkBlock>, size: nat)
    requires AllWellFormed(bs, size)
    requires cur + |Encode(bs)| <= |f| && f[cur..cur + |Encode(bs)|] == Encode(bs)
    requires |ReadLine(f, cur + |Encode(bs)|).0| < 2
    ensures ReadFieldOffsetIndex(f, cur, size) == Ok(FromPairs(Expected(bs, cur, size)))
  {
    WalkEncoded(f, cur, bs, size);
  }

  // ---------------------------------------------------------------------
  // The loop as written

  /** `read_field_offset_index` as h5_io.py spells it: a block is declared,
      its first offset recorded, then `read_single_field` is looked up and
      raises NameError. Only a first line shorter than two bytes ends the
      loop normally. */
  function WalkAsWritten(f: seq<byte>, cur: nat): (r: Result<seq<(string, nat)>, VtkError>) {
    var (line, c1) := ReadLine(f, cur);
    if |line| < 2 then Ok([])
    else
      var decl :- Declaration(line);
      if decl.0 == Scalars && c1 >= |f| then Err(MissingLine) else Err(UndefinedName)
  }

  /** As written, the loop succeeds only on a section that is empty from
      the start, and there it agrees with `Walk`; wherever `Walk` records an
      offset, the code as written raises NameError instead. */
  lemma WalkAsWrittenRaises(f: seq<byte>, cur: nat, size: nat)
    ensures WalkAsWritten(f, cur).Ok? <==> |ReadLine(f, cur).0| < 2
    ensures WalkAsWritten(f, cur).Ok? ==> WalkAsWritten(f, cur) == Walk(f, cur, size) == Ok([])
    ensures Walk(f, cur, size).Ok? && |Walk(f, cur, size).value| > 0 ==>
      WalkAsWritten(f, cur) == Err(UndefinedName)
  {
    if Walk(f, cur, size).Ok? && |Walk(f, cur, size).value| > 0 {
      WalkStopsAtShortLine(f, cur, size);
      WalkStep(f, cur, size);
    }
  }

  /** Any section holding at least one block written as `WalkEncoded`
      describes is walked by `Walk` to its blocks' entries, while the code as
      written raises NameError on it. */
  lemma EncodedSectionRaises(f: seq<byte>, cur: nat, bs: seq<VtkBlock>, size: nat)
    requires |bs| > 0 && AllWellFormed(bs, size)
    requires cur + |Encode(bs)| <= |f| && f[cur..cur + |Encode(bs)|] == Encode(bs)
    requires |ReadLine(f, cur + |Encode(bs)|).0| < 2
    ensures Walk(f, cur, size) == Ok(Expected(bs, cur, size)) && |Expected(bs, cur, size)| > 0
    ensures WalkAsWritten(f, cur) == Err(UndefinedName)
  {
    WalkEncoded(f, cur, bs, size);
    assert |Entries(bs[0], cur, size)| > 0;
    WalkAsWrittenRaises(f, cur, size);
  }

  /** A file holding nothing but one well-formed block, such as
      `SCALARS rho float`, its lookup-table line, the data and a trailing
      newline: `Walk` records the block's entries, the code as written
      raises NameError. */
  lemma SingleBlockRaises(b: VtkBlock, size: nat)
    requires WellFormed(b, size)
    ensures Walk(Render(b), 0, size) == Ok(Entries(b, 0, size))
    ensures WalkAsWritten(Render(b), 0) == Err(UndefinedName)
  {
    var f := Render(b);
    assert Encode([b]) == f by {
      assert [b][1..] == [];
    }
    assert f[0..|f|] == f;
    assert ReadLine(f, |f|).0 == [];
    EncodedSectionRaises(f, 0, [b], size);
    assert Expected([b], 0, size) == Entries(b, 0, size) by {
      assert [b][1..] == [];
    }
  }

  // ---------------------------------------------------------------------
  // The declaration a writer emits

  function KindWord(k: Kind): string {
    match k
    case Scalars => "SCALARS"
    case Vectors => "VECTORS"
  }

  const LOOKUP_LINE: string := "LOOKUP_TABLE default"

  /** A word that can stand in a declaration: one token. */
  predicate IsWord(t: string) {
    Text.IsToken(t)
  }

  function DeclText(k: Kind, name: string, dtype: string): string {
    KindWord(k) + " " + name + " " + dtype
  }

  /** The block a writer emits for a field `name` of type `dtype`. */
  function Written(k: Kind, name: string, dtype: string, data: seq<byte>): VtkBlock {
    VtkBlock(k, Text.Upper(name), DeclLine(k, name, dtype), Utf8.Encode(LOOKUP_LINE) + [NEWLINE], data)
  }

  /** The declaration line, written as UTF-8. */
  function DeclLine(k: Kind, name: string, dtype: string): seq<byte> {
    Utf8.Encode(DeclText(k, name, dtype)) + [NEWLINE]
  }

  /** What a writer emits is read back: `SCALARS name type` and
      `VECTORS name type` parse to their kind and upper-cased name, whatever
      the case of the name. */
  lemma WrittenWellFormed(k: Kind, name: string, dtype: string, data: seq<byte>, size: nat)
    requires IsWord(name) && IsWord(dtype) && |data| == DataSize(k, size)
    ensures WellFormed(Written(k, name, dtype, data), size)
  {
    DeclLineWhole(k, name, dtype);
    LookupLineWhole();
    DeclParses(k, name, dtype);
  }

  lemma NoNewlineLine(s: string)
    requires forall i :: 0 <= i < |s| ==> s[i] != '\n'
    ensures IsLine(Utf8.Encode(s) + [NEWLINE])
  {
    var l := Utf8.Encode(s) + [NEWLINE];
    Utf8.EncodeAvoids(s, '\n');
    assert forall k :: 0 <= k < |l| - 1 ==> l[k] == Utf8.Encode(s)[k];
  }

  lemma LookupLineWhole()
    ensures IsLine(Utf8.Encode(LOOKUP_LINE) + [NEWLINE])
  {
    assert forall i :: 0 <= i < |LOOKUP_LINE| ==> LOOKUP_LINE[i] != '\n';
    NoNewlineLine(LOOKUP_LINE);
  }

  lemma DeclLineWhole(k: Kind, name: string, dtype: string)
    requires IsWord(name) && IsWord(dtype)
    ensures IsLine(DeclLine(k, name, dtype)) && |DeclLine(k, name, dtype)| >= 2
  {
    var t := DeclText(k, name, dtype);
    assert forall i :: 0 <= i < |name| ==> name[i] != '\n';
    assert forall i :: 0 <= i < |dtype| ==> dtype[i] != '\n';
    assert forall i :: 0 <= i < |t| ==> t[i] != '\n';
    NoNewlineLine(t);
  }

  lemma DeclLineText(k: Kind, name: string, dtype: string)
    requires IsWord(name) && IsWord(dtype)
    ensures Utf8.Decode(DeclLine(k, name, dtype)) == Some(DeclText(k, name, dtype) + "\n")
  {
    var t := DeclText(k, name, dtype);
    Utf8.EncodeAppend(t, "\n");
    assert Utf8.Encode("\n") == [NEWLINE];
    Utf8.DecodeEncode(t + "\n");
  }

  lemma DeclParses(k: Kind, name: string, dtype: string)
    requires IsWord(name) && IsWord(dtype)
    ensures Declaration(DeclLine(k, name, dtype)) == Ok((k, Text.Upper(name)))
  {
    DeclTokens(k, name, dtype);
    DeclLineText(k, name, dtype);
  }

  lemma DeclTokens(k: Kind, name: string, dtype: string)
    requires IsWord(name) && IsWord(dtype)
    ensures Text.Split(DeclText(k, name, dtype) + "\n") == [KindWord(k), name, dtype]
  {
    var ts := [KindWord(k), name, dtype];
    Text.SplitAppendSpace(DeclText(k, name, dtype), '\n');
    KindWordIsWord(k);
    DeclTextJoin(k, name, dtype);
    Text.SplitJoin(ts);
  }
  lemma KindWordIsWord(k: Kind)
    ensures IsWord(KindWord(k))
  {
  }

  lemma DeclTextJoin(k: Kind, name: string, dtype: string)
    ensures DeclText(k, name, dtype) == Text.Join([KindWord(k), name, dtype])
  {
    var ts := [KindWord(k), name, dtype];
    assert ts[1..] == [name, dtype];
    assert ts[1..][1..] == [dtype];
    assert Text.Join([dtype]) == dtype;
    assert Text.Join([name, dtype]) == name + " " + dtype;
    assert Text.Join(ts) == KindWord(k) + " " + (name + " " + dtype);
  }

}
