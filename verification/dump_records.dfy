/** One record of an Idefix dump file (yt_idefix/_io/dmp_io.py): a 16-byte
    NUL-padded name, an int32 type code, an int32 rank, `rank` int32
    extents, then the payload. This module decodes the record header and the
    payload, in the serial and in the distributed flavour. Payload values are
    kept as the opaque byte words they are on disk. */
module DumpRecords {
  import opened Results
  import opened ByteReader
  import opened ColumnMajor

  const HEADER_SIZE: nat := 128
  const NAME_SIZE: nat := 16
  const SIZE_INT: nat := 4

  const TWO63: int := 0x8000_0000_0000_0000
  const TWO64: int := 0x1_0000_0000_0000_0000
  /** `sys.maxsize`, the largest byte count a struct format may describe. */
  const SSIZE_MAX: int := TWO63 - 1

  /** The C++ enum `DataType {DoubleType, SingleType, IntegerType}`, i.e. the
      struct letters "d", "f", "i". */
  datatype DType = Double | Single | Integer

  function ElemSize(t: DType): nat {
    match t
    case Double => 8
    case Single => 4
    case Integer => 4
  }

  /** Bytes taken by `n` values of type `t`, i.e. `n * ElemSize(t)`. */
  function ByteSize(n: int, t: DType): int {
    match t
    case Double => 8 * n
    case Single => 4 * n
    case Integer => 4 * n
  }

  /** `DTYPES[code]`. Python list indexing also accepts -3..-1, counting from
      the end of the list. */
  function DTypeOfCode(code: int): (r: Option<DType>)
    ensures r.Some? <==> -3 <= code <= 2
    ensures code == 0 || code == -3 ==> r == Some(Double)
    ensures code == 1 || code == -2 ==> r == Some(Single)
    ensures code == 2 || code == -1 ==> r == Some(Integer)
  {
    var table := [Double, Single, Integer];
    if 0 <= code < 3 then Some(table[code])
    else if -3 <= code < 0 then Some(table[code + 3])
    else None
  }

  /** What the decoder raises. */
  datatype DumpError =
    | Truncated             // struct.error: fewer bytes than the format needs
    | UnknownTypeCode(code: int) // IndexError on DTYPES
    | RankTooLarge(rank: int)    // ValueError(ndim) for a rank above 3
    | BadFormat             // struct.error: a malformed format string
    | SizeTooLong           // struct.error: total struct size too long
    | ReshapeFailed         // ValueError from np.reshape
    | NotSerial(rank: int)  // AssertionError: a serial record must have rank 1
    | EmptyScalar           // IndexError on data[0]

  /** The properties of a record; the rank is `|extents|`. */
  datatype Header = Header(name: string, dtype: DType, extents: seq<int>)

  function Rank(h: Header): nat {
    |h.extents|
  }

  /** Bytes taken by `n` int32 fields, i.e. `n * SIZE_INT`. */
  function Int32Bytes(n: int): int {
    4 * n
  }

  /** Bytes taken by a record header of the given rank. */
  function HeaderBytes(rank: nat): nat {
    NAME_SIZE + Int32Bytes(2 + rank)
  }

  function Int32At(f: seq<byte>, at: nat): int
    requires at + SIZE_INT <= |f|
  {
    Int32Of(f[at], f[at + 1], f[at + 2], f[at + 3])
  }

  /** `n` consecutive int32 fields. */
  function Int32s(f: seq<byte>, at: nat, n: nat): (xs: seq<int>)
    requires at + Int32Bytes(n) <= |f|
    ensures |xs| == n
    decreases n
  {
    if n == 0 then [] else [Int32At(f, at)] + Int32s(f, at + SIZE_INT, n - 1)
  }

  /** The `i`-th of `n` consecutive int32 fields is the one `4 * i` bytes in. */
  lemma {:induction false} Int32sAt(f: seq<byte>, at: nat, n: nat, i: nat)
    requires at + Int32Bytes(n) <= |f| && i < n
    ensures Int32s(f, at, n)[i] == Int32At(f, at + Int32Bytes(i))
    decreases n
  {
    if i > 0 {
      Int32sAt(f, at + SIZE_INT, n - 1, i - 1);
    }
  }

  /** `read_next_field_properties`: the name, the type code looked up in
      DTYPES, the rank (at most 3) and the extents. */
  function ParseHeader(f: seq<byte>, cur: nat): (r: Result<(Header, nat), DumpError>)
    ensures r.Ok? ==> Rank(r.value.0) <= 3
    ensures r.Ok? ==> r.value.1 == cur + HeaderBytes(Rank(r.value.0)) <= |f|
  {
    var (name, c1) := ReadNullTerminatedString(f, cur, NAME_SIZE);
    if c1 + SIZE_INT > |f| then Err(Truncated)
    else
      var code := Int32At(f, c1);
      var dtype := DTypeOfCode(code);
      if dtype.None? then Err(UnknownTypeCode(code))
      else if c1 + Int32Bytes(2) > |f| then Err(Truncated)
      else
        var rank := Int32At(f, c1 + SIZE_INT);
        if rank > 3 then Err(RankTooLarge(rank))
        else if rank < 0 then Err(BadFormat)
        else if c1 + Int32Bytes(2 + rank) > |f| then Err(Truncated)
        else
          var dims := Int32s(f, c1 + Int32Bytes(2), rank);
          Ok((Header(name, dtype.value, dims), c1 + Int32Bytes(2 + rank)))
  }

  /** What a parsed header is made of: the name read from the 16-byte slot,
      the type looked up from the first int32, the rank from the second and
      the extents from the `rank` int32s after them. A rank above 3 is
      refused whatever the extents. */
  lemma ParseHeaderFields(f: seq<byte>, cur: nat)
    ensures var r := ParseHeader(f, cur);
      && (r.Ok? ==> var (h, next) := r.value;
        && h.name == ReadNullTerminatedString(f, cur, NAME_SIZE).0
        && Some(h.dtype) == DTypeOfCode(Int32At(f, cur + NAME_SIZE))
        && Rank(h) == Int32At(f, cur + NAME_SIZE + SIZE_INT)
        && h.extents == Int32s(f, cur + HeaderBytes(0), Rank(h)))
      && (r.Err? && r.error.RankTooLarge? ==> r.error.rank > 3)
      && (cur + HeaderBytes(0) <= |f| && DTypeOfCode(Int32At(f, cur + NAME_SIZE)).Some?
          && Int32At(f, cur + NAME_SIZE + SIZE_INT) > 3
          ==> r == Err(RankTooLarge(Int32At(f, cur + NAME_SIZE + SIZE_INT))))
  {
  }

  // ---------------------------------------------------------------------
  // The header a writer emits (Idefix's `OutputDump::WriteField` layout)

  /** The code of a type: its position in DTYPES. */
  function CodeOf(t: DType): int {
    match t
    case Double => 0
    case Single => 1
    case Integer => 2
  }

  /** A header a writer can emit: a name that fits its slot, at most three
      extents, each an int32. */
  predicate Writable(h: Header) {
    && IsSlotName(h.name, NAME_SIZE) && Rank(h) <= 3
    && forall k :: 0 <= k < |h.extents| ==> INT32_MIN <= h.extents[k] < INT32_BOUND
  }

  /** `xs` as consecutive int32 fields. */
  function EncodeInt32s(xs: seq<int>): (b: seq<byte>)
    requires forall k :: 0 <= k < |xs| ==> INT32_MIN <= xs[k] < INT32_BOUND
    ensures |b| == Int32Bytes(|xs|)
  {
    if |xs| == 0 then [] else EncodeInt32(xs[0]) + EncodeInt32s(xs[1..])
  }

  /** The padded name, the type code, the rank and the extents. */
  function EncodeHeader(h: Header): (b: seq<byte>)
    requires Writable(h)
    ensures |b| == HeaderBytes(Rank(h))
  {
    PadName(h.name, NAME_SIZE) + EncodeInt32(CodeOf(h.dtype)) + EncodeInt32(Rank(h)) + EncodeInt32s(h.extents)
  }

  /** A piece of bytes written at `cur` is found at its place in the file. */
  lemma SubSlice(f: seq<byte>, cur: nat, w: seq<byte>, i: nat, j: nat)
    requires cur + |w| <= |f| && f[cur..cur + |w|] == w && i <= j <= |w|
    ensures f[cur + i..cur + j] == w[i..j]
  {
    var a, v := f[cur + i..cur + j], f[cur..cur + |w|];
    assert forall k :: 0 <= k < j - i ==> a[k] == v[i + k];
  }

  /** An int32 written at `at` reads back as itself. */
  lemma Int32AtEncoded(f: seq<byte>, at: nat, x: int)
    requires INT32_MIN <= x < INT32_BOUND
    requires at + SIZE_INT <= |f| && f[at..at + SIZE_INT] == EncodeInt32(x)
    ensures Int32At(f, at) == x
  {
    DecodeEncodeInt32(x);
    var b := f[at..at + SIZE_INT];
    assert b[0] == f[at] && b[1] == f[at + 1] && b[2] == f[at + 2] && b[3] == f[at + 3];
  }

  /** Consecutive int32 fields written at `at` read back as themselves. */
  lemma {:induction false} Int32sEncoded(f: seq<byte>, at: nat, xs: seq<int>)
    requires forall k :: 0 <= k < |xs| ==> INT32_MIN <= xs[k] < INT32_BOUND
    requires at + Int32Bytes(|xs|) <= |f| && f[at..at + Int32Bytes(|xs|)] == EncodeInt32s(xs)
    ensures Int32s(f, at, |xs|) == xs
    decreases |xs|
  {
    if |xs| > 0 {
      var w := EncodeInt32s(xs);
      SubSlice(f, at, w, 0, SIZE_INT);
      SubSlice(f, at, w, SIZE_INT, |w|);
      assert w[..SIZE_INT] == EncodeInt32(xs[0]) && w[SIZE_INT..] == EncodeInt32s(xs[1..]);
      Int32AtEncoded(f, at, xs[0]);
      Int32sEncoded(f, at + SIZE_INT, xs[1..]);
      assert [xs[0]] + xs[1..] == xs;
    }
  }

  /** A written header parses back as itself, and the parse ends where the
      header does, whatever follows it. */
  lemma ParseEncodedHeader(h: Header, f: seq<byte>, cur: nat)
    requires Writable(h)
    requires cur + HeaderBytes(Rank(h)) <= |f| && f[cur..cur + HeaderBytes(Rank(h))] == EncodeHeader(h)
    ensures ParseHeader(f, cur) == Ok((h, cur + HeaderBytes(Rank(h))))
  {
    HeaderSlices(h, f, cur);
    ReadPaddedName(h.name, NAME_SIZE, f, cur);
    Int32AtEncoded(f, cur + NAME_SIZE, CodeOf(h.dtype));
    Int32AtEncoded(f, cur + NAME_SIZE + SIZE_INT, Rank(h));
    Int32sEncoded(f, cur + HeaderBytes(0), h.extents);
    ParseHeaderOfParts(f, cur, h);
  }

  /** Where the parts of a written header lie in the file. */
  lemma HeaderSlices(h: Header, f: seq<byte>, cur: nat)
    requires Writable(h)
    requires cur + HeaderBytes(Rank(h)) <= |f| && f[cur..cur + HeaderBytes(Rank(h))] == EncodeHeader(h)
    ensures f[cur..cur + NAME_SIZE] == PadName(h.name, NAME_SIZE)
    ensures f[cur + NAME_SIZE..cur + NAME_SIZE + SIZE_INT] == EncodeInt32(CodeOf(h.dtype))
    ensures f[cur + NAME_SIZE + SIZE_INT..cur + HeaderBytes(0)] == EncodeInt32(Rank(h))
    ensures f[cur + HeaderBytes(0)..cur + HeaderBytes(Rank(h))] == EncodeInt32s(h.extents)
  {
    var w := EncodeHeader(h);
    SubSlice(f, cur, w, 0, NAME_SIZE);
    SubSlice(f, cur, w, NAME_SIZE, NAME_SIZE + SIZE_INT);
    SubSlice(f, cur, w, NAME_SIZE + SIZE_INT, HeaderBytes(0));
    SubSlice(f, cur, w, HeaderBytes(0), |w|);
    assert w[..NAME_SIZE] == PadName(h.name, NAME_SIZE);
    assert w[NAME_SIZE..NAME_SIZE + SIZE_INT] == EncodeInt32(CodeOf(h.dtype));
    assert w[NAME_SIZE + SIZE_INT..HeaderBytes(0)] == EncodeInt32(Rank(h));
    assert w[HeaderBytes(0)..] == EncodeInt32s(h.extents);
  }

  /** The header parsed from parts already read: the name from the slot,
      a known type code, a rank of at most 3 and the extents after it. */
  lemma ParseHeaderOfParts(f: seq<byte>, cur: nat, h: Header)
    requires Rank(h) <= 3 && cur + HeaderBytes(Rank(h)) <= |f|
    requires ReadNullTerminatedString(f, cur, NAME_SIZE) == (h.name, cur + NAME_SIZE)
    requires DTypeOfCode(Int32At(f, cur + NAME_SIZE)) == Some(h.dtype)
    requires Int32At(f, cur + NAME_SIZE + SIZE_INT) == Rank(h)
    requires Int32s(f, cur + HeaderBytes(0), Rank(h)) == h.extents
    ensures ParseHeader(f, cur) == Ok((h, cur + HeaderBytes(Rank(h))))
  {
  }

  /** Two's-complement wrap-around to 64 bits. */
  function Wrap64(x: int): (r: int)
    ensures -TWO63 <= r < TWO63
    ensures -TWO63 <= x < TWO63 ==> r == x
  {
    (x + 0x8000_0000_0000_0000) % 0x1_0000_0000_0000_0000 - 0x8000_0000_0000_0000
  }

  /** The element count numpy writes into the struct format: the int64 product
      of the extents, wrapped on overflow. With no extents numpy's product is
      the float `1.0`, and the format `=1.0d` is rejected. A negative count
      is rejected too. */
  function ElementCount(extents: seq<int>): (r: Result<nat, DumpError>)
    ensures r.Ok? ==> |extents| > 0 && r.value == Wrap64(Product(extents))
    ensures |extents| > 0 && 0 <= Product(extents) < TWO63 ==> r == Ok(Product(extents))
    ensures |extents| == 0 ==> r == Err(BadFormat)
  {
    if |extents| == 0 then Err(BadFormat)
    else
      var n := Wrap64(Product(extents));
      if n < 0 then Err(BadFormat) else Ok(n)
  }

  /** `struct.calcsize(f"={count}{dtype}")`: the payload size in bytes. */
  function PayloadSize(extents: seq<int>, dtype: DType): (r: Result<nat, DumpError>)
    ensures r.Ok? ==> (ElementCount(extents).Ok?
      && r.value == ByteSize(ElementCount(extents).value, dtype) <= SSIZE_MAX)
    ensures |extents| > 0 && 0 <= Product(extents) && ByteSize(Product(extents), dtype) <= SSIZE_MAX
      ==> r == Ok(ByteSize(Product(extents), dtype))
  {
    var n :- ElementCount(extents);
    if ByteSize(n, dtype) > SSIZE_MAX then Err(SizeTooLong) else Ok(ByteSize(n, dtype))
  }

  /** A decoded payload: nothing (skipped), the first value (a scalar), or an
      array whose flat values are stored in column-major order. Each value is
      the `ElemSize(dtype)` bytes it occupies on disk. */
  datatype Data =
    | Skipped
    | Scalar(dtype: DType, word: seq<byte>)
    | Array(dtype: DType, extents: seq<int>, elements: seq<seq<byte>>)

  /** Cutting a run of `n` values of type `t` into the values. */
  function Words(b: seq<byte>, n: nat, t: DType): (ws: seq<seq<byte>>)
    requires |b| == ByteSize(n, t)
    ensures |ws| == n
    ensures forall i :: 0 <= i < n ==> |ws[i]| == ElemSize(t)
    decreases n
  {
    if n == 0 then [] else [b[..ElemSize(t)]] + Words(b[ElemSize(t)..], n - 1, t)
  }

  /** The `i`-th value is the `i`-th run of `ElemSize(t)` bytes. */
  lemma {:induction false} WordsAt(b: seq<byte>, n: nat, t: DType, i: nat)
    requires |b| == ByteSize(n, t) && i < n
    ensures 0 <= ByteSize(i, t) < ByteSize(i + 1, t) <= |b|
    ensures Words(b, n, t)[i] == b[ByteSize(i, t)..ByteSize(i + 1, t)]
    decreases n
  {
    if i > 0 {
      var e := ElemSize(t);
      WordsAt(b[e..], n - 1, t, i - 1);
      WordsShift(b, n, t, i);
    }
  }

  /** Dropping the first value shifts every later value down by one. */
  lemma WordsShift(b: seq<byte>, n: nat, t: DType, i: nat)
    requires |b| == ByteSize(n, t) && 0 < i < n
    ensures ByteSize(i, t) == ElemSize(t) + ByteSize(i - 1, t)
    ensures ByteSize(i + 1, t) == ElemSize(t) + ByteSize(i, t)
    ensures Words(b, n, t)[i] == Words(b[ElemSize(t)..], n - 1, t)[i - 1]
    ensures b[ElemSize(t)..][ByteSize(i - 1, t)..ByteSize(i, t)] == b[ByteSize(i, t)..ByteSize(i + 1, t)]
  {
  }

  /** `np.reshape(data, dim, order="F")` succeeds when no extent is negative
      and the count in the struct format was the true, unwrapped product. */
  predicate Reshapable(extents: seq<int>) {
    (forall k :: 0 <= k < |extents| ==> extents[k] >= 0) && Product(extents) < TWO63
  }

  /** `read_chunk`: the payload at `cur` holds `count` values of `dtype`.
      With `skip` the cursor just moves past it (a seek, which may pass the end
      of the file); otherwise the bytes are read and returned either as the
      first value or as the column-major array with the given extents. */
  function ReadChunk(f: seq<byte>, cur: nat, extents: seq<int>, dtype: DType, isScalar: bool, skip: bool)
    : (r: Result<(Data, nat), DumpError>)
    ensures r.Ok? ==> PayloadSize(extents, dtype).Ok? && r.value.1 == cur + PayloadSize(extents, dtype).value
    ensures !skip && r.Ok? ==> r.value.1 <= |f|
  {
    var size :- PayloadSize(extents, dtype);
    if skip then Ok((Skipped, cur + size))
    else if cur + size > |f| then Err(Truncated)
    else
      var n := ElementCount(extents).value;
      var words := Words(f[cur..cur + size], n, dtype);
      if isScalar then
        if |words| == 0 then Err(EmptyScalar) else Ok((Scalar(dtype, words[0]), cur + size))
      else if !Reshapable(extents) then Err(ReshapeFailed)
      else Ok((Array(dtype, extents, words), cur + size))
  }

  /** What `read_chunk` yields and when it fails. Skipping fails only on a
      bad format; otherwise the payload must lie inside the file, a scalar
      needs at least one value and is the first `ElemSize(dtype)` bytes, and
      an array needs reshapable extents and holds the payload cut into
      values. */
  lemma ReadChunkSpec(f: seq<byte>, cur: nat, extents: seq<int>, dtype: DType, isScalar: bool, skip: bool)
    ensures var r := ReadChunk(f, cur, extents, dtype, isScalar, skip);
      var size := PayloadSize(extents, dtype);
      && (skip ==> r == (if size.Ok? then Ok((Skipped, cur + size.value)) else Err(size.error)))
      && (!skip ==> (r.Ok? <==> size.Ok? && cur + size.value <= |f|
                                && (if isScalar then ElementCount(extents).value >= 1 else Reshapable(extents))))
      && (!skip && r.Ok? && isScalar ==>
            && cur + ElemSize(dtype) <= r.value.1
            && r.value.0 == Scalar(dtype, f[cur..cur + ElemSize(dtype)]))
      && (!skip && r.Ok? && !isScalar ==>
            && ElementCount(extents).value == Product(extents)
            && r.value.0 == Array(dtype, extents, Words(f[cur..r.value.1], Product(extents), dtype)))
  {
    var r := ReadChunk(f, cur, extents, dtype, isScalar, skip);
    var size := PayloadSize(extents, dtype);
    if !skip && size.Ok? && cur + size.value <= |f| {
      var n := ElementCount(extents).value;
      var run := f[cur..cur + size.value];
      if isScalar && n >= 1 {
        WordsAt(run, n, dtype, 0);
        assert run[0..ElemSize(dtype)] == f[cur..cur + ElemSize(dtype)];
      }
      if !isScalar && Reshapable(extents) {
        ProductNonNegative(extents);
      }
    }
  }

  /** `read_serial`: a serial record must have rank 1; its values keep the
      declared type. */
  function ReadSerial(f: seq<byte>, cur: nat, h: Header, isScalar: bool): (r: Result<(Data, nat), DumpError>)
    ensures Rank(h) != 1 ==> r == Err(NotSerial(Rank(h)))
    ensures r.Ok? ==> Rank(h) == 1 && cur <= r.value.1 <= |f|
  {
    if Rank(h) != 1 then Err(NotSerial(Rank(h)))
    else ReadChunk(f, cur, h.extents, h.dtype, isScalar, false)
  }

  /** A serial record decodes to a value of its declared type: the array
      with its extents, or the scalar. */
  lemma ReadSerialSpec(f: seq<byte>, cur: nat, h: Header, isScalar: bool)
    requires ReadSerial(f, cur, h, isScalar).Ok?
    ensures var d := ReadSerial(f, cur, h, isScalar).value.0;
      && (isScalar ==> d.Scalar? && d.dtype == h.dtype)
      && (!isScalar ==> d.Array? && d.dtype == h.dtype && d.extents == h.extents)
  {
    ReadChunkSpec(f, cur, h.extents, h.dtype, isScalar, false);
  }

  /** `read_distributed`: the payload is always read as doubles, whatever
      type the record declares. */
  function ReadDistributed(f: seq<byte>, cur: nat, extents: seq<int>, skip: bool): (r: Result<(Data, nat), DumpError>)
    ensures r.Ok? ==> PayloadSize(extents, Double).Ok? && r.value.1 == cur + PayloadSize(extents, Double).value
    ensures !skip && r.Ok? ==> r.value.1 <= |f|
  {
    ReadChunk(f, cur, extents, Double, false, skip)
  }

  /** A distributed payload is skipped whenever its size is well-formed, and
      otherwise decodes to the array of `Product(extents)` eight-byte values
      with the given extents. */
  lemma ReadDistributedSpec(f: seq<byte>, cur: nat, extents: seq<int>, skip: bool)
    ensures var r := ReadDistributed(f, cur, extents, skip);
      && (skip ==> (r.Ok? <==> PayloadSize(extents, Double).Ok?))
      && (skip && r.Ok? ==> r.value.0 == Skipped)
      && (!skip && r.Ok? ==> (r.value.0.Array? && r.value.0.dtype == Double
          && r.value.0.extents == extents && |r.value.0.elements| == Product(extents)
          && (forall i :: 0 <= i < |r.value.0.elements| ==> |r.value.0.elements[i]| == 8)))
  {
    ReadChunkSpec(f, cur, extents, Double, false, skip);
  }

  /** The value at multi-index `idx` of a decoded array. */
  function Element(d: Data, idx: seq<int>): seq<byte>
    requires d.Array? && |d.elements| == Product(d.extents)
    requires InBounds(d.extents, idx)
  {
    LinearIndexInRange(d.extents, idx);
    d.elements[LinearIndex(d.extents, idx)]
  }

  /** The array read from a payload is the payload's run of values laid out
      column-major: the element at `idx` is the value stored at position
      `LinearIndex(extents, idx)` of the run. */
  lemma ArrayIsColumnMajor(f: seq<byte>, cur: nat, extents: seq<int>, dtype: DType, idx: seq<int>)
    requires ReadChunk(f, cur, extents, dtype, false, false).Ok?
    requires InBounds(extents, idx)
    ensures var (d, next) := ReadChunk(f, cur, extents, dtype, false, false).value;
      var p := LinearIndex(extents, idx);
      && 0 <= p < Product(extents)
      && Element(d, idx) == f[cur + ByteSize(p, dtype)..cur + ByteSize(p + 1, dtype)]
  {
    ReadChunkSpec(f, cur, extents, dtype, false, false);
    var (d, next) := ReadChunk(f, cur, extents, dtype, false, false).value;
    var p := LinearIndex(extents, idx);
    LinearIndexInRange(extents, idx);
    var run := f[cur..next];
    WordsAt(run, Product(extents), dtype, p);
    assert d.elements == Words(run, Product(extents), dtype);
    assert Element(d, idx) == d.elements[p];
    assert run[ByteSize(p, dtype)..ByteSize(p + 1, dtype)] == f[cur + ByteSize(p, dtype)..cur + ByteSize(p + 1, dtype)];
  }
}
