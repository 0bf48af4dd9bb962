/** The `grid.out` reader of the PLUTO XDMF front end
    (`PlutoXdmfHierarchy._parse_grid_data` in yt_idefix/data_structures.py).
    A `grid.out` file is a header closed by its second `# ***********`
    line, followed by one block per axis: a line holding the number of
    cells, then one line per cell whose last two numbers are the cell's
    left and right edge. The reader returns each axis's cell widths.
    The file is the list of its lines, each keeping its newline, as
    `readlines()` gives them. */
module GridOut {
  import opened Results
  import Text

  const MARKER: string := "# ***********"

  datatype GridOutError =
    | NoHeader                  // an empty file: the header loop never binds its index
    | NoLine(index: int)        // `lines[index]` out of range
    | BadCount(line: string)    // `int()` refuses a cell-count line
    | ShortRow(line: string)    // a line with fewer than the two tokens it needs
    | BadNumber(token: string)  // `float()` refuses a token

  /** `lines[i]`, a negative index counting from the end as in Python. */
  function LineAt(lines: seq<string>, i: int): (r: Result<string, GridOutError>)
    ensures 0 <= i < |lines| ==> r == Ok(lines[i])
    ensures r.Err? <==> i >= |lines| || i < -|lines|
  {
    if 0 <= i < |lines| then Ok(lines[i])
    else if -|lines| <= i < 0 then Ok(lines[|lines| + i])
    else Err(NoLine(i))
  }

  // ---------------------------------------------------------------------
  // The header

  predicate IsMarker(line: string) {
    Text.Contains(line, MARKER)
  }

  /** Number of marker lines among `ls`. */
  function MarkerCount(ls: seq<string>): nat {
    if |ls| == 0 then 0
    else MarkerCount(ls[..|ls| - 1]) + (if IsMarker(ls[|ls| - 1]) then 1 else 0)
  }

  /** The header loop from line `from` on, having seen `count` markers:
      the index of the line at which the count reaches two. */
  function HeaderEnd(lines: seq<string>, from: nat, count: nat): Option<nat>
    requires from <= |lines| && count < 2
    decreases |lines| - from
  {
    if from == |lines| then None
    else
      var c := if IsMarker(lines[from]) then count + 1 else count;
      if c == 2 then Some(from) else HeaderEnd(lines, from + 1, c)
  }

  /** The header loop stops at the second marker line, and runs off the end
      exactly when there are fewer than two. */
  lemma {:induction false} HeaderEndSpec(lines: seq<string>, from: nat, count: nat)
    requires from <= |lines| && count < 2 && count == MarkerCount(lines[..from])
    ensures var r := HeaderEnd(lines, from, count);
      && (r.None? <==> MarkerCount(lines) < 2)
      && (r.Some? ==> from <= r.value < |lines| && IsMarker(lines[r.value]) && MarkerCount(lines[..r.value]) == 1)
    decreases |lines| - from
  {
    if from == |lines| {
      assert lines[..from] == lines;
    } else {
      assert lines[..from + 1][..from] == lines[..from];
      if MarkerCount(lines[..from + 1]) < 2 {
        HeaderEndSpec(lines, from + 1, MarkerCount(lines[..from + 1]));
      } else {
        MarkerCountMonotone(lines, from + 1);
      }
    }
  }

  lemma {:induction false} MarkerCountMonotone(lines: seq<string>, k: nat)
    requires k <= |lines|
    ensures MarkerCount(lines[..k]) <= MarkerCount(lines)
    decreases |lines| - k
  {
    if k < |lines| {
      assert lines[..k + 1][..k] == lines[..k];
      MarkerCountMonotone(lines, k + 1);
    } else {
      assert lines[..k] == lines;
    }
  }

  /** `_start + 1`: the first line after the header. Without a second
      marker the loop leaves its index at the last line, so the grid data
      would start past the end. */
  function GridStart(lines: seq<string>): Result<int, GridOutError> {
    if |lines| == 0 then Err(NoHeader)
    else match HeaderEnd(lines, 0, 0)
      case Some(i) => Ok(i + 1)
      case None => Ok(|lines|)
  }

  // ---------------------------------------------------------------------
  // Cell counts and rows

  /** `line[:-1]`: the line without its last character (the newline). */
  function Chop(line: string): string {
    if |line| == 0 then "" else line[..|line| - 1]
  }

  /** `int(line[:-1])` */
  function CellCount(line: string): Result<int, GridOutError> {
    match Text.ParseInt(Chop(line))
    case Some(n) => Ok(n)
    case None => Err(BadCount(line))
  }

  function Number(token: string): Result<real, GridOutError> {
    match Text.ParseDecimal(token)
    case Some(x) => Ok(x)
    case None => Err(BadNumber(token))
  }

  /** `float(tokens[-1]) - float(tokens[-2])` for one cell line, raising
      in the order Python evaluates the expression. */
  function RowValue(line: string): Result<real, GridOutError> {
    TokensValue(line, Text.Split(line))
  }

  /** The width from the tokens `ts` of `line`. */
  function TokensValue(line: string, ts: seq<string>): Result<real, GridOutError> {
    if |ts| == 0 then Err(ShortRow(line))
    else
      var right :- Number(ts[|ts| - 1]);
      if |ts| == 1 then Err(ShortRow(line))
      else
        var left :- Number(ts[|ts| - 2]);
        Ok(right - left)
  }

  /** How one cell line is read; the reader uses `RowValue`, and the
      layout lemmas below hold for any reader. */
  type RowReader = string -> Result<real, GridOutError>

  /** The width read from the line at index `i`. */
  function RowWidth(lines: seq<string>, i: int, read: RowReader): Result<real, GridOutError> {
    var line :- LineAt(lines, i);
    read(line)
  }

  /** The widths of the rows at indices `start .. start + n - 1`; none when
      `n` is not positive, as for `range(start, start + n)`. */
  function RowWidths(lines: seq<string>, start: int, n: int, read: RowReader): (r: Result<seq<real>, GridOutError>)
    ensures r.Ok? ==> |r.value| == if n < 0 then 0 else n
    decreases if n < 0 then 0 else n
  {
    if n <= 0 then Ok([])
    else
      var w :- RowWidth(lines, start, read);
      var rest :- RowWidths(lines, start + 1, n - 1, read);
      Ok([w] + rest)
  }

  /** The cell counts of `k` consecutive axis blocks, the first at line
      `at`: each block's count line is followed by that many cell lines. */
  function Counts(lines: seq<string>, at: int, k: nat): (r: Result<seq<int>, GridOutError>)
    ensures r.Ok? ==> |r.value| == k
    decreases k
  {
    if k == 0 then Ok([])
    else
      var c :- LineAt(lines, at);
      var n :- CellCount(c);
      var rest :- Counts(lines, at + n + 1, k - 1);
      Ok([n] + rest)
  }

  /** The widths of the blocks with cell counts `ns`, the first block's
      count line at `at`. */
  function Blocks(lines: seq<string>, at: int, ns: seq<int>, read: RowReader): (r: Result<seq<seq<real>>, GridOutError>)
    ensures r.Ok? ==> |r.value| == |ns|
    decreases |ns|
  {
    if |ns| == 0 then Ok([])
    else
      var w :- RowWidths(lines, at + 1, ns[0], read);
      var rest :- Blocks(lines, at + ns[0] + 1, ns[1..], read);
      Ok([w] + rest)
  }

  /** `_parse_grid_data`: the three cell counts are read first, then the
      three blocks of widths, each block starting one line after its count;
      the three unrolled steps of the source are one loop here. */
  function ParseGridData(lines: seq<string>): Result<(seq<real>, seq<real>, seq<real>), GridOutError> {
    var s :- GridStart(lines);
    var ns :- Counts(lines, s, 3);
    var ws :- Blocks(lines, s, ns, RowValue);
    Ok((ws[0], ws[1], ws[2]))
  }

  /** A file with fewer than two marker lines has no grid data. */
  lemma MissingHeaderRejected(lines: seq<string>)
    requires MarkerCount(lines) < 2
    ensures ParseGridData(lines).Err?
  {
    if |lines| > 0 {
      assert lines[..0] == [];
      HeaderEndSpec(lines, 0, 0);
    }
  }

  /** A row is read as its last number minus the number before it; it
      fails on a missing token or a token that is not a number, checking
      the last token first as Python evaluates `tokens[-1]` first. */
  lemma TokensValueSpec(line: string, ts: seq<string>)
    ensures TokensValue(line, ts).Ok? <==>
              |ts| >= 2 && Text.ParseDecimal(ts[|ts| - 1]).Some? && Text.ParseDecimal(ts[|ts| - 2]).Some?
    ensures TokensValue(line, ts).Ok? ==>
              TokensValue(line, ts).value
              == Text.ParseDecimal(ts[|ts| - 1]).value - Text.ParseDecimal(ts[|ts| - 2]).value
    ensures |ts| == 0 ==> TokensValue(line, ts) == Err(ShortRow(line))
    ensures |ts| == 1 ==>
      TokensValue(line, ts) == (if Text.ParseDecimal(ts[0]).Some? then Err(ShortRow(line)) else Err(BadNumber(ts[0])))
  {
  }

  // ---------------------------------------------------------------------
  // Which lines read as which widths

  /** One cell line: leading tokens (the cell index, possibly more
      columns), then the left and right edge as numerals, with the values
      they stand for. */
  datatype Row = Row(lead: seq<string>, left: string, right: string, lo: real, hi: real)

  predicate WellFormedRow(r: Row) {
    && (forall k :: 0 <= k < |r.lead| ==> Text.IsToken(r.lead[k]))
    && Text.IsToken(r.left) && Text.IsToken(r.right)
    && Text.ParseDecimal(r.left) == Some(r.lo) && Text.ParseDecimal(r.right) == Some(r.hi)
  }

  function RowLine(r: Row): string {
    Text.Join(r.lead + [r.left, r.right]) + "\n"
  }

  /** A cell line splits back into the tokens it was printed from. */
  lemma RowLineTokens(r: Row)
    requires WellFormedRow(r)
    ensures Text.Split(RowLine(r)) == r.lead + [r.left, r.right]
  {
    var ts := r.lead + [r.left, r.right];
    assert forall k :: 0 <= k < |ts| ==> Text.IsToken(ts[k]);
    Text.SplitJoin(ts);
    Text.SplitAppendSpace(Text.Join(ts), '\n');
  }

  /** Tokens whose last two are numerals read as their difference. */
  lemma TokensValueOf(line: string, ts: seq<string>, lo: real, hi: real)
    requires |ts| >= 2 && Text.ParseDecimal(ts[|ts| - 1]) == Some(hi) && Text.ParseDecimal(ts[|ts| - 2]) == Some(lo)
    ensures TokensValue(line, ts) == Ok(hi - lo)
  {
  }

  /** A cell line reads as its width, the right edge minus the left. */
  lemma RowLineValue(r: Row)
    requires WellFormedRow(r)
    ensures RowValue(RowLine(r)) == Ok(r.hi - r.lo)
  {
    var ts := LastTwo(r.lead, r.left, r.right);
    RowLineTokens(r);
    RowValueOfTokens(RowLine(r), ts, r.lo, r.hi);
  }

  lemma LastTwo(lead: seq<string>, left: string, right: string) returns (ts: seq<string>)
    ensures ts == lead + [left, right] && |ts| >= 2 && ts[|ts| - 1] == right && ts[|ts| - 2] == left
  {
    ts := lead + [left, right];
  }

  lemma RowValueOfTokens(line: string, ts: seq<string>, lo: real, hi: real)
    requires Text.Split(line) == ts
    requires |ts| >= 2 && Text.ParseDecimal(ts[|ts| - 1]) == Some(hi) && Text.ParseDecimal(ts[|ts| - 2]) == Some(lo)
    ensures RowValue(line) == Ok(hi - lo)
  {
    TokensValueOf(line, ts, lo, hi);
  }

  /** Lines `ls` read as the widths `ws`, one by one. */
  predicate ReadsAs(ls: seq<string>, ws: seq<real>, read: RowReader) {
    |ls| == |ws| && forall k :: 0 <= k < |ls| ==> read(ls[k]) == Ok(ws[k])
  }

  predicate WellFormedRows(rows: seq<Row>) {
    forall k :: 0 <= k < |rows| ==> WellFormedRow(rows[k])
  }

  function RowLines(rows: seq<Row>): (ls: seq<string>)
    ensures |ls| == |rows|
  {
    seq(|rows|, k requires 0 <= k < |rows| => RowLine(rows[k]))
  }

  /** Each cell's width: its right edge minus its left edge. */
  function Widths(rows: seq<Row>): (ws: seq<real>)
    ensures |ws| == |rows|
  {
    seq(|rows|, k requires 0 <= k < |rows| => rows[k].hi - rows[k].lo)
  }

  /** Printed cell lines read back as the cells' widths. */
  lemma RowLinesRead(rows: seq<Row>)
    requires WellFormedRows(rows)
    ensures ReadsAs(RowLines(rows), Widths(rows), RowValue)
  {
    forall k | 0 <= k < |rows| ensures RowValue(RowLines(rows)[k]) == Ok(Widths(rows)[k]) {
      RowLineRead(rows, k);
    }
  }

  lemma RowLineRead(rows: seq<Row>, k: nat)
    requires k < |rows| && WellFormedRow(rows[k])
    ensures RowValue(RowLines(rows)[k]) == Ok(Widths(rows)[k])
  {
    var line, w := RowsAt(rows, k);
    LineValue(rows[k], line, w);
  }

  lemma RowsAt(rows: seq<Row>, k: nat) returns (line: string, w: real)
    requires k < |rows|
    ensures line == RowLines(rows)[k] == RowLine(rows[k]) && w == Widths(rows)[k] == rows[k].hi - rows[k].lo
  {
    line, w := RowLines(rows)[k], Widths(rows)[k];
  }

  lemma LineValue(r: Row, line: string, w: real)
    requires WellFormedRow(r) && line == RowLine(r) && w == r.hi - r.lo
    ensures RowValue(line) == Ok(w)
  {
    RowLineValue(r);
  }

  // ---------------------------------------------------------------------
  // The layout the reader expects, and reading it back

  /** The header: markers at `p1` and `p2` and nowhere else before `p2`. */
  predicate HeaderAt(lines: seq<string>, p1: nat, p2: nat) {
    && p1 < p2 < |lines| && IsMarker(lines[p1]) && IsMarker(lines[p2])
    && (forall j :: 0 <= j < p2 && j != p1 ==> !IsMarker(lines[j]))
  }

  /** Lines without a marker do not advance the header loop. */
  lemma {:induction false} HeaderSkip(lines: seq<string>, from: nat, k: nat, count: nat)
    requires from <= k <= |lines| && count < 2
    requires forall j :: from <= j < k ==> !IsMarker(lines[j])
    ensures HeaderEnd(lines, from, count) == HeaderEnd(lines, k, count)
    decreases k - from
  {
    if from < k {
      HeaderSkip(lines, from + 1, k, count);
    }
  }

  /** The grid data starts right after the second marker, whatever the
      header lines around the first say. */
  lemma HeaderEndsAtSecondMarker(lines: seq<string>, p1: nat, p2: nat)
    requires HeaderAt(lines, p1, p2)
    ensures GridStart(lines) == Ok(p2 + 1)
  {
    HeaderSkip(lines, 0, p1, 0);
    HeaderSkip(lines, p1 + 1, p2, 1);
  }

  /** Line `at` holds the count `n` and the `n` lines after it read as
      the widths `ws`. */
  predicate BlockAt(lines: seq<string>, at: nat, n: nat, ws: seq<real>, read: RowReader) {
    && at + 1 + n <= |lines| && lines[at] == Text.NatToString(n) + "\n"
    && |ws| == n && ReadsAt(lines, at + 1, ws, read)
  }

  /** Blocks with counts `ns` and widths `wss`, one after the other from
      line `at` on. */
  predicate BlocksAt(lines: seq<string>, at: nat, ns: seq<nat>, wss: seq<seq<real>>, read: RowReader)
    decreases |ns|
  {
    && |ns| == |wss|
    && (|ns| == 0 || (BlockAt(lines, at, ns[0], wss[0], read) && BlocksAt(lines, at + ns[0] + 1, ns[1..], wss[1..], read)))
  }

  /** A printed count reads back. */
  lemma CountLine(n: nat)
    ensures CellCount(Text.NatToString(n) + "\n") == Ok(n)
  {
    assert Chop(Text.NatToString(n) + "\n") == Text.NatToString(n);
    Text.ParseIntOfNat(n);
  }

  /** The lines from `start` on read as the widths `ws`, one by one. */
  predicate ReadsAt(lines: seq<string>, start: nat, ws: seq<real>, read: RowReader)
    decreases |ws|
  {
    && start + |ws| <= |lines|
    && (|ws| == 0 || (read(lines[start]) == Ok(ws[0]) && ReadsAt(lines, start + 1, ws[1..], read)))
  }

  /** The lines `ls` stand in `lines` from index `start` on. */
  predicate InPlace(lines: seq<string>, start: nat, ls: seq<string>) {
    start + |ls| <= |lines| && lines[start..start + |ls|] == ls
  }

  /** Lines in place that read as `ws` read so where they stand. */
  lemma {:induction false} ReadsAtOfSlice(lines: seq<string>, start: nat, ls: seq<string>, ws: seq<real>, read: RowReader)
    requires InPlace(lines, start, ls) && ReadsAs(ls, ws, read)
    ensures ReadsAt(lines, start, ws, read)
    decreases |ls|
  {
    if |ls| > 0 {
      assert lines[start] == ls[0];
      assert lines[start + 1..start + 1 + |ls[1..]|] == ls[1..];
      forall k | 0 <= k < |ls| - 1 ensures read(ls[1..][k]) == Ok(ws[1..][k]) {
        assert ls[1..][k] == ls[k + 1] && ws[1..][k] == ws[k + 1];
      }
      ReadsAtOfSlice(lines, start + 1, ls[1..], ws[1..], read);
    }
  }

  lemma RowWidthsCons(lines: seq<string>, start: int, n: int, w: real, rest: seq<real>, read: RowReader)
    requires n > 0 && RowWidth(lines, start, read) == Ok(w) && RowWidths(lines, start + 1, n - 1, read) == Ok(rest)
    ensures RowWidths(lines, start, n, read) == Ok([w] + rest)
  {
  }

  /** The `n` lines from `start` on read as `ws`: so does the block. */
  lemma {:induction false} RowWidthsOf(lines: seq<string>, start: nat, ws: seq<real>, n: nat, read: RowReader)
    requires n == |ws| && ReadsAt(lines, start, ws, read)
    ensures RowWidths(lines, start, n, read) == Ok(ws)
    decreases n
  {
    if n > 0 {
      RowWidthsOf(lines, start + 1, ws[1..], n - 1, read);
      RowWidthsCons(lines, start, n, ws[0], ws[1..], read);
      assert ws == [ws[0]] + ws[1..];
    }
  }

  lemma CountsCons(lines: seq<string>, at: int, k: nat, n: int, rest: seq<int>)
    requires k > 0 && LineAt(lines, at).Ok? && CellCount(LineAt(lines, at).value) == Ok(n)
    requires Counts(lines, at + n + 1, k - 1) == Ok(rest)
    ensures Counts(lines, at, k) == Ok([n] + rest)
  {
  }

  lemma BlocksCons(lines: seq<string>, at: int, ns: seq<int>, n: int, ns': seq<int>, w: seq<real>, rest: seq<seq<real>>,
                    read: RowReader)
    requires ns == [n] + ns'
    requires RowWidths(lines, at + 1, n, read) == Ok(w) && Blocks(lines, at + n + 1, ns', read) == Ok(rest)
    ensures Blocks(lines, at, ns, read) == Ok([w] + rest)
  {
    assert ns[0] == n && ns[1..] == ns';
  }

  /** Blocks laid out one after the other read back as their cell
      counts, whatever follows them ... */
  lemma {:induction false} CountsRead(lines: seq<string>, at: nat, ns: seq<nat>, wss: seq<seq<real>>, read: RowReader)
    requires BlocksAt(lines, at, ns, wss, read)
    ensures Counts(lines, at, |ns|) == Ok(ns)
    decreases |ns|
  {
    if |ns| > 0 {
      var n := ns[0];
      FirstBlock(lines, at, ns, wss, read);
      CountLine(n);
      CountsRead(lines, at + n + 1, ns[1..], wss[1..], read);
      CountsCons(lines, at, |ns|, n, ns[1..]);
      assert [n] + ns[1..] == ns;
    }
  }

  lemma FirstBlockWidths(lines: seq<string>, at: nat, ns: seq<nat>, wss: seq<seq<real>>, read: RowReader)
      returns (next: nat, ns': seq<nat>, wss': seq<seq<real>>)
    requires BlocksAt(lines, at, ns, wss, read) && |ns| > 0
    ensures RowWidths(lines, at + 1, ns[0], read) == Ok(wss[0])
    ensures next == at + ns[0] + 1 && ns' == ns[1..] && wss' == wss[1..] && BlocksAt(lines, next, ns', wss', read)
  {
    FirstBlock(lines, at, ns, wss, read);
    RowWidthsOf(lines, at + 1, wss[0], ns[0], read);
    next, ns', wss' := at + ns[0] + 1, ns[1..], wss[1..];
  }

  /** The first of several blocks, and the blocks after it. */
  lemma FirstBlock(lines: seq<string>, at: nat, ns: seq<nat>, wss: seq<seq<real>>, read: RowReader)
    requires BlocksAt(lines, at, ns, wss, read) && |ns| > 0
    ensures LineAt(lines, at) == Ok(Text.NatToString(ns[0]) + "\n")
    ensures |wss[0]| == ns[0] && ReadsAt(lines, at + 1, wss[0], read)
    ensures BlocksAt(lines, at + ns[0] + 1, ns[1..], wss[1..], read)
  {
  }

  /** ... and, block by block, as their widths. */
  lemma {:induction false} BlocksRead(lines: seq<string>, at: nat, ns: seq<nat>, wss: seq<seq<real>>, read: RowReader)
    requires BlocksAt(lines, at, ns, wss, read)
    ensures Blocks(lines, at, ns, read) == Ok(wss)
    decreases |ns|
  {
    if |ns| > 0 {
      var next, ns', wss' := FirstBlockWidths(lines, at, ns, wss, read);
      BlocksRead(lines, next, ns', wss', read);
      BlocksCons(lines, at, ns, ns[0], ns', wss[0], wss', read);
      assert [wss[0]] + wss' == wss;
    }
  }

  /** The reader succeeds once each of its steps does. */
  lemma ParseGridDataOk(lines: seq<string>, s: int, ns: seq<int>, ws: seq<seq<real>>)
    requires GridStart(lines) == Ok(s) && Counts(lines, s, 3) == Ok(ns) && Blocks(lines, s, ns, RowValue) == Ok(ws)
    ensures |ws| == 3 && ParseGridData(lines) == Ok((ws[0], ws[1], ws[2]))
  {
  }

  /** Reading a `grid.out` file with a header of any length, then three
      axis blocks of cell lines, gives back each block's widths. */
  lemma GridFileRoundTrip(lines: seq<string>, p1: nat, p2: nat, ns: seq<nat>, wss: seq<seq<real>>)
    requires HeaderAt(lines, p1, p2) && |ns| == 3 && BlocksAt(lines, p2 + 1, ns, wss, RowValue)
    ensures ParseGridData(lines) == Ok((wss[0], wss[1], wss[2]))
  {
    var s := p2 + 1;
    assert GridStart(lines) == Ok(s) by {
      HeaderEndsAtSecondMarker(lines, p1, p2);
    }
    assert Counts(lines, s, 3) == Ok(ns) by {
      CountsRead(lines, s, ns, wss, RowValue);
    }
    assert Blocks(lines, s, ns, RowValue) == Ok(wss) by {
      BlocksRead(lines, s, ns, wss, RowValue);
    }
    ParseGridDataOk(lines, s, ns, wss);
  }

  /** Printed cells in place form a block that reads back as their
      widths. */
  lemma BlockOfRows(lines: seq<string>, at: nat, rows: seq<Row>)
    requires WellFormedRows(rows) && at < |lines|
    requires lines[at] == Text.NatToString(|rows|) + "\n" && InPlace(lines, at + 1, RowLines(rows))
    ensures BlockAt(lines, at, |rows|, Widths(rows), RowValue)
  {
    var ls, ws := RowLines(rows), Widths(rows);
    RowLinesRead(rows);
    BlockOfReads(lines, at, ls, ws, RowValue);
  }

  lemma BlockOfReads(lines: seq<string>, at: nat, ls: seq<string>, ws: seq<real>, read: RowReader)
    requires at < |lines| && lines[at] == Text.NatToString(|ls|) + "\n" && InPlace(lines, at + 1, ls) && ReadsAs(ls, ws, read)
    ensures BlockAt(lines, at, |ls|, ws, read)
  {
    ReadsAtOfSlice(lines, at + 1, ls, ws, read);
  }
}
