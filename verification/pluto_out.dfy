/** The line of a PLUTO `<dbl/flt>.h5.out` log that describes one snapshot
    (`PlutoXdmfDataset._parse_parameter_file` in
    yt_idefix/data_structures.py): its second token is the simulation time,
    and the passive tracers `tr1`, `tr2`, ... are counted among its tokens
    for as long as the next name occurs. Lines are read as by `readlines()`
    and reported with the same errors as the grid reader: a missing line, a
    line with fewer than two tokens, a token `float()` refuses. */
module PlutoOut {
  import opened Results
  import Text
  import GridOut

  /** The name of the `k`-th passive tracer. */
  function TracerName(k: nat): string {
    "tr" + Text.NatToString(k)
  }

  lemma TracerNameInjective(j: nat, k: nat)
    requires TracerName(j) == TracerName(k)
    ensures j == k
  {
    assert TracerName(j)[2..] == Text.NatToString(j);
    assert TracerName(k)[2..] == Text.NatToString(k);
    Text.NatToStringInjective(j, k);
  }

  /** `tr1` up to `trk` all occur among the tokens. */
  predicate HasTracers(tokens: seq<string>, k: nat) {
    forall j :: 1 <= j <= k ==> TracerName(j) in tokens
  }

  /** The loop of `_parse_parameter_file` once `k` tracers are found: it
      goes on while `tr(k+1)` occurs. The count ends with every tracer up to
      it present and the next one absent. */
  function CountFrom(tokens: seq<string>, k: nat): (n: nat)
    requires HasTracers(tokens, k)
    ensures k <= n
    ensures HasTracers(tokens, n)
    ensures TracerName(n + 1) !in tokens
    decreases |tokens| - k
  {
    if TracerName(k + 1) in tokens then
      TracersFit(tokens, k + 1);
      CountFrom(tokens, k + 1)
    else k
  }

  /** `ntracers`: the count starts at 0. */
  function TracerCount(tokens: seq<string>): (n: nat) {
    CountFrom(tokens, 0)
  }

  /** The count is the largest `m` for which `tr1` up to `trm` all occur. */
  lemma TracerCountIsLargest(tokens: seq<string>, m: nat)
    ensures HasTracers(tokens, m) <==> m <= TracerCount(tokens)
  {
  }

  // ---------------------------------------------------------------------
  // Why the loop ends: `k` distinct names need `k` tokens

  function TracerNames(k: nat): (s: set<string>) {
    set j | 1 <= j <= k :: TracerName(j)
  }

  lemma {:induction false} TracerNamesCard(k: nat)
    ensures |TracerNames(k)| == k
  {
    if k > 0 {
      TracerNamesCard(k - 1);
      assert TracerNames(k) == TracerNames(k - 1) + {TracerName(k)};
      if TracerName(k) in TracerNames(k - 1) {
        var j :| 1 <= j <= k - 1 && TracerName(j) == TracerName(k);
        TracerNameInjective(j, k);
      }
    }
  }

  lemma {:induction false} DistinctTokensBound(tokens: seq<string>)
    ensures |set t | t in tokens| <= |tokens|
  {
    if |tokens| > 0 {
      var rest := tokens[1..];
      DistinctTokensBound(rest);
      assert (set t | t in tokens) == (set t | t in rest) + {tokens[0]};
    }
  }

  lemma TracersFit(tokens: seq<string>, k: nat)
    requires HasTracers(tokens, k)
    ensures k <= |tokens|
  {
    TracerNamesCard(k);
    DistinctTokensBound(tokens);
    assert TracerNames(k) <= set t | t in tokens;
    SubsetCard(TracerNames(k), set t | t in tokens);
  }

  lemma {:induction false} SubsetCard(a: set<string>, b: set<string>)
    requires a <= b
    ensures |a| <= |b|
  {
    if a != {} {
      var x :| x in a;
      SubsetCard(a - {x}, b - {x});
    }
  }

  // ---------------------------------------------------------------------
  // The snapshot line

  /** `float(txt[entry].split()[1])`. */
  function OutTime(lines: seq<string>, entry: int): (r: Result<real, GridOut.GridOutError>) {
    var line :- GridOut.LineAt(lines, entry);
    var tokens := Text.Split(line);
    if |tokens| < 2 then Err(GridOut.ShortRow(line)) else GridOut.Number(tokens[1])
  }

  /** The time and the tracer count of the snapshot `entry`, in the order
      the dataset reads them. */
  function ParseOutEntry(lines: seq<string>, entry: int): (r: Result<(real, nat), GridOut.GridOutError>) {
    var time :- OutTime(lines, entry);
    var line :- GridOut.LineAt(lines, entry);
    Ok((time, TracerCount(Text.Split(line))))
  }

  /** A line printed from its tokens reads back as the time its second
      token spells and the tracers among its tokens; with fewer than two
      tokens there is no time. */
  lemma OutEntryOfTokens(lines: seq<string>, entry: int, tokens: seq<string>)
    requires 0 <= entry < |lines|
    requires forall i :: 0 <= i < |tokens| ==> Text.IsToken(tokens[i])
    requires lines[entry] == Text.Join(tokens) + "\n"
    ensures |tokens| < 2 ==> ParseOutEntry(lines, entry) == Err(GridOut.ShortRow(lines[entry]))
    ensures |tokens| >= 2 && Text.ParseDecimal(tokens[1]).Some? ==>
      ParseOutEntry(lines, entry) == Ok((Text.ParseDecimal(tokens[1]).value, TracerCount(tokens)))
    ensures |tokens| >= 2 && Text.ParseDecimal(tokens[1]).None? ==>
      ParseOutEntry(lines, entry) == Err(GridOut.BadNumber(tokens[1]))
  {
    Text.SplitJoin(tokens);
    Text.SplitAppendSpace(Text.Join(tokens), '\n');
  }

  /** The tokens of a snapshot line of the example log. */
  const EXAMPLE_TOKENS: seq<string> := ["0", "0.000000e+00", "1.000000e-04", "0", "single_file", "little",
    "rho", "vx1", "vx2", "vx3", "prs", "tr1", "tr2", "tr3", "Temp", "ndens", "PbykB", "mach"]

  /** The snapshot line of the example log counts three tracers. */
  lemma ExampleLineTracers()
    ensures TracerCount(EXAMPLE_TOKENS) == 3
  {
    ExampleTracersPresent();
    ExampleFourthAbsent();
    TracerCountIsLargest(EXAMPLE_TOKENS, 3);
    TracerCountIsLargest(EXAMPLE_TOKENS, 4);
  }

  lemma ExampleTracersPresent()
    ensures HasTracers(EXAMPLE_TOKENS, 3)
  {
    assert TracerName(1) == EXAMPLE_TOKENS[11];
    assert TracerName(2) == EXAMPLE_TOKENS[12];
    assert TracerName(3) == EXAMPLE_TOKENS[13];
  }

  lemma ExampleFourthAbsent()
    ensures TracerName(4) !in EXAMPLE_TOKENS
  {
    assert TracerName(4) == "tr4";
    forall i | 0 <= i < |EXAMPLE_TOKENS| ensures EXAMPLE_TOKENS[i] != "tr4" {
      assert |EXAMPLE_TOKENS[i]| != 3 || EXAMPLE_TOKENS[i][2] != '4';
    }
  }
}
