/** Where a dataset's geometry comes from (yt_idefix/data_structures.py):
    the `#define GEOMETRY NAME` line of a definitions header, scanned by
    the Idefix reader (first match) and by the PLUTO reader (last match),
    and `_setup_geometry`, which reconciles the geometry stored in the
    binary file, the one from the header and the one the user passes. */
module GeometrySetup {
  import opened Results
  import Text

  // ---------------------------------------------------------------------
  // Lines of the header

  /** `body.split("\n")`: the pieces between newlines, empty ones
      included. */
  function SplitLines(s: string): (r: seq<string>)
    ensures |r| >= 1
    decreases |s|
  {
    var i := Text.Find(s, '\n');
    if i == |s| then [s] else [s[..i]] + SplitLines(s[i + 1..])
  }

  /** `"\n".join(lines)` */
  function JoinLines(ls: seq<string>): string
    requires |ls| >= 1
  {
    if |ls| == 1 then ls[0] else ls[0] + "\n" + JoinLines(ls[1..])
  }

  /** Splitting at newlines loses nothing: joining the pieces back gives
      the body, and no piece holds a newline. */
  lemma {:induction false} SplitLinesJoin(s: string)
    ensures JoinLines(SplitLines(s)) == s
    ensures forall k :: 0 <= k < |SplitLines(s)| ==> '\n' !in SplitLines(s)[k]
    decreases |s|
  {
    var i := Text.Find(s, '\n');
    if i < |s| {
      SplitLinesJoin(s[i + 1..]);
      assert s == s[..i] + "\n" + s[i + 1..];
      var r := SplitLines(s);
      forall k | 0 <= k < |r| ensures '\n' !in r[k] {
        if k > 0 {
          assert r[k] == SplitLines(s[i + 1..])[k - 1];
        }
      }
    }
  }

  // ---------------------------------------------------------------------
  // The `#define GEOMETRY` line

  predicate AllUpperLetters(s: string) {
    forall i :: 0 <= i < |s| ==> Text.IsUpperLetter(s[i])
  }

  predicate AllSpaces(s: string) {
    forall i :: 0 <= i < |s| ==> Text.IsSpace(s[i])
  }

  const DEFINE: string := "#define"
  const GEOMETRY: string := "GEOMETRY"

  /** What follows the keyword `kw` at the start of `s`. */
  function Keyword(s: string, kw: string): Option<string> {
    if Text.StartsWith(s, kw) then Some(s[|kw|..]) else None
  }

  /** What follows a non-empty run of whitespace at the start of `s`
      (`\s+`, which takes the whole run: nothing after it can be
      whitespace). */
  function Gap(s: string): Option<string> {
    var n := Text.LeadingSpaces(s);
    if n == 0 then None else Some(s[n..])
  }

  /** `re.fullmatch(r"^\s*#define\s+GEOMETRY\s+([A-Z]+)", line)`: the
      captured name, when the whole line is optional whitespace, `#define`,
      whitespace, `GEOMETRY`, whitespace and upper-case letters up to its
      end. */
  function GeometryDefine(line: string): Option<string> {
    var r1 :- Keyword(line[Text.LeadingSpaces(line)..], DEFINE);
    var r2 :- Gap(r1);
    var r3 :- Keyword(r2, GEOMETRY);
    var name :- Gap(r3);
    if |name| > 0 && AllUpperLetters(name) then Some(name) else None
  }

  /** A geometry line as a header spells it. */
  function DefineLine(indent: string, gap1: string, gap2: string, name: string): string {
    indent + DEFINE + gap1 + GEOMETRY + gap2 + name
  }

  predicate StartsNonSpace(s: string) {
    |s| == 0 || !Text.IsSpace(s[0])
  }

  /** A run of whitespace followed by a non-space is skipped whole. */
  lemma {:induction false} LeadingSpacesOf(w: string, rest: string)
    requires AllSpaces(w) && StartsNonSpace(rest)
    ensures Text.LeadingSpaces(w + rest) == |w|
    ensures (w + rest)[|w|..] == rest
    decreases |w|
  {
    if |w| > 0 {
      assert (w + rest)[1..] == w[1..] + rest;
      LeadingSpacesOf(w[1..], rest);
    } else {
      assert w + rest == rest;
    }
  }

  lemma KeywordOf(kw: string, rest: string)
    ensures Keyword(kw + rest, kw) == Some(rest)
  {
    assert (kw + rest)[..|kw|] == kw;
    assert (kw + rest)[|kw|..] == rest;
  }

  lemma GapOf(w: string, rest: string)
    requires AllSpaces(w) && |w| > 0 && StartsNonSpace(rest)
    ensures Gap(w + rest) == Some(rest)
  {
    LeadingSpacesOf(w, rest);
  }

  lemma KeywordShape(s: string, kw: string)
    requires Keyword(s, kw).Some?
    ensures s == kw + Keyword(s, kw).value
  {
    assert s == s[..|kw|] + s[|kw|..];
  }

  /** A gap is a non-empty run of whitespace in front of what follows it. */
  lemma GapShape(s: string) returns (gap: string)
    requires Gap(s).Some?
    ensures |gap| > 0 && AllSpaces(gap) && s == gap + Gap(s).value
  {
    gap := s[..Text.LeadingSpaces(s)];
    assert s == gap + s[Text.LeadingSpaces(s)..];
  }

  /** A line is its leading whitespace followed by the rest. */
  lemma IndentShape(s: string) returns (indent: string)
    ensures AllSpaces(indent) && s == indent + s[Text.LeadingSpaces(s)..]
  {
    indent := s[..Text.LeadingSpaces(s)];
    assert s == indent + s[Text.LeadingSpaces(s)..];
  }

  lemma NonSpaceStarts()
    ensures StartsNonSpace(DEFINE) && StartsNonSpace(GEOMETRY)
  {
  }

  /** Every line spelled that way, with non-empty gaps and an upper-case
      name, matches and captures the name. */
  lemma DefineLineMatches(indent: string, gap1: string, gap2: string, name: string)
    requires AllSpaces(indent) && AllSpaces(gap1) && AllSpaces(gap2)
    requires |gap1| > 0 && |gap2| > 0 && |name| > 0 && AllUpperLetters(name)
    ensures GeometryDefine(DefineLine(indent, gap1, gap2, name)) == Some(name)
  {
    var line := DefineLine(indent, gap1, gap2, name);
    var t0, t1, t2, t3 := TailStages(gap1, gap2, name);
    DefineLineAssoc(indent, gap1, gap2, name);
    LeadingSpacesOf(indent, t0);
    GeometryDefineOfStages(line, t0, t1, t2, t3, name);
  }

  /** What follows the indentation passes the four stages of the match. */
  lemma TailStages(gap1: string, gap2: string, name: string) returns (t0: string, t1: string, t2: string, t3: string)
    requires AllSpaces(gap1) && AllSpaces(gap2) && |gap1| > 0 && |gap2| > 0 && |name| > 0 && AllUpperLetters(name)
    ensures t0 == DEFINE + (gap1 + (GEOMETRY + (gap2 + name))) && StartsNonSpace(t0)
    ensures Keyword(t0, DEFINE) == Some(t1) && Gap(t1) == Some(t2)
    ensures Keyword(t2, GEOMETRY) == Some(t3) && Gap(t3) == Some(name)
  {
    t3 := gap2 + name;
    t2 := GEOMETRY + t3;
    t1 := gap1 + t2;
    t0 := DEFINE + t1;
    NonSpaceStarts();
    KeywordOf(DEFINE, t1);
    GapOf(gap1, t2);
    KeywordOf(GEOMETRY, t3);
    assert Text.IsUpperLetter(name[0]);
    GapOf(gap2, name);
  }

  /** A line that passes the four stages matches with the last one's
      rest as its name. */
  lemma GeometryDefineOfStages(line: string, t0: string, r1: string, r2: string, r3: string, name: string)
    requires line[Text.LeadingSpaces(line)..] == t0 && Keyword(t0, DEFINE) == Some(r1)
    requires Gap(r1) == Some(r2) && Keyword(r2, GEOMETRY) == Some(r3) && Gap(r3) == Some(name)
    requires |name| > 0 && AllUpperLetters(name)
    ensures GeometryDefine(line) == Some(name)
  {
  }

  lemma DefineLineAssoc(indent: string, gap1: string, gap2: string, name: string)
    ensures DefineLine(indent, gap1, gap2, name)
         == indent + (DEFINE + (gap1 + (GEOMETRY + (gap2 + name))))
  {
  }

  /** `line` is `DefineLine` of those pieces, with whitespace gaps. */
  predicate SpelledAs(line: string, indent: string, gap1: string, gap2: string, name: string) {
    && AllSpaces(indent) && AllSpaces(gap1) && AllSpaces(gap2) && |gap1| > 0 && |gap2| > 0
    && line == DefineLine(indent, gap1, gap2, name)
  }

  /** The four stages a match passes, as separate facts. */
  lemma GeometryDefineStages(line: string) returns (r1: string, r2: string, r3: string)
    requires GeometryDefine(line).Some?
    ensures Keyword(line[Text.LeadingSpaces(line)..], DEFINE) == Some(r1)
    ensures Gap(r1) == Some(r2) && Keyword(r2, GEOMETRY) == Some(r3)
    ensures Gap(r3) == Some(GeometryDefine(line).value)
    ensures |GeometryDefine(line).value| > 0 && AllUpperLetters(GeometryDefine(line).value)
  {
    r1 := Keyword(line[Text.LeadingSpaces(line)..], DEFINE).value;
    r2 := Gap(r1).value;
    r3 := Keyword(r2, GEOMETRY).value;
  }

  /** And only such lines match: a match is a line spelled that way. */
  lemma GeometryDefineShape(line: string)
    requires GeometryDefine(line).Some?
    ensures exists indent: string, gap1: string, gap2: string ::
      SpelledAs(line, indent, gap1, gap2, GeometryDefine(line).value)
    ensures |GeometryDefine(line).value| > 0 && AllUpperLetters(GeometryDefine(line).value)
  {
    var r1, r2, r3 := GeometryDefineStages(line);
    var name := GeometryDefine(line).value;
    var r0 := line[Text.LeadingSpaces(line)..];
    var indent := IndentShape(line);
    KeywordShape(r0, DEFINE);
    var gap1 := GapShape(r1);
    KeywordShape(r2, GEOMETRY);
    var gap2 := GapShape(r3);
    SpelledFromPieces(line, indent, r0, r1, gap1, r2, r3, gap2, name);
  }

  lemma SpelledFromPieces(line: string, indent: string, r0: string, r1: string, gap1: string,
                          r2: string, r3: string, gap2: string, name: string)
    requires AllSpaces(indent) && AllSpaces(gap1) && AllSpaces(gap2) && |gap1| > 0 && |gap2| > 0
    requires line == indent + r0 && r0 == DEFINE + r1 && r1 == gap1 + r2
    requires r2 == GEOMETRY + r3 && r3 == gap2 + name
    ensures SpelledAs(line, indent, gap1, gap2, name)
  {
    DefineLineAssoc(indent, gap1, gap2, name);
  }

  /** The geometry line of the test header `pluto_disk_planet`
      (`#define`, two spaces, `GEOMETRY`, twenty-three spaces,
      `SPHERICAL`) names the spherical geometry. */
  lemma DiskPlanetHeaderLine()
    ensures GeometryDefine(DefineLine("", "  ", "                       ", "SPHERICAL")) == Some("SPHERICAL")
  {
    DefineLineMatches("", "  ", "                       ", "SPHERICAL");
  }

  // ---------------------------------------------------------------------
  // The two scans

  predicate Matches(line: string) {
    GeometryDefine(line).Some?
  }

  /** The Idefix scan: the first matching line decides, lower-cased, and
      the scan stops there. */
  function FirstGeometry(lines: seq<string>): Option<string> {
    if |lines| == 0 then None
    else if Matches(lines[0]) then Some(Text.Lower(GeometryDefine(lines[0]).value))
    else FirstGeometry(lines[1..])
  }

  /** The PLUTO scan: every matching line overwrites the one before, so the
      last one decides. */
  function LastGeometry(lines: seq<string>): Option<string> {
    if |lines| == 0 then None
    else
      var rest := LastGeometry(lines[1..]);
      if rest.Some? then rest
      else if Matches(lines[0]) then Some(Text.Lower(GeometryDefine(lines[0]).value))
      else None
  }

  /** `IdefixDataset._parse_definitions_header`, geometry entry: nothing
      without a header, else the first scan over the comment-stripped body
      split into lines. */
  function IdefixDefinitionsGeometry(body: Option<string>): Option<string> {
    if body.None? then None else FirstGeometry(SplitLines(body.value))
  }

  /** `PlutoVtkDataset._parse_definitions_header`, geometry entry. */
  function PlutoDefinitionsGeometry(body: Option<string>): Option<string> {
    if body.None? then None else LastGeometry(SplitLines(body.value))
  }

  /** The first scan finds a geometry exactly when some line matches, and
      it is the lower-cased name of a matching line with no match before
      it. */
  lemma {:induction false} FirstGeometrySpec(lines: seq<string>)
    ensures FirstGeometry(lines).Some? <==> exists i :: 0 <= i < |lines| && Matches(lines[i])
    ensures FirstGeometry(lines).Some? ==> exists i ::
      && 0 <= i < |lines| && Matches(lines[i])
      && FirstGeometry(lines).value == Text.Lower(GeometryDefine(lines[i]).value)
      && forall j :: 0 <= j < i ==> !Matches(lines[j])
  {
    if |lines| > 0 {
      FirstGeometrySpec(lines[1..]);
      if Matches(lines[0]) {
      } else {
        if exists i :: 0 <= i < |lines| && Matches(lines[i]) {
          var i :| 0 <= i < |lines| && Matches(lines[i]);
          assert Matches(lines[1..][i - 1]);
        }
        if FirstGeometry(lines).Some? {
          var i :| && 0 <= i < |lines[1..]| && Matches(lines[1..][i])
                   && FirstGeometry(lines[1..]).value == Text.Lower(GeometryDefine(lines[1..][i]).value)
                   && forall j :: 0 <= j < i ==> !Matches(lines[1..][j]);
          assert forall j :: 0 <= j < i + 1 ==> !Matches(lines[j]) by {
            forall j | 0 <= j < i + 1 ensures !Matches(lines[j]) {
              if j > 0 { assert lines[j] == lines[1..][j - 1]; }
            }
          }
          assert lines[i + 1] == lines[1..][i];
        }
      }
    }
  }

  /** The last scan finds a geometry exactly when some line matches, and it
      is the lower-cased name of a matching line with no match after it. */
  lemma {:induction false} LastGeometrySpec(lines: seq<string>)
    ensures LastGeometry(lines).Some? <==> exists i :: 0 <= i < |lines| && Matches(lines[i])
    ensures LastGeometry(lines).Some? ==> exists i ::
      && 0 <= i < |lines| && Matches(lines[i])
      && LastGeometry(lines).value == Text.Lower(GeometryDefine(lines[i]).value)
      && forall j :: i < j < |lines| ==> !Matches(lines[j])
  {
    if |lines| > 0 {
      var tail := lines[1..];
      LastGeometrySpec(tail);
      if exists i :: 0 <= i < |lines| && Matches(lines[i]) {
        var i :| 0 <= i < |lines| && Matches(lines[i]);
        if i > 0 { assert Matches(tail[i - 1]); }
      }
      if LastGeometry(tail).Some? {
        var i :| && 0 <= i < |tail| && Matches(tail[i])
                 && LastGeometry(tail).value == Text.Lower(GeometryDefine(tail[i]).value)
                 && forall j :: i < j < |tail| ==> !Matches(tail[j]);
        assert forall j :: i + 1 < j < |lines| ==> !Matches(lines[j]) by {
          forall j | i + 1 < j < |lines| ensures !Matches(lines[j]) {
            assert lines[j] == tail[j - 1];
          }
        }
        assert lines[i + 1] == tail[i];
      } else if Matches(lines[0]) {
        assert forall j :: 0 < j < |lines| ==> !Matches(lines[j]) by {
          forall j | 0 < j < |lines| ensures !Matches(lines[j]) {
            assert lines[j] == tail[j - 1];
          }
        }
      }
    }
  }

  /** The two readers disagree only on headers with several geometry
      lines: with at most one, they find the same geometry. */
  lemma ScansAgreeOnSingleDefine(lines: seq<string>)
    requires forall i, j :: 0 <= i < j < |lines| && Matches(lines[i]) ==> !Matches(lines[j])
    ensures FirstGeometry(lines) == LastGeometry(lines)
  {
    FirstGeometrySpec(lines);
    LastGeometrySpec(lines);
    if FirstGeometry(lines).Some? {
      var i :| && 0 <= i < |lines| && Matches(lines[i])
               && FirstGeometry(lines).value == Text.Lower(GeometryDefine(lines[i]).value)
               && forall j :: 0 <= j < i ==> !Matches(lines[j]);
      var k :| && 0 <= k < |lines| && Matches(lines[k])
               && LastGeometry(lines).value == Text.Lower(GeometryDefine(lines[k]).value)
               && forall j :: k < j < |lines| ==> !Matches(lines[j]);
      assert i == k;
    }
  }

  // ---------------------------------------------------------------------
  // Reconciling the sources

  datatype SetupError =
    | Mismatch(fromBin: string, fromDefinitions: string) // RuntimeError
    | Undetermined                                       // ValueError: no geometry anywhere

  /** The geometry chosen, and whether the user's choice overrode a
      different one found on disk (the warning). */
  datatype Resolved = Resolved(geometry: string, warned: bool)

  /** `_setup_geometry`: missing entries are the empty string, and so is a
      user geometry of `None`. */
  function SetupGeometry(fromBin: string, fromDefinitions: string, fromUser: Option<string>)
    : Result<Resolved, SetupError>
  {
    var fromInput := if fromUser.Some? then fromUser.value else "";
    if fromDefinitions != "" && fromBin != "" && fromBin != fromDefinitions then
      Err(Mismatch(fromBin, fromDefinitions))
    else
      var fromDisk := if fromBin != "" then fromBin else fromDefinitions;
      if fromDisk == "" && fromInput == "" then Err(Undetermined)
      else if fromInput != "" then Ok(Resolved(fromInput, fromDisk != "" && fromInput != fromDisk))
      else Ok(Resolved(fromDisk, false))
  }

  /** The binary file and the header must agree when both name a geometry;
      otherwise, with nothing from disk or user, the geometry is
      undetermined. */
  lemma SetupGeometryErrors(fromBin: string, fromDefinitions: string, fromUser: Option<string>)
    ensures var r := SetupGeometry(fromBin, fromDefinitions, fromUser);
      && (r == Err(Mismatch(fromBin, fromDefinitions)) <==>
            fromBin != "" && fromDefinitions != "" && fromBin != fromDefinitions)
      && (r == Err(Undetermined) <==>
            fromBin == "" && fromDefinitions == "" && (fromUser.None? || fromUser.value == ""))
  {
  }

  /** A user geometry always wins; otherwise the binary file's, falling
      back to the header's. The result is never empty, and the warning is
      given exactly when the user overrides a different geometry found on
      disk. */
  lemma SetupGeometryResolves(fromBin: string, fromDefinitions: string, fromUser: Option<string>)
    requires SetupGeometry(fromBin, fromDefinitions, fromUser).Ok?
    ensures var g := SetupGeometry(fromBin, fromDefinitions, fromUser).value;
      && g.geometry != ""
      && (fromUser.Some? && fromUser.value != "" ==> g.geometry == fromUser.value)
      && ((fromUser.None? || fromUser.value == "") ==>
            g.geometry == (if fromBin != "" then fromBin else fromDefinitions))
      && (g.warned <==> fromUser.Some? && fromUser.value != ""
                        && (fromBin != "" || fromDefinitions != "")
                        && fromUser.value != fromBin && fromUser.value != fromDefinitions)
  {
  }
}
