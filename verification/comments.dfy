/** `remove_comments` (yt_idefix/misc.py), the C comment stripper applied
    to definitions headers: a character-driven state machine with five
    states, of which `CharLit` is never entered. The model follows the code
    as written: the characters between two quotes are dropped (only the
    quotes themselves are copied), and the newline ending a `//` comment is
    dropped with the comment. */
module Comments {

  datatype State = Default | LineComment | BlockComment | Quoted | CharLit

  /** One point of the loop: the state, the text produced so far and the
      index of the next input character. */
  datatype Config = Config(st: State, out: string, i: nat)

  predicate IsQuote(c: char) {
    c == '"' || c == '\''
  }

  /** What the loop needs to index `output_text[-1]`: in the two quoted
      states the output is not empty. */
  predicate Good(c: Config) {
    (c.st == Quoted || c.st == CharLit) ==> |c.out| > 0
  }

  /** `input_text[i-1]` with Python indexing: at `i = 0` it is the last
      character. */
  function Prev(s: string, i: nat): char
    requires i < |s|
  {
    if i == 0 then s[|s| - 1] else s[i - 1]
  }

  /** One pass of the loop body. The source tries its branches in one
      chain, each guarded by the state; grouped here by state, each state
      keeps the source's order of its own branches. */
  function Step(s: string, c: Config): (r: Config)
    requires c.i < |s| && Good(c)
    ensures c.i < r.i <= |s|
    ensures Good(r)
    ensures r.out == c.out || r.out == c.out + [s[c.i]]
  {
    var ch := s[c.i];
    var i1: nat := c.i + 1;
    match c.st
    case Default =>
      if ch == '/' && i1 < |s| && s[i1] == '/' then Config(LineComment, c.out, i1 + 1)
      else if ch == '/' && i1 < |s| && s[i1] == '*' then Config(BlockComment, c.out, i1 + 1)
      else if IsQuote(ch) then Config(Quoted, c.out + [ch], i1)
      else if ch == '\'' then Config(CharLit, c.out + [ch], i1)
      else Config(Default, c.out + [ch], i1)
    case LineComment =>
      if ch == '\n' then Config(Default, c.out, i1) else Config(LineComment, c.out, i1)
    case BlockComment =>
      if ch == '*' && i1 < |s| && s[i1] == '/' then Config(Default, c.out, i1 + 1)
      else Config(BlockComment, c.out, i1)
    case Quoted =>
      if ch == c.out[|c.out| - 1] && Prev(s, c.i) != '\\' then Config(Default, c.out + [ch], i1)
      else Config(Quoted, c.out, i1)
    case CharLit =>
      if ch == c.out[|c.out| - 1] && Prev(s, c.i) != '\\' then Config(Default, c.out + [ch], i1)
      else Config(CharLit, c.out, i1)
  }

  /** The loop from configuration `c` to the end of the input. */
  function Run(s: string, c: Config): string
    requires c.i <= |s| && Good(c)
    decreases |s| - c.i
  {
    if c.i == |s| then c.out else Run(s, Step(s, c))
  }

  function Start(): Config {
    Config(Default, "", 0)
  }

  /** `remove_comments(input_text)` */
  function RemoveComments(s: string): string {
    Run(s, Start())
  }

  // ---------------------------------------------------------------------
  // The loop as written

  /** `a` is obtained from `b` by deleting characters. */
  ghost predicate IsSubsequence(a: string, b: string) {
    exists idx: seq<nat> :: Embeds(idx, a, b)
  }

  /** `idx` picks, in increasing positions of `b`, the characters of `a`. */
  predicate Embeds(idx: seq<nat>, a: string, b: string) {
    && |idx| == |a|
    && (forall k :: 0 <= k < |idx| ==> idx[k] < |b| && b[idx[k]] == a[k])
    && (forall k, l :: 0 <= k < l < |idx| ==> idx[k] < idx[l])
  }

  /** `idx` embeds `a` in the first `i` characters of `b`. */
  predicate EmbedsBefore(idx: seq<nat>, a: string, b: string, i: nat) {
    Embeds(idx, a, b) && forall k :: 0 <= k < |idx| ==> idx[k] < i
  }

  /** Copying the character at `i` extends the embedding by `i`. */
  lemma EmbedsSnoc(idx: seq<nat>, a: string, b: string, i: nat)
    requires EmbedsBefore(idx, a, b, i) && i < |b|
    ensures EmbedsBefore(idx + [i], a + [b[i]], b, i + 1)
  {
  }

  /** The stripping loop itself. Its output is a subsequence of the input,
      hence never longer, and it is the text the state machine `Run`
      produces. */
  method RemoveCommentsLoop(input: string) returns (output: string)
    ensures IsSubsequence(output, input)
    ensures |output| <= |input|
    ensures output == RemoveComments(input)
  {
    var st := Default;
    output := "";
    var i: nat := 0;
    ghost var idx: seq<nat> := [];
    while i < |input|
      invariant i <= |input|
      invariant Good(Config(st, output, i))
      invariant Run(input, Config(st, output, i)) == RemoveComments(input)
      invariant |output| <= i
      invariant EmbedsBefore(idx, output, input, i)
      decreases |input| - i
    {
      var c := input[i];
      ghost var before := Config(st, output, i);
      if st == Default && c == '/' && i + 1 < |input| && input[i + 1] == '/' {
        st := LineComment;
        i := i + 1;
      } else if st == LineComment && c == '\n' {
        st := Default;
      } else if st == Default && c == '/' && i + 1 < |input| && input[i + 1] == '*' {
        st := BlockComment;
        i := i + 1;
      } else if st == BlockComment && c == '*' && i + 1 < |input| && input[i + 1] == '/' {
        st := Default;
        i := i + 1;
      } else if st == Default && (c == '"' || c == '\'') {
        st := Quoted;
        EmbedsSnoc(idx, output, input, i);
        idx := idx + [i];
        output := output + [c];
      } else if st == Quoted && c == output[|output| - 1] && Prev(input, i) != '\\' {
        st := Default;
        EmbedsSnoc(idx, output, input, i);
        idx := idx + [i];
        output := output + [c];
      } else if st == Default && c == '\'' {
        st := CharLit;
        EmbedsSnoc(idx, output, input, i);
        idx := idx + [i];
        output := output + [c];
      } else if st == CharLit && c == output[|output| - 1] && Prev(input, i) != '\\' {
        st := Default;
        EmbedsSnoc(idx, output, input, i);
        idx := idx + [i];
        output := output + [c];
      } else if st == Default {
        EmbedsSnoc(idx, output, input, i);
        idx := idx + [i];
        output := output + [c];
      }
      i := i + 1;
      assert Config(st, output, i) == Step(input, before);
    }
    assert Embeds(idx, output, input);
  }

  // ---------------------------------------------------------------------
  // Reference points in the input

  /** The first newline at or after `k`, or the length. */
  function NextNewline(s: string, k: nat): (j: nat)
    requires k <= |s|
    ensures k <= j <= |s|
    ensures j < |s| ==> s[j] == '\n'
    ensures forall m :: k <= m < j ==> s[m] != '\n'
    decreases |s| - k
  {
    if k == |s| || s[k] == '\n' then k else NextNewline(s, k + 1)
  }

  predicate ClosesBlock(s: string, j: nat) {
    j + 1 < |s| && s[j] == '*' && s[j + 1] == '/'
  }

  /** The first block-comment terminator (a `*` followed by a `/`) at or
      after `k`, or the length. */
  function NextBlockEnd(s: string, k: nat): (j: nat)
    requires k <= |s|
    ensures k <= j <= |s|
    ensures j < |s| ==> ClosesBlock(s, j)
    ensures forall m :: k <= m < j ==> !ClosesBlock(s, m)
    decreases |s| - k
  {
    if k == |s| || ClosesBlock(s, k) then k else NextBlockEnd(s, k + 1)
  }

  /** The quote `q` at `j` closes a quoted run: it is not escaped. */
  predicate ClosesQuote(s: string, j: nat, q: char) {
    0 < j < |s| && s[j] == q && s[j - 1] != '\\'
  }

  /** The first unescaped `q` at or after `k`, or the length. */
  function NextQuote(s: string, k: nat, q: char): (j: nat)
    requires 0 < k <= |s|
    ensures k <= j <= |s|
    ensures j < |s| ==> ClosesQuote(s, j, q)
    ensures forall m :: k <= m < j ==> !ClosesQuote(s, m, q)
    decreases |s| - k
  {
    if k == |s| || ClosesQuote(s, k, q) then k else NextQuote(s, k + 1, q)
  }

  // ---------------------------------------------------------------------
  // Properties of the state machine

  /** The branch that enters `CharLit` needs a `'` in the default state,
      which the quoted branch before it always takes: no step enters
      `CharLit` from another state. */
  lemma StepNeverEntersCharLit(s: string, c: Config)
    requires c.i < |s| && Good(c) && c.st != CharLit
    ensures Step(s, c).st != CharLit
  {
  }

  /** Some configuration of the run from `c` is in state `CharLit`. */
  predicate ReachesCharLit(s: string, c: Config)
    requires c.i <= |s| && Good(c)
    decreases |s| - c.i
  {
    c.st == CharLit || (c.i < |s| && ReachesCharLit(s, Step(s, c)))
  }

  lemma {:induction false} NeverCharLitFrom(s: string, c: Config)
    requires c.i <= |s| && Good(c) && c.st != CharLit
    ensures !ReachesCharLit(s, c)
    decreases |s| - c.i
  {
    if c.i < |s| {
      StepNeverEntersCharLit(s, c);
      NeverCharLitFrom(s, Step(s, c));
    }
  }

  /** `STATE_CHAR` is dead: no run of `remove_comments` ever enters it. */
  lemma CharLitUnreachable(s: string)
    ensures !ReachesCharLit(s, Start())
  {
    NeverCharLitFrom(s, Start());
  }

  /** In the default state a character that is neither `/` nor a quote is
      copied. */
  predicate Plain(c: char) {
    c != '/' && !IsQuote(c)
  }

  /** Text without `/`, `"` or `'` passes through the default state
      unchanged. */
  lemma {:induction false} PlainRun(s: string, out: string, i: nat)
    requires i <= |s|
    requires forall k :: i <= k < |s| ==> Plain(s[k])
    ensures Run(s, Config(Default, out, i)) == out + s[i..]
    decreases |s| - i
  {
    if i < |s| {
      PlainRun(s, out + [s[i]], i + 1);
      assert out + [s[i]] + s[i + 1..] == out + s[i..];
    }
  }

  /** Input containing no `/`, `"` or `'` is returned unchanged. */
  lemma PlainTextUnchanged(s: string)
    requires forall k :: 0 <= k < |s| ==> Plain(s[k])
    ensures RemoveComments(s) == s
  {
    PlainRun(s, "", 0);
  }

  /** A `/` followed by neither `/` nor `*` is copied literally, and the
      default state goes on after it. */
  lemma LoneSlashCopied(s: string, out: string, i: nat)
    requires i < |s| && s[i] == '/'
    requires i + 1 == |s| || (s[i + 1] != '/' && s[i + 1] != '*')
    ensures Run(s, Config(Default, out, i)) == Run(s, Config(Default, out + ['/'], i + 1))
  {
  }

  /** Inside a `//` comment nothing is produced until the next newline. */
  lemma {:induction false} LineCommentSkips(s: string, out: string, k: nat)
    requires k <= |s|
    ensures var j := NextNewline(s, k);
      Run(s, Config(LineComment, out, k))
        == if j < |s| then Run(s, Config(Default, out, j + 1)) else out
    decreases |s| - k
  {
    if k < |s| && s[k] != '\n' {
      LineCommentSkips(s, out, k + 1);
    }
  }

  /** A `//` comment is removed together with the newline ending it, and
      the default state resumes after that newline; without a newline the
      rest of the input is dropped. */
  lemma LineCommentRemoved(s: string, out: string, i: nat)
    requires i + 1 < |s| && s[i] == '/' && s[i + 1] == '/'
    ensures var j := NextNewline(s, i + 2);
      Run(s, Config(Default, out, i))
        == if j < |s| then Run(s, Config(Default, out, j + 1)) else out
  {
    LineCommentSkips(s, out, i + 2);
  }

  /** Inside a block comment nothing is produced until the next terminator. */
  lemma {:induction false} BlockCommentSkips(s: string, out: string, k: nat)
    requires k <= |s|
    ensures var j := NextBlockEnd(s, k);
      Run(s, Config(BlockComment, out, k))
        == if j < |s| then Run(s, Config(Default, out, j + 2)) else out
    decreases |s| - k
  {
    if k < |s| && !ClosesBlock(s, k) {
      BlockCommentSkips(s, out, k + 1);
    }
  }

  /** A block comment is removed with both of its two-character delimiters;
      an unterminated one drops the rest of the input. */
  lemma BlockCommentRemoved(s: string, out: string, i: nat)
    requires i + 1 < |s| && s[i] == '/' && s[i + 1] == '*'
    ensures var j := NextBlockEnd(s, i + 2);
      Run(s, Config(Default, out, i))
        == if j < |s| then Run(s, Config(Default, out, j + 2)) else out
  {
    BlockCommentSkips(s, out, i + 2);
  }

  /** One step inside quotes: the opening quote is the last character
      produced, so the step closes the run exactly at an unescaped copy of
      it and produces nothing else. */
  lemma QuotedStep(s: string, out: string, q: char, k: nat)
    requires 0 < k < |s|
    ensures Step(s, Config(Quoted, out + [q], k))
      == if ClosesQuote(s, k, q) then Config(Default, out + [q] + [q], k + 1) else Config(Quoted, out + [q], k + 1)
  {
  }

  /** Inside quotes nothing is produced until the opening quote recurs
      unescaped; in particular comment markers open no comment there. */
  lemma {:induction false} QuotedSkips(s: string, out: string, q: char, k: nat)
    requires 0 < k <= |s|
    ensures var j := NextQuote(s, k, q);
      Run(s, Config(Quoted, out + [q], k))
        == if j < |s| then Run(s, Config(Default, out + [q] + [q], j + 1)) else out + [q]
    decreases |s| - k
  {
    if k < |s| {
      QuotedRunStep(s, out, q, k);
      if !ClosesQuote(s, k, q) {
        QuotedSkips(s, out, q, k + 1);
      }
    }
  }

  /** The run inside quotes, one step on. */
  lemma QuotedRunStep(s: string, out: string, q: char, k: nat)
    requires 0 < k < |s|
    ensures Run(s, Config(Quoted, out + [q], k))
      == if ClosesQuote(s, k, q) then Run(s, Config(Default, out + [q] + [q], k + 1))
         else Run(s, Config(Quoted, out + [q], k + 1))
  {
    QuotedStep(s, out, q, k);
  }

  /** A quote in the default state is copied and opens a quoted run, which
      closes only at the same quote character not preceded by a backslash;
      that closing quote is copied too, and the characters between the two
      are not. An unclosed quote drops the rest of the input. */
  lemma QuotedRun(s: string, out: string, i: nat)
    requires i < |s| && IsQuote(s[i])
    ensures var q := s[i];
      var j := NextQuote(s, i + 1, q);
      Run(s, Config(Default, out, i))
        == if j < |s| then Run(s, Config(Default, out + [q, q], j + 1)) else out + [q]
  {
    var q := s[i];
    QuoteOpens(s, out, i);
    QuotedSkips(s, out, q, i + 1);
    assert out + [q] + [q] == out + [q, q];
  }

  lemma QuoteOpens(s: string, out: string, i: nat)
    requires i < |s| && IsQuote(s[i])
    ensures Run(s, Config(Default, out, i)) == Run(s, Config(Quoted, out + [s[i]], i + 1))
  {
    assert Step(s, Config(Default, out, i)) == Config(Quoted, out + [s[i]], i + 1);
  }
}
