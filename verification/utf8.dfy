/** UTF-8 as Python's `bytes.decode` reads it. A well-formed sequence is one
    of the byte patterns of table 3-7 in section 3.9 of the Unicode Standard:
    no overlong forms, no surrogates, nothing past U+10FFFF. `decode()`
    raises on anything else; `decode("utf-8", errors="backslashreplace")`
    writes every byte that starts no well-formed sequence as `\xhh`. */
module Utf8 {
  import opened Results

  type byte = b: int | 0 <= b < 256

  const NUL: byte := 0

  /** The bytes `0x80..0xBF` that continue a multi-byte sequence. */
  predicate IsContinuation(b: byte) {
    0x80 <= b < 0xC0
  }

  /** The length of the sequence a lead byte opens, 0 when it opens none
      (a continuation byte, `C0`, `C1`, `F5..FF`). */
  function SequenceLength(lead: byte): (n: nat)
    ensures n <= 4
  {
    if lead < 0x80 then 1
    else if 0xC2 <= lead < 0xE0 then 2
    else if 0xE0 <= lead < 0xF0 then 3
    else if 0xF0 <= lead < 0xF5 then 4
    else 0
  }

  /** Where the second byte of a sequence must lie: narrower than the
      continuation range after `E0` and `F0` (no overlong forms), `ED` (no
      surrogates) and `F4` (nothing past U+10FFFF). */
  predicate SecondInRange(lead: byte, b: byte) {
    (if lead == 0xE0 then 0xA0 else if lead == 0xF0 then 0x90 else 0x80) <= b
      <= (if lead == 0xED then 0x9F else if lead == 0xF4 then 0x8F else 0xBF)
  }

  /** The bytes `bs[..n]` form a well-formed sequence of length `n`. */
  predicate WellFormedAt(bs: seq<byte>, n: nat) {
    && |bs| > 0
    && n == SequenceLength(bs[0])
    && 1 <= n <= |bs|
    && (n >= 2 ==> SecondInRange(bs[0], bs[1]))
    && (n >= 3 ==> IsContinuation(bs[2]))
    && (n >= 4 ==> IsContinuation(bs[3]))
  }

  /** The code point a well-formed sequence encodes. */
  function CodePoint(bs: seq<byte>, n: nat): (v: int)
    requires |bs| > 0 && WellFormedAt(bs, n)
    ensures 0 <= v < 0xD800 || 0xE000 <= v < 0x11_0000
  {
    if n == 1 then bs[0]
    else if n == 2 then (bs[0] as int - 0xC0) * 0x40 + (bs[1] as int - 0x80)
    else if n == 3 then (bs[0] as int - 0xE0) * 0x1000 + (bs[1] as int - 0x80) * 0x40 + (bs[2] as int - 0x80)
    else (bs[0] as int - 0xF0) * 0x4_0000 + (bs[1] as int - 0x80) * 0x1000 + (bs[2] as int - 0x80) * 0x40 + (bs[3] as int - 0x80)
  }

  /** The character and length of the well-formed sequence opening `bs`, or
      `None` when the first byte opens none. */
  function ScalarAt(bs: seq<byte>): (r: Option<(char, nat)>)
    requires |bs| > 0
    ensures r.Some? ==> 1 <= r.value.1 <= |bs|
  {
    var n := SequenceLength(bs[0]);
    if WellFormedAt(bs, n) then Some((CodePoint(bs, n) as char, n)) else None
  }

  /** `bs.decode()`: the text, or `None` for the UnicodeDecodeError raised
      when the bytes are not well-formed UTF-8. */
  function Decode(bs: seq<byte>): Option<string>
    decreases |bs|
  {
    if |bs| == 0 then Some("")
    else
      match ScalarAt(bs)
      case None => None
      case Some((c, n)) =>
        match Decode(bs[n..])
        case None => None
        case Some(rest) => Some([c] + rest)
  }

  function HexDigit(d: int): char
    requires 0 <= d < 16
  {
    if d < 10 then ('0' as int + d) as char else ('a' as int + d - 10) as char
  }

  /** The `\xhh` that `backslashreplace` writes for a byte. */
  function Escape(b: byte): string {
    ['\\', 'x', HexDigit(b / 16), HexDigit(b % 16)]
  }

  /** `bs.decode("utf-8", errors="backslashreplace")`. Python reports an
      error over the longest prefix of a well-formed sequence and escapes
      each of its bytes; as every byte after the first of such a prefix is a
      continuation byte, which opens no sequence, escaping one byte at a
      time gives the same text. */
  function DecodeReplacing(bs: seq<byte>): string
    decreases |bs|
  {
    if |bs| == 0 then "" else Step(bs).0 + DecodeReplacing(bs[Step(bs).1..])
  }

  /** One step of the replacing decoder: the text it writes for the front
      of `bs`, and how many bytes that consumes. */
  function Step(bs: seq<byte>): (r: (string, nat))
    requires |bs| > 0
    ensures 1 <= r.1 <= |bs|
  {
    match ScalarAt(bs)
    case Some((c, n)) => ([c], n)
    case None => (Escape(bs[0]), 1)
  }

  // ---------------------------------------------------------------------
  // Encoding

  /** `v >> 6` */
  function Shift(v: nat): (q: nat)
    ensures q * 0x40 <= v < q * 0x40 + 0x40
  {
    v / 0x40
  }

  /** `v & 0x3F`, the six bits a continuation byte carries. */
  function Low(v: nat): (r: nat)
    ensures r < 0x40 && Shift(v) * 0x40 + r == v
  {
    v % 0x40
  }

  /** `c.encode()` for one character. */
  function EncodeChar(c: char): (b: seq<byte>)
    ensures 1 <= |b| <= 4
  {
    var v := c as int;
    var v1 := Shift(v);
    var v2 := Shift(v1);
    if v < 0x80 then [v]
    else if v < 0x800 then [0xC0 + v1, 0x80 + Low(v)]
    else if v < 0x1_0000 then [0xE0 + v2, 0x80 + Low(v1), 0x80 + Low(v)]
    else [0xF0 + Shift(v2), 0x80 + Low(v2), 0x80 + Low(v1), 0x80 + Low(v)]
  }

  /** `s.encode()` */
  function Encode(s: string): (b: seq<byte>)
    ensures |s| <= |b|
  {
    if |s| == 0 then [] else EncodeChar(s[0]) + Encode(s[1..])
  }

  lemma {:induction false} EncodeAppend(a: string, b: string)
    ensures Encode(a + b) == Encode(a) + Encode(b)
  {
    if |a| == 0 {
      assert a + b == b;
    } else {
      assert (a + b)[0] == a[0] && (a + b)[1..] == a[1..] + b;
      EncodeAppend(a[1..], b);
    }
  }

  /** An ASCII character is its own byte; every other character is written
      with bytes of `0x80` and above only. */
  lemma EncodeCharBytes(c: char)
    ensures c as int < 0x80 ==> EncodeChar(c) == [c as int]
    ensures c as int >= 0x80 ==> forall k :: 0 <= k < |EncodeChar(c)| ==> EncodeChar(c)[k] >= 0x80
  {
  }

  /** The sequence a character is written as reads back as that character. */
  lemma ScalarAtEncodeChar(c: char, rest: seq<byte>)
    ensures ScalarAt(EncodeChar(c) + rest) == Some((c, |EncodeChar(c)|))
  {
    var bs := EncodeChar(c) + rest;
    assert WellFormedAt(bs, |EncodeChar(c)|);
    assert CodePoint(bs, |EncodeChar(c)|) == c as int;
  }

  /** Six bits shifted in below a number shift back out. */
  lemma ShiftIn(q: nat, r: nat)
    requires r < 0x40
    ensures Shift(q * 0x40 + r) == q && Low(q * 0x40 + r) == r
  {
  }

  /** The sequence read at the front of some bytes is the encoding of the
      character read: there are no overlong forms. */
  lemma EncodeCharOfScalarAt(bs: seq<byte>)
    requires |bs| > 0 && ScalarAt(bs).Some?
    ensures var (c, n) := ScalarAt(bs).value;
      EncodeChar(c) == bs[..n]
  {
    var n := SequenceLength(bs[0]);
    if n == 2 {
      EncodeTwo(bs);
    } else if n == 3 {
      EncodeThree(bs);
    } else if n == 4 {
      EncodeFour(bs);
    }
  }

  lemma EncodeTwo(bs: seq<byte>)
    requires WellFormedAt(bs, 2)
    ensures EncodeChar(CodePoint(bs, 2) as char) == bs[..2]
  {
    ShiftIn(bs[0] as int - 0xC0, bs[1] as int - 0x80);
  }

  lemma EncodeThree(bs: seq<byte>)
    requires WellFormedAt(bs, 3)
    ensures EncodeChar(CodePoint(bs, 3) as char) == bs[..3]
  {
    var x := bs[0] as int - 0xE0;
    ShiftIn(x, bs[1] as int - 0x80);
    ShiftIn(x * 0x40 + (bs[1] as int - 0x80), bs[2] as int - 0x80);
  }

  lemma EncodeFour(bs: seq<byte>)
    requires WellFormedAt(bs, 4)
    ensures EncodeChar(CodePoint(bs, 4) as char) == bs[..4]
  {
    var x := bs[0] as int - 0xF0;
    var y := x * 0x40 + (bs[1] as int - 0x80);
    ShiftIn(x, bs[1] as int - 0x80);
    ShiftIn(y, bs[2] as int - 0x80);
    ShiftIn(y * 0x40 + (bs[2] as int - 0x80), bs[3] as int - 0x80);
  }

  /** Text written as UTF-8 reads back as itself, under both decoders. */
  lemma {:induction false} DecodeEncode(s: string)
    ensures Decode(Encode(s)) == Some(s)
    ensures DecodeReplacing(Encode(s)) == s
  {
    if |s| > 0 {
      var bs := Encode(s);
      ScalarAtEncodeChar(s[0], Encode(s[1..]));
      assert bs[|EncodeChar(s[0])|..] == Encode(s[1..]);
      DecodeEncode(s[1..]);
      assert Decode(bs) == Some([s[0]] + s[1..]);
      assert [s[0]] + s[1..] == s;
    }
  }

  /** The bytes decode without error exactly when they are the encoding of
      some text, and then that text is the one decoded. */
  lemma {:induction false} DecodeExactlyEncodings(bs: seq<byte>, s: string)
    ensures Decode(bs) == Some(s) <==> bs == Encode(s)
    decreases |bs|
  {
    if bs == Encode(s) {
      DecodeEncode(s);
    }
    if Decode(bs) == Some(s) && |bs| > 0 {
      var (c, n) := ScalarAt(bs).value;
      EncodeCharOfScalarAt(bs);
      DecodeExactlyEncodings(bs[n..], s[1..]);
      assert bs == bs[..n] + bs[n..];
    }
  }

  /** On well-formed bytes the replacing decoder agrees with the strict
      one. */
  lemma {:induction false} ReplacingAgrees(bs: seq<byte>)
    requires Decode(bs).Some?
    ensures DecodeReplacing(bs) == Decode(bs).value
    decreases |bs|
  {
    if |bs| > 0 {
      ReplacingAgrees(bs[ScalarAt(bs).value.1..]);
    }
  }

  // ---------------------------------------------------------------------
  // NUL bytes

  /** A NUL byte is a character of its own: no step runs across it. Where
      the first `k` bytes hold no NUL and a NUL or the end follows them, a
      step reads the same from those `k` bytes as from all of them, stays
      inside them, and writes no NUL. */
  lemma StepBeforeNul(bs: seq<byte>, k: nat)
    requires 0 < k <= |bs|
    requires forall j :: 0 <= j < k ==> bs[j] != NUL
    requires k < |bs| ==> bs[k] == NUL
    ensures Step(bs[..k]) == Step(bs) && Step(bs).1 <= k
    ensures forall i :: 0 <= i < |Step(bs).0| ==> Step(bs).0[i] != '\0'
  {
    var p := bs[..k];
    assert p[0] == bs[0];
    assert forall j :: 0 <= j < k ==> p[j] == bs[j];
    assert ScalarAt(p) == ScalarAt(bs);
  }

  /** Text without a given ASCII character is written without that byte. */
  lemma {:induction false} EncodeAvoids(s: string, a: char)
    requires a as int < 0x80
    requires forall i :: 0 <= i < |s| ==> s[i] != a
    ensures forall k :: 0 <= k < |Encode(s)| ==> Encode(s)[k] != a as int
  {
    if |s| > 0 {
      EncodeCharBytes(s[0]);
      EncodeAvoids(s[1..], a);
    }
  }

  // ---------------------------------------------------------------------
  // Examples

  /** The two-byte form of `é` decodes to that one character. */
  lemma DecodeAcute()
    ensures Decode([0xC3, 0xA9]) == Some("é")
    ensures DecodeReplacing([0xC3, 0xA9]) == "é"
  {
    assert Encode("é") == [0xC3, 0xA9];
    DecodeEncode("é");
  }

  /** A lone `FF` byte raises under `decode()` and is escaped as the four
      characters `\xff` otherwise, the same text as those four ASCII bytes
      decode to. */
  lemma DecodeInvalidByte()
    ensures Decode([0xFF]).None?
    ensures DecodeReplacing([0xFF]) == "\\xff"
    ensures DecodeReplacing(Encode("\\xff")) == "\\xff"
  {
    assert [0xFF][1..] == [];
    DecodeEncode("\\xff");
  }
}
