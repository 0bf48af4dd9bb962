/** The primitive binary reader the dump decoder is built on
    (yt_idefix/_io/dmp_io.py): a file is a byte sequence, the file handle is a
    cursor into it. As with a Python file object, the cursor may be moved past
    the end by a relative seek; a read there returns fewer bytes than asked. */
module ByteReader {
  import opened Results
  import Utf8

  type byte = Utf8.byte

  const INT32_MIN: int := -0x8000_0000
  const INT32_BOUND: int := 0x8000_0000

  /** `fh.read(n)`: up to `n` bytes, fewer at the end of the file; the cursor
      moves past what was read. */
  function Read(f: seq<byte>, cur: nat, n: nat): (r: (seq<byte>, nat))
    ensures |r.0| <= n && r.1 == cur + |r.0|
    ensures cur + n <= |f| ==> r.0 == f[cur..cur + n]
    ensures cur + n > |f| ==> r.1 == (if cur <= |f| then |f| else cur)
    ensures cur + n > |f| && cur <= |f| ==> r.0 == f[cur..]
  {
    if cur >= |f| then ([], cur)
    else if cur + n <= |f| then (f[cur..cur + n], cur + n)
    else (f[cur..], |f|)
  }

  /** `struct.unpack(fmt, fh.read(n))` needs exactly `n` bytes; with fewer it
      raises, which is `None` here. */
  function ReadExact(f: seq<byte>, cur: nat, n: nat): (r: Option<seq<byte>>)
    ensures r.Some? <==> cur + n <= |f|
    ensures r.Some? ==> r.value == f[cur..cur + n]
  {
    if cur + n <= |f| then Some(f[cur..cur + n]) else None
  }

  /** Unsigned value of bytes stored least significant first. */
  function LittleEndian(b: seq<byte>): (u: nat)
    ensures u < Pow256(|b|)
  {
    if |b| == 0 then 0 else b[0] as int + 0x100 * LittleEndian(b[1..])
  }

  function Pow256(n: nat): (p: nat)
    ensures p > 0
  {
    if n == 0 then 1 else 0x100 * Pow256(n - 1)
  }

  /** The int32 stored in four bytes, least significant first, two's
      complement: the `=i` format of the dump files. */
  function Int32Of(b0: byte, b1: byte, b2: byte, b3: byte): (x: int)
    ensures INT32_MIN <= x < INT32_BOUND
  {
    var u := b0 as int + 0x100 * b1 as int + 0x1_0000 * b2 as int + 0x100_0000 * b3 as int;
    if u >= INT32_BOUND then u - 0x1_0000_0000 else u
  }

  function DecodeInt32(b: seq<byte>): (x: int)
    requires |b| == 4
    ensures INT32_MIN <= x < INT32_BOUND
  {
    Int32Of(b[0], b[1], b[2], b[3])
  }

  /** The `n` low bytes of `u`, least significant first. */
  function LittleEndianBytes(u: nat, n: nat): (b: seq<byte>)
    ensures |b| == n
  {
    if n == 0 then [] else [u % 0x100] + LittleEndianBytes(u / 0x100, n - 1)
  }

  /** A number below `256^n` survives being written in `n` bytes and read back. */
  lemma {:induction false} LittleEndianRoundTrip(u: nat, n: nat)
    requires u < Pow256(n)
    ensures LittleEndian(LittleEndianBytes(u, n)) == u
  {
    if n > 0 {
      LittleEndianRoundTrip(u / 0x100, n - 1);
      assert LittleEndianBytes(u, n)[1..] == LittleEndianBytes(u / 0x100, n - 1);
    }
  }

  function EncodeInt32(x: int): (b: seq<byte>)
    requires INT32_MIN <= x < INT32_BOUND
    ensures |b| == 4
  {
    LittleEndianBytes(if x < 0 then x + 0x1_0000_0000 else x, 4)
  }

  /** Every 32-bit integer survives being written and read back. */
  lemma DecodeEncodeInt32(x: int)
    requires INT32_MIN <= x < INT32_BOUND
    ensures DecodeInt32(EncodeInt32(x)) == x
  {
    var u := if x < 0 then x + 0x1_0000_0000 else x;
    var b := EncodeInt32(x);
    assert Pow256(4) == 0x1_0000_0000;
    LittleEndianRoundTrip(u, 4);
    assert LittleEndian(b[3..]) == b[3] as int by {
      assert b[3..][1..] == [];
    }
    assert LittleEndian(b[2..]) == b[2] as int + 0x100 * b[3] as int by {
      assert b[2..][1..] == b[3..];
    }
    assert LittleEndian(b[1..]) == b[1] as int + 0x100 * (b[2] as int + 0x100 * b[3] as int) by {
      assert b[1..][1..] == b[2..];
    }
  }

  /** Index of the first NUL byte, or the length when there is none. */
  function FirstNul(b: seq<byte>): (i: nat)
    ensures i <= |b|
    ensures i < |b| ==> b[i] == 0
    ensures forall j :: 0 <= j < i ==> b[j] != 0
  {
    if |b| == 0 then 0 else if b[0] == 0 then 0 else 1 + FirstNul(b[1..])
  }

  /** `s.split("\x00", maxsplit=1)[0]`: the text before the first NUL. */
  function BeforeNul(s: string): (t: string)
    ensures |t| <= |s| && t == s[..|t|]
    ensures forall i :: 0 <= i < |t| ==> t[i] != '\0'
    ensures |t| < |s| ==> s[|t|] == '\0'
  {
    if |s| == 0 || s[0] == '\0' then "" else [s[0]] + BeforeNul(s[1..])
  }

  /** Text cut at a NUL that follows NUL-free text is that text. */
  lemma {:induction false} BeforeNulOf(d: string, e: string)
    requires forall i :: 0 <= i < |d| ==> d[i] != '\0'
    requires |e| == 0 || e[0] == '\0'
    ensures BeforeNul(d + e) == d
  {
    if |d| == 0 {
      assert d + e == e;
    } else {
      assert (d + e)[0] == d[0] && (d + e)[1..] == d[1..] + e;
      BeforeNulOf(d[1..], e);
    }
  }

  /** `read_null_terminated_string(fh, maxsize)`: reads `maxsize` bytes (fewer
      only at the end of the file), decodes them as UTF-8 with every byte
      outside a well-formed sequence written `\xhh`, and keeps the text
      before the first NUL, or all of it when there is none. */
  function ReadNullTerminatedString(f: seq<byte>, cur: nat, maxsize: nat): (r: (string, nat))
    ensures cur + maxsize <= |f| ==> r.1 == cur + maxsize
    ensures cur + maxsize > |f| ==> r.1 == (if cur <= |f| then |f| else cur)
  {
    var (raw, next) := Read(f, cur, maxsize);
    (BeforeNul(Utf8.DecodeReplacing(raw)), next)
  }

  /** Cutting the decoded text at its first NUL character is decoding the
      bytes up to the first NUL byte. */
  lemma {:induction false} DecodeBeforeNul(raw: seq<byte>)
    ensures BeforeNul(Utf8.DecodeReplacing(raw)) == Utf8.DecodeReplacing(raw[..FirstNul(raw)])
    decreases |raw|
  {
    var k := FirstNul(raw);
    if |raw| > 0 && k == 0 {
      assert Utf8.Step(raw).0 == "\0";
    } else if |raw| > 0 {
      var (t, n) := Utf8.Step(raw);
      var tail := raw[n..];
      Utf8.StepBeforeNul(raw, k);
      DecodeBeforeNul(tail);
      FirstNulOfTail(raw, n);
      BeforeNulAfter(t, Utf8.DecodeReplacing(tail));
      assert Utf8.DecodeReplacing(raw[..k]) == t + Utf8.DecodeReplacing(tail[..FirstNul(tail)]);
    }
  }

  /** Dropping bytes before the first NUL moves it closer by as many. */
  lemma FirstNulOfTail(raw: seq<byte>, n: nat)
    requires n <= FirstNul(raw)
    ensures FirstNul(raw[n..]) == FirstNul(raw) - n
    ensures raw[..FirstNul(raw)][n..] == raw[n..][..FirstNul(raw[n..])]
  {
    var k := FirstNul(raw);
    var tail := raw[n..];
    assert forall j :: 0 <= j < k - n ==> tail[j] == raw[n + j];
    assert k < |raw| ==> tail[k - n] == raw[k];
    assert FirstNul(tail) == k - n;
  }

  /** NUL-free text in front passes through the cut. */
  lemma {:induction false} BeforeNulAfter(t: string, s: string)
    requires forall i :: 0 <= i < |t| ==> t[i] != '\0'
    ensures BeforeNul(t + s) == t + BeforeNul(s)
  {
    if |t| == 0 {
      assert t + s == s;
    } else {
      assert (t + s)[0] == t[0] && (t + s)[1..] == t[1..] + s;
      BeforeNulAfter(t[1..], s);
      assert [t[0]] + (t[1..] + BeforeNul(s)) == t + BeforeNul(s);
    }
  }

  /** The string read is the decoding of the bytes read up to the first NUL
      byte, and it holds no NUL. */
  lemma ReadNullTerminatedStringText(f: seq<byte>, cur: nat, maxsize: nat)
    ensures var s := ReadNullTerminatedString(f, cur, maxsize).0;
      var raw := Read(f, cur, maxsize).0;
      && s == Utf8.DecodeReplacing(raw[..FirstNul(raw)])
      && (forall i :: 0 <= i < |s| ==> s[i] != '\0')
  {
    DecodeBeforeNul(Read(f, cur, maxsize).0);
  }

  /** A name is writable into a `size`-byte slot when it holds no NUL and its
      UTF-8 encoding fits. */
  predicate IsSlotName(s: string, size: nat) {
    |Utf8.Encode(s)| <= size && forall i :: 0 <= i < |s| ==> s[i] != '\0'
  }

  /** The UTF-8 bytes of a name, NUL-padded to `size`. */
  function PadName(s: string, size: nat): (b: seq<byte>)
    requires IsSlotName(s, size)
    ensures |b| == size
  {
    Utf8.Encode(s) + seq(size - |Utf8.Encode(s)|, _ => 0)
  }

  /** Reading back a padded name yields the name and consumes the whole slot,
      whatever follows it. */
  lemma ReadPaddedName(s: string, size: nat, f: seq<byte>, cur: nat)
    requires IsSlotName(s, size)
    requires cur + size <= |f| && f[cur..cur + size] == PadName(s, size)
    ensures ReadNullTerminatedString(f, cur, size) == (s, cur + size)
  {
    assert Read(f, cur, size).0 == PadName(s, size);
    PadNameCut(s, size);
    Utf8.DecodeEncode(s);
    ReadNullTerminatedStringText(f, cur, size);
  }

  /** The first NUL of a padded name is the first padding byte. */
  lemma PadNameCut(s: string, size: nat)
    requires IsSlotName(s, size)
    ensures var raw := PadName(s, size);
      raw[..FirstNul(raw)] == Utf8.Encode(s)
  {
    var raw := PadName(s, size);
    var e := Utf8.Encode(s);
    Utf8.EncodeAvoids(s, '\0');
    assert forall k :: 0 <= k < |e| ==> raw[k] == e[k] != 0;
    assert |e| < size ==> raw[|e|] == 0;
    assert FirstNul(raw) == |e|;
  }
}
