/** The archive's fixed-width header record and what can go wrong reading it.

    The source writes the raw bytes of a `File` object; that class is not part of
    this model, so the layout below is the model's own choice: four NUL-padded
    text fields (name, permission mode, size, stamp) and a flag byte. Text longer
    than its field keeps only the characters that leave room for the NUL. */
module Format {
  import opened Bytes
  import opened Decimal
  import opened Entries

  const NAME_WIDTH: nat := 256
  const PMODE_WIDTH: nat := 4
  const SIZE_WIDTH: nat := 12
  const STAMP_WIDTH: nat := 16

  /** Where each field starts inside a header. */
  const PMODE_AT: nat := NAME_WIDTH
  const SIZE_AT: nat := PMODE_AT + PMODE_WIDTH
  const STAMP_AT: nat := SIZE_AT + SIZE_WIDTH
  const FLAG_AT: nat := STAMP_AT + STAMP_WIDTH

  /** The header width, `sizeof(File)` in the source. */
  const H: nat := FLAG_AT + 1

  /** Why a run of the writer or of a reader stops early: `stoi` throws on a size
      field (`BadSize`), or `new char[size]` throws on a negative size (`BadAlloc`).
      Neither exception is caught, so the program ends there. */
  datatype Fault = BadSize(text: string) | BadAlloc(size: int)

  /** The byte a C `char` holds for `c`. */
  function ByteOf(c: char): byte {
    (c as int % 256) as byte
  }

  /** Text a C string can hold: every character is one non-NUL byte. */
  predicate IsCText(s: string) {
    forall i :: 0 <= i < |s| ==> 0 < s[i] as int < 256
  }

  predicate FitsField(s: string, width: nat) {
    IsCText(s) && |s| < width
  }

  /** The entries whose header keeps every field intact. */
  predicate Fits(e: Entry) {
    && FitsField(e.name, NAME_WIDTH)
    && FitsField(e.pmode, PMODE_WIDTH)
    && FitsField(e.size, SIZE_WIDTH)
    && FitsField(e.stamp, STAMP_WIDTH)
  }

  function TextBytes(s: string): (r: seq<byte>)
    ensures |r| == |s|
  {
    seq(|s|, i requires 0 <= i < |s| => ByteOf(s[i]))
  }

  function Zeros(n: nat): (r: seq<byte>)
    ensures |r| == n
  {
    seq(n, _ => 0)
  }

  /** A text field of `width` bytes: the text, cut to leave room for the NUL, then NULs. */
  function EncodeField(s: string, width: nat): (r: seq<byte>)
    requires width > 0
    ensures |r| == width
  {
    var t := if |s| < width then s else s[..width - 1];
    TextBytes(t) + Zeros(width - |t|)
  }

  /** A C string read out of a field: the characters before the first NUL. */
  function DecodeField(b: seq<byte>): (s: string)
    ensures |s| <= |b|
  {
    if b == [] || b[0] == 0 then [] else [b[0] as int as char] + DecodeField(b[1..])
  }

  /** `DecodeField` of `b[i..end]`, read in place: the characters from `i`
      up to the first NUL or to `end`. */
  function FieldAt(b: seq<byte>, i: nat, end: nat): (s: string)
    requires i <= end <= |b|
    ensures |s| <= end - i
    decreases end - i
  {
    if i == end || b[i] == 0 then [] else [b[i] as int as char] + FieldAt(b, i + 1, end)
  }

  lemma {:induction false} FieldAtDecodes(b: seq<byte>, i: nat, end: nat)
    requires i <= end <= |b|
    ensures FieldAt(b, i, end) == DecodeField(b[i..end])
    decreases end - i
  {
    if i < end && b[i] != 0 {
      assert b[i..end][1..] == b[i + 1..end];
      FieldAtDecodes(b, i + 1, end);
    }
  }

  lemma {:induction false} DecodeTextBytes(s: string, pad: nat)
    requires IsCText(s) && pad > 0
    ensures DecodeField(TextBytes(s) + Zeros(pad)) == s
  {
    var b := TextBytes(s) + Zeros(pad);
    if s == [] {
      assert b[0] == 0;
    } else {
      assert b[0] == ByteOf(s[0]) != 0;
      assert b[0] as int as char == s[0];
      assert b[1..] == TextBytes(s[1..]) + Zeros(pad);
      DecodeTextBytes(s[1..], pad);
    }
  }

  lemma FieldRoundTrip(s: string, width: nat)
    requires FitsField(s, width)
    ensures DecodeField(EncodeField(s, width)) == s
  {
    DecodeTextBytes(s, width - |s|);
  }

  /** The header bytes the writer emits for `e`. */
  function Encode(e: Entry): (r: seq<byte>)
    ensures |r| == H
  {
    EncodeField(e.name, NAME_WIDTH) + EncodeField(e.pmode, PMODE_WIDTH)
    + EncodeField(e.size, SIZE_WIDTH) + EncodeField(e.stamp, STAMP_WIDTH)
    + [if e.isDir then 1 else 0]
  }

  /** Where text field `n` (0 name, 1 mode, 2 size, 3 stamp) starts; field
      `n` ends where field `n + 1` starts. */
  function FieldStart(n: nat): (p: nat)
    requires n <= 4
    ensures p <= FLAG_AT
  {
    [0, PMODE_AT, SIZE_AT, STAMP_AT, FLAG_AT][n]
  }

  /** The first `n` text fields of a header, in order. */
  function Fields(b: seq<byte>, n: nat): (f: seq<string>)
    requires |b| == H && n <= 4
    ensures |f| == n
  {
    if n == 0 then [] else Fields(b, n - 1) + [FieldAt(b, FieldStart(n - 1), FieldStart(n))]
  }

  /** The four text fields of a header, each between its bounds. */
  lemma AllFields(b: seq<byte>)
    requires |b| == H
    ensures Fields(b, 4) == [FieldAt(b, 0, PMODE_AT), FieldAt(b, PMODE_AT, SIZE_AT),
                             FieldAt(b, SIZE_AT, STAMP_AT), FieldAt(b, STAMP_AT, FLAG_AT)]
  {
    assert Fields(b, 1) == [FieldAt(b, 0, PMODE_AT)];
    assert Fields(b, 2) == Fields(b, 1) + [FieldAt(b, PMODE_AT, SIZE_AT)];
    assert Fields(b, 3) == Fields(b, 2) + [FieldAt(b, SIZE_AT, STAMP_AT)];
  }

  /** The entry a reader sees in `H` header bytes, whatever they hold. */
  function Decode(b: seq<byte>): (e: Entry)
    requires |b| == H
    ensures e.isDir <==> b[FLAG_AT] != 0
  {
    var f := Fields(b, 4);
    Entry(f[0], f[1], f[2], f[3], b[FLAG_AT] != 0)
  }

  /** A header read back gives the entry written, whenever its fields fit. */
  lemma DecodeEncode(e: Entry)
    requires Fits(e)
    ensures Decode(Encode(e)) == e
  {
    var r := Encode(e);
    AllFields(r);
    FieldAtDecodes(r, 0, PMODE_AT);
    FieldAtDecodes(r, PMODE_AT, SIZE_AT);
    FieldAtDecodes(r, SIZE_AT, STAMP_AT);
    FieldAtDecodes(r, STAMP_AT, FLAG_AT);
    assert r[..PMODE_AT] == EncodeField(e.name, NAME_WIDTH);
    assert r[PMODE_AT..SIZE_AT] == EncodeField(e.pmode, PMODE_WIDTH);
    assert r[SIZE_AT..STAMP_AT] == EncodeField(e.size, SIZE_WIDTH);
    assert r[STAMP_AT..FLAG_AT] == EncodeField(e.stamp, STAMP_WIDTH);
    FieldRoundTrip(e.name, NAME_WIDTH);
    FieldRoundTrip(e.pmode, PMODE_WIDTH);
    FieldRoundTrip(e.size, SIZE_WIDTH);
    FieldRoundTrip(e.stamp, STAMP_WIDTH);
  }

  lemma {:induction false} NatToStringLength(n: nat, k: nat)
    requires n < Pow10(k)
    ensures |NatToString(n)| <= k || (n == 0 && k == 0)
  {
    if n >= 10 {
      assert k >= 2;
      NatToStringLength(n / 10, k - 1);
    }
  }

  function Pow10(k: nat): (p: nat)
    ensures p >= 1
  {
    if k == 0 then 1 else 10 * Pow10(k - 1)
  }

  /** Every entry `getInfo` builds keeps its fields in the header, provided its
      path and stamp do. */
  lemma GetInfoFits(path: string, st: Stat)
    requires FitsField(path, NAME_WIDTH) && FitsField(st.changed, STAMP_WIDTH)
    ensures Fits(GetInfo(path, st))
  {
    var x := Bytes.Wrap32(st.size);
    var n: nat := if x < 0 then -x else x;
    assert Pow10(10) == 10_000_000_000;
    NatToStringLength(n, 10);
    IntToStringValue(x);
    var e := GetInfo(path, st);
    assert IsCText(e.size) by {
      forall i | 0 <= i < |e.size| ensures 0 < e.size[i] as int < 256 {
        if x < 0 && i == 0 {
        } else if x < 0 {
          assert IsDigit(e.size[1..][i - 1]);
        } else {
          assert IsDigit(e.size[i]);
        }
      }
    }
  }
}
