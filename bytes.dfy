/** Bytes, the C `int` the archive's entry count travels as, and raw buffers. */
module Bytes {

  newtype byte = x: int | 0 <= x < 256

  datatype Option<T> = None | Some(value: T)

  const INT32_MIN: int := -0x8000_0000
  const INT32_MAX: int := 0x7FFF_FFFF
  const TWO_32: int := 0x1_0000_0000

  predicate IsInt32(x: int) {
    INT32_MIN <= x <= INT32_MAX
  }

  /** Conversion of a wider integer to a 32-bit two's-complement `int`
      (`int numEntries = allFiles.size()`, `int sizeRaw = buf.st_size`):
      the low 32 bits are kept. */
  function Wrap32(x: int): (r: int)
    ensures IsInt32(r)
    ensures (x - r) % TWO_32 == 0
    ensures IsInt32(x) ==> r == x
  {
    var low := x % TWO_32;
    if low <= INT32_MAX then low else low - TWO_32
  }

  /** The four bytes of a 32-bit `int` as the host stores it; the model fixes
      little-endian order. */
  function EncodeInt32(x: int): (r: seq<byte>)
    requires IsInt32(x)
    ensures |r| == 4
  {
    var u := x % TWO_32;
    var q1 := u / 0x100;
    var q2 := q1 / 0x100;
    var q3 := q2 / 0x100;
    [(u % 0x100) as byte, (q1 % 0x100) as byte, (q2 % 0x100) as byte, q3 as byte]
  }

  /** The 32-bit `int` whose bytes are `b`, as `read((char*) &n, sizeof(int))` sees it. */
  function DecodeInt32(b: seq<byte>): (r: int)
    requires |b| == 4
    ensures IsInt32(r)
  {
    var u := b[0] as int + 0x100 * b[1] as int + 0x1_0000 * b[2] as int + 0x100_0000 * b[3] as int;
    if u <= INT32_MAX then u else u - TWO_32
  }

  lemma Int32RoundTrip(x: int)
    requires IsInt32(x)
    ensures DecodeInt32(EncodeInt32(x)) == x
  {
    var u := x % TWO_32;
    var q1 := u / 0x100;
    var q2 := q1 / 0x100;
    var q3 := q2 / 0x100;
    assert u == u % 0x100 + 0x100 * q1;
    assert q1 == q1 % 0x100 + 0x100 * q2;
    assert q2 == q2 % 0x100 + 0x100 * q3;
  }

  /** The buffer of `|under|` bytes after a read that delivered only `got`:
      the bytes not delivered keep what the buffer held before. */
  function Overlay(got: seq<byte>, under: seq<byte>): (r: seq<byte>)
    requires |got| <= |under|
    ensures |r| == |under| && r[..|got|] == got && r[|got|..] == under[|got|..]
    ensures |got| == |under| ==> r == got
  {
    got + under[|got|..]
  }

  /** `n` bytes of whatever an uninitialised buffer holds, modelled as one
      unknown byte value `stale`. */
  function Uninit(n: nat, stale: byte): (r: seq<byte>)
    ensures |r| == n
  {
    seq(n, _ => stale)
  }

  lemma AppendAssoc<T>(a: seq<T>, b: seq<T>, c: seq<T>)
    ensures (a + b) + c == a + (b + c)
  {
  }

  lemma PrefixStep<T>(s: seq<T>, i: nat)
    requires i < |s|
    ensures s[..i + 1][..i] == s[..i] && s[..i + 1][i] == s[i]
  {
  }

  lemma SplitAt<T>(s: seq<T>, k: nat)
    requires k <= |s|
    ensures s == s[..k] + s[k..] && (k == |s| ==> s[..k] == s)
  {
  }

  lemma SuffixStep<T>(s: seq<T>, j: nat)
    requires j < |s|
    ensures s[j..] == [s[j]] + s[j + 1..]
  {
  }
}
