/** One archive member as `getInfo` builds it from what `lstat` reports. */
module Entries {
  import opened Bytes
  import opened Decimal

  /** The part of `struct stat` that `getInfo` looks at. The stamp is given
      already formatted as `YYYYMMDDhhmm.ss` from `st_ctime` (the `localtime`
      and `strftime` step is outside the model). */
  datatype Stat = Stat(mode: nat, size: nat, changed: string)

  /** An archive member: every field but the directory flag is text. */
  datatype Entry = Entry(name: string, pmode: string, size: string, stamp: string, isDir: bool)

  /** `S_ISDIR`: the file-type field, bits 12 to 15 of the mode (`mode & S_IFMT`),
      holds `S_IFDIR` (octal 04). The masks and shifts of the source are written
      as division and remainder by powers of two. */
  predicate IsDirMode(mode: nat) {
    mode / 0x1000 % 0x10 == 0x4
  }

  /** `IsDirMode` is `(mode & S_IFMT) == S_IFDIR`, with `S_IFMT` = octal
      0170000 and `S_IFDIR` = octal 0040000: the bits of the mode below bit 16
      and from bit 12 up are exactly those of `S_IFDIR`. */
  lemma IsDirModeMask(mode: nat)
    ensures IsDirMode(mode) <==> mode % 0x1_0000 - mode % 0x1000 == 0x4000
  {
    var q := mode / 0x1000;
    var r := mode % 0x1000;
    assert mode == 0x1000 * q + r;
    MaskSplit(mode, q, r);
  }

  lemma MaskSplit(mode: nat, q: nat, r: nat)
    requires mode == 0x1000 * q + r && r < 0x1000
    ensures mode % 0x1000 == r
    ensures mode % 0x1_0000 == 0x1000 * (q % 0x10) + r
  {
    var h := q / 0x10;
    assert mode == 0x1_0000 * h + (0x1000 * (q % 0x10) + r);
  }

  predicate IsOctalDigit(c: char) {
    '0' <= c <= '7'
  }

  /** The value of three octal digits, as `chmod` reads a numeric mode. */
  function OctalValue(s: string): nat
    requires |s| == 3 && IsOctalDigit(s[0]) && IsOctalDigit(s[1]) && IsOctalDigit(s[2])
  {
    64 * DigitValue(s[0]) + 8 * DigitValue(s[1]) + DigitValue(s[2])
  }

  /** The owner, group and other permission bits, each streamed as one decimal
      digit. */
  function PermissionString(mode: nat): (s: string)
    ensures |s| == 3 && IsOctalDigit(s[0]) && IsOctalDigit(s[1]) && IsOctalDigit(s[2])
  {
    var owner := mode / 0x40 % 8;  // (st_mode & S_IRWXU) >> 6
    var group := mode / 0x8 % 8;   // (st_mode & S_IRWXG) >> 3
    var other := mode % 8;         // st_mode & S_IRWXO
    [DigitChar(owner), DigitChar(group), DigitChar(other)]
  }

  /** The three digits, read in base 8 as `chmod` reads them, give back the
      permission bits of the mode. */
  lemma PermissionValue(mode: nat)
    ensures OctalValue(PermissionString(mode)) == mode % 0x200
  {
    PermissionBits(mode);
  }

  lemma PermissionBits(mode: nat)
    ensures mode % 0x200 == 64 * (mode / 0x40 % 8) + 8 * (mode / 0x8 % 8) + mode % 8
  {
    var q1 := mode / 8;
    var q2 := q1 / 8;
    var q3 := q2 / 8;
    var low := mode % 8 + 8 * (q1 % 8);
    assert mode == 0x40 * q2 + low;
    Quotient64(mode, q2, low);
    assert mode == 0x200 * q3 + (low + 64 * (q2 % 8));
    Remainder512(mode, q3, low + 64 * (q2 % 8));
  }

  lemma Quotient64(x: nat, q: nat, r: nat)
    requires x == 0x40 * q + r && r < 0x40
    ensures x / 0x40 == q
  {
  }

  lemma Remainder512(x: nat, q: nat, r: nat)
    requires x == 0x200 * q + r && r < 0x200
    ensures x % 0x200 == r
  {
  }

  /** `getInfo(path)` given what `lstat(path)` reports. */
  function GetInfo(path: string, st: Stat): (e: Entry)
    ensures e.name == path
    ensures e.isDir <==> IsDirMode(st.mode)
    ensures e.stamp == st.changed
  {
    Entry(path, PermissionString(st.mode), IntToString(Wrap32(st.size)), st.changed, IsDirMode(st.mode))
  }

  /** The permission field holds three octal digits that `chmod` reads as the
      permission bits of the mode. */
  lemma GetInfoMode(path: string, st: Stat)
    ensures var p := GetInfo(path, st).pmode;
            |p| == 3 && IsOctalDigit(p[0]) && IsOctalDigit(p[1]) && IsOctalDigit(p[2])
            && OctalValue(p) == st.mode % 0x200
  {
    PermissionValue(st.mode);
  }

  /** The size field is `to_string` of the size cut to an `int`, so `stoi`
      reads back that `int`; a size that fits in an `int` comes back unchanged,
      written in plain digits. */
  lemma GetInfoSize(path: string, st: Stat)
    ensures Stoi(GetInfo(path, st).size) == Some(Wrap32(st.size))
    ensures st.size <= INT32_MAX ==> AllDigits(GetInfo(path, st).size) && Stoi(GetInfo(path, st).size) == Some(st.size)
  {
    StoiIntToString(Wrap32(st.size));
    IntToStringValue(Wrap32(st.size));
  }
}
