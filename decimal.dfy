/** The decimal text the archive stores numbers as: `std::to_string` on the
    writing side and `std::stoi` on the reading side. */
module Decimal {
  import opened Bytes

  predicate IsDigit(c: char) {
    '0' <= c <= '9'
  }

  predicate AllDigits(s: string) {
    forall i :: 0 <= i < |s| ==> IsDigit(s[i])
  }

  function DigitValue(c: char): (d: nat)
    requires IsDigit(c)
    ensures d < 10
  {
    c as int - '0' as int
  }

  function DigitChar(d: nat): (c: char)
    requires d < 10
    ensures IsDigit(c) && DigitValue(c) == d
  {
    ('0' as int + d) as char
  }

  /** The number the digits at the front of `s` denote, read as `strtol` reads
      them: one at a time, most significant first, each onto the value so far
      (`acc`); the first character that is not a digit ends the number. */
  function ReadDigits(s: string, acc: nat): nat
  {
    if s != [] && IsDigit(s[0]) then ReadDigits(s[1..], 10 * acc + DigitValue(s[0])) else acc
  }

  /** One more digit at the end of a run of digits shifts the number a place left. */
  lemma {:induction false} ReadDigitsSnoc(s: string, c: char, acc: nat)
    requires AllDigits(s) && IsDigit(c)
    ensures ReadDigits(s + [c], acc) == 10 * ReadDigits(s, acc) + DigitValue(c)
  {
    if s == [] {
      assert ([] + [c])[1..] == [];
    } else {
      assert (s + [c])[1..] == s[1..] + [c];
      ReadDigitsSnoc(s[1..], c, 10 * acc + DigitValue(s[0]));
    }
  }

  /** The shortest decimal rendering of `n`: no leading zero except for `0` itself. */
  function NatToString(n: nat): (s: string)
    ensures |s| >= 1 && AllDigits(s)
    ensures s[0] == '0' <==> n == 0
    decreases n
  {
    if n < 10 then [DigitChar(n)] else NatToString(n / 10) + [DigitChar(n % 10)]
  }

  lemma {:induction false} NatToStringValue(n: nat)
    ensures ReadDigits(NatToString(n), 0) == n
  {
    if n < 10 {
      assert [DigitChar(n)][1..] == [];
    } else {
      NatToStringValue(n / 10);
      ReadDigitsSnoc(NatToString(n / 10), DigitChar(n % 10), 0);
    }
  }

  /** `std::to_string` of an `int`: a minus sign for negative values, then the digits. */
  function IntToString(x: int): (s: string)
    ensures |s| >= 1
    ensures s[0] == '-' <==> x < 0
  {
    if x < 0 then "-" + NatToString(-x) else NatToString(x)
  }

  /** The text `to_string` writes denotes the number: the digits give its
      magnitude, and a minus sign comes first exactly when it is negative. */
  lemma IntToStringValue(x: int)
    ensures x >= 0 ==> AllDigits(IntToString(x)) && ReadDigits(IntToString(x), 0) == x
    ensures x < 0 ==> IntToString(x)[0] == '-' && AllDigits(IntToString(x)[1..]) && ReadDigits(IntToString(x)[1..], 0) == -x
  {
    NatToStringValue(if x < 0 then -x else x);
    if x < 0 {
      assert IntToString(x)[1..] == NatToString(-x);
    }
  }

  /** The white space `strtol` skips before a number. */
  predicate IsSpace(c: char) {
    c == ' ' || 9 <= c as int <= 13
  }

  /** How many characters at the front of `s` satisfy `IsSpace`. */
  function SpaceRun(s: string): (k: nat)
    ensures k <= |s|
    ensures k < |s| ==> !IsSpace(s[k])
  {
    if s == [] || !IsSpace(s[0]) then 0 else 1 + SpaceRun(s[1..])
  }

  /** `std::stoi(s)`: optional white space, an optional sign, then the longest
      run of digits; the rest of the text is ignored. `None` stands for the two
      exceptions it throws: no digits at all (`invalid_argument`), or a value
      outside the range of `int` (`out_of_range`). */
  function Stoi(s: string): (r: Option<int>)
    ensures r.Some? ==> IsInt32(r.value)
  {
    var i := SpaceRun(s);
    var negative := i < |s| && s[i] == '-';
    var j := if i < |s| && (s[i] == '-' || s[i] == '+') then i + 1 else i;
    if j == |s| || !IsDigit(s[j]) then None
    else
      var v: int := ReadDigits(s[j..], 0);
      var x := if negative then -v else v;
      if IsInt32(x) then Some(x) else None
  }

  /** `stoi` reads back every value `to_string` writes. */
  lemma StoiIntToString(x: int)
    requires IsInt32(x)
    ensures Stoi(IntToString(x)) == Some(x)
  {
    var s := IntToString(x);
    IntToStringValue(x);
    assert SpaceRun(s) == 0;
  }
}
