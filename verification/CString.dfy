/**
  The C library calls the decoders rest on, on byte strings: `strstr` and `strchr`, which
  stop at the first NUL, and the `strtol` family.
 */
module CString {

  const NUL := '\0'
  const CRLF := "\r\n"
  const SIZE_MAX: nat := 0xFFFF_FFFF_FFFF_FFFF
  const ULLONG_MAX: nat := 0xFFFF_FFFF_FFFF_FFFF
  const LONG_MAX: nat := 0x7FFF_FFFF_FFFF_FFFF

  lemma Shifted(s: string, r: nat, n: nat)
    requires 1 + r + n <= |s|
    ensures s[r + 1..r + 1 + n] == s[1..][r..r + n] && s[..r + 1] == [s[0]] + s[1..][..r]
  {
    var t := s[1..];
    assert t[r..r + n] == s[r + 1..r + 1 + n];
    assert [s[0]] + t[..r] == s[..r + 1];
  }

  /** Index of the first occurrence of `needle`, or -1. */
  function StrStr(s: string, needle: string): (r: int)
    requires needle != ""
    ensures r == -1 || (0 <= r && r + |needle| <= |s| && s[r..r + |needle|] == needle && NUL !in s[..r])
  {
    if needle <= s then 0
    else if s == "" || s[0] == NUL then -1
    else
      var r := StrStr(s[1..], needle);
      if r < 0 then -1 else
        Shifted(s, r, |needle|);
        r + 1
  }

  function StrChr(s: string, c: char): (r: int) { StrStr(s, [c]) }

  /** The occurrence at `i` is the first one. */
  lemma {:induction false} FoundAt(s: string, needle: string, i: nat)
    requires needle != "" && i <= |s| && needle <= s[i..] && NUL !in s[..i]
    requires forall k: nat {:trigger s[k..]} :: k < i ==> !(needle <= s[k..])
    ensures StrStr(s, needle) == i
  {
    assert s[0..] == s;
    if i > 0 {
      assert s[..i][0] == s[0];
      assert s[1..][i - 1..] == s[i..] && forall c <- s[1..][..i - 1] :: c in s[..i];
      forall k: nat {:trigger s[1..][k..]} | k < i - 1 ensures !(needle <= s[1..][k..]) {
        assert s[1..][k..] == s[k + 1..];
      }
      FoundAt(s[1..], needle, i - 1);
    }
  }

  /** An occurrence at `i` is found there or before. */
  lemma {:induction false} FoundBefore(s: string, needle: string, i: nat)
    requires needle != "" && i <= |s| && needle <= s[i..] && NUL !in s[..i]
    ensures 0 <= StrStr(s, needle) <= i
  {
    if i == 0 {
      assert s[0..] == s;
    } else {
      assert s[..i][0] == s[0];
      assert s[1..][i - 1..] == s[i..] && forall c <- s[1..][..i - 1] :: c in s[..i];
      FoundBefore(s[1..], needle, i - 1);
    }
  }

  /** There is no occurrence anywhere. */
  lemma {:induction false} NotFound(s: string, needle: string)
    requires needle != ""
    requires forall k: nat {:trigger s[k..]} :: k <= |s| ==> !(needle <= s[k..])
    ensures StrStr(s, needle) == -1
  {
    assert s[0..] == s;
    if s != "" {
      forall k: nat {:trigger s[1..][k..]} | k <= |s| - 1 ensures !(needle <= s[1..][k..]) {
        assert s[1..][k..] == s[k + 1..];
      }
      NotFound(s[1..], needle);
    }
  }

  /** A needle is found right after a prefix that lacks its first character. */
  lemma FoundAfter(a: string, needle: string, b: string)
    requires needle != "" && needle[0] !in a && NUL !in a
    ensures StrStr(a + needle + b, needle) == |a|
  {
    var s := a + needle + b;
    assert s[|a|..] == needle + b && s[..|a|] == a;
    forall k: nat {:trigger s[k..]} | k < |a| ensures !(needle <= s[k..]) {
      assert s[k..][0] == a[k] && a[k] in a;
    }
    FoundAt(s, needle, |a|);
  }

  /** A proper prefix of `a + needle` does not contain the needle. */
  lemma CutBefore(a: string, needle: string, s: string)
    requires needle != "" && needle[0] !in a
    requires s <= a + needle && |s| < |a| + |needle|
    ensures StrStr(s, needle) == -1
  {
    forall k: nat {:trigger s[k..]} | k <= |s| ensures !(needle <= s[k..]) {
      if k < |a| && k < |s| {
        assert s[k..][0] == a[k] && a[k] in a;
      }
    }
    NotFound(s, needle);
  }

  /** Characters that cannot begin the needle are stepped over. */
  lemma {:induction false} SkipTo(a: string, s: string, needle: string)
    requires needle != "" && needle[0] !in a && NUL !in a
    ensures StrStr(a + s, needle) == var r := StrStr(s, needle); if r < 0 then -1 else |a| + r
  {
    if a == "" {
      assert a + s == s;
    } else {
      assert a[0] in a && (a + s)[0] == a[0] && (a + s)[1..] == a[1..] + s;
      SkipTo(a[1..], s, needle);
    }
  }

  /** The characters before the terminating NUL. */
  function CStr(s: string): (r: string)
    ensures r <= s && NUL !in r
  {
    if s == "" || s[0] == NUL then "" else [s[0]] + CStr(s[1..])
  }

  // ----- letters and figures

  const UPPER := "ABCDEFGHIJKLMNOPQRSTUVWXYZ"
  const LOWER := "abcdefghijklmnopqrstuvwxyz"
  const FIGURES := "0123456789"

  lemma LetterCode(i: nat)
    requires i < 26
    ensures |UPPER| == |LOWER| == 26 && UPPER[i] as int == 65 + i && LOWER[i] as int == 97 + i
  {
  }

  lemma FigureCode(i: nat)
    requires i < 10
    ensures |FIGURES| == 10 && FIGURES[i] as int == 48 + i
  {
  }

  lemma UpperRange(c: char)
    ensures c in UPPER <==> 'A' <= c <= 'Z'
  {
    if c in UPPER { var i: nat :| i < |UPPER| && UPPER[i] == c; LetterCode(i); }
    if 'A' <= c <= 'Z' { LetterCode((c - 'A') as int); assert UPPER[(c - 'A') as int] == c; }
  }

  function LowerChar(c: char): char
  {
    if 'A' <= c <= 'Z' then 'a' + (c - 'A') else c
  }

  function Lower(s: string): (r: string)
    ensures |r| == |s| && forall i :: 0 <= i < |s| ==> r[i] == LowerChar(s[i])
  {
    seq(|s|, i requires 0 <= i < |s| => LowerChar(s[i]))
  }

  // ----- numbers

  predicate IsSpace(c: char) { c == ' ' || '\t' <= c <= '\r' }

  /** The value of a digit in bases up to 16, or 16 for any other character. */
  function DigitValue(c: char): (v: nat)
    ensures v <= 16
  {
    if '0' <= c <= '9' then (c - '0') as int
    else if 'a' <= c <= 'f' then (c - 'a') as int + 10
    else if 'A' <= c <= 'F' then (c - 'A') as int + 10
    else 16
  }

  predicate IsDigit(c: char, base: nat) { DigitValue(c) < base }

  predicate AllDigits(s: string, base: nat) { forall c <- s :: IsDigit(c, base) }

  /** Reads `s`, all digits, after the digits of `acc`. */
  function Numeral(s: string, base: nat, acc: nat): nat
  {
    if s == "" then acc else Numeral(s[1..], base, acc * base + DigitValue(s[0]))
  }

  lemma {:induction false} NumeralConcat(a: string, b: string, base: nat, acc: nat)
    ensures Numeral(a + b, base, acc) == Numeral(b, base, Numeral(a, base, acc))
    decreases |a|
  {
    if a == "" {
      assert a + b == b;
    } else {
      assert (a + b)[1..] == a[1..] + b && (a + b)[0] == a[0];
      NumeralConcat(a[1..], b, base, acc * base + DigitValue(a[0]));
    }
  }

  function CountDigits(s: string, base: nat): (n: nat)
    ensures n <= |s|
  {
    if s != "" && IsDigit(s[0], base) then 1 + CountDigits(s[1..], base) else 0
  }

  function CountSpaces(s: string): (n: nat)
    ensures n <= |s|
  {
    if s != "" && IsSpace(s[0]) then 1 + CountSpaces(s[1..]) else 0
  }

  datatype Number = Number(negative: bool, magnitude: nat, end: nat)

  /** What the `strtol` family reads: white space, a sign, `0x` in base 16, and digits. Without
      digits the value is zero and the end is the beginning. */
  function ReadNumber(s: string, base: nat): (n: Number)
    requires base <= 16
    ensures n.end <= |s|
  {
    var i := CountSpaces(s);
    var negative := i < |s| && s[i] == '-';
    var j := if i < |s| && (s[i] == '-' || s[i] == '+') then i + 1 else i;
    var k := if base == 16 && j + 2 < |s| && s[j] == '0' && (s[j + 1] == 'x' || s[j + 1] == 'X')
                && IsDigit(s[j + 2], 16) then j + 2 else j;
    var d := CountDigits(s[k..], base);
    if d == 0 then Number(false, 0, 0) else Number(negative, Numeral(s[k..k + d], base, 0), k + d)
  }

  lemma {:induction false} CountDigitsPrefix(digits: string, rest: string, base: nat)
    requires AllDigits(digits, base) && (rest == "" || !IsDigit(rest[0], base))
    ensures CountDigits(digits + rest, base) == |digits|
  {
    if digits == "" {
      assert digits + rest == rest;
    } else {
      assert digits[0] in digits && (digits + rest)[1..] == digits[1..] + rest;
      CountDigitsPrefix(digits[1..], rest, base);
    }
  }

  /** A plain numeral is read to its end, and not further. */
  lemma ReadNumeral(digits: string, rest: string, base: nat)
    requires base <= 16 && digits != "" && AllDigits(digits, base)
    requires rest == "" || (!IsDigit(rest[0], base) && (base == 16 ==> rest[0] != 'x' && rest[0] != 'X'))
    ensures ReadNumber(digits + rest, base) == Number(false, Numeral(digits, base, 0), |digits|)
  {
    var s := digits + rest;
    assert s[0] == digits[0] && digits[0] in digits;
    assert !IsSpace(s[0]) && s[0] != '-' && s[0] != '+';
    if |digits| >= 2 { assert digits[1] in digits && s[1] == digits[1]; }
    assert s[0..] == s && s[..|digits|] == digits;
    CountDigitsPrefix(digits, rest, base);
  }
}
