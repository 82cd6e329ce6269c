/**
  How words and numbers are written, told by the characters themselves: letters in either case, and numerals
  in decimal and hexadecimal figures.
 */
module Notation {
  import opened CString

  const HEX_LOWER := "0123456789abcdef"
  const HEX_UPPER := "0123456789ABCDEF"

  // ----- letters

  /** Lower case is the table of the alphabet, and leaves every other character alone. */
  lemma LowerTable(c: char)
    ensures |UPPER| == |LOWER| == 26 && forall i :: 0 <= i < 26 ==> LowerChar(UPPER[i]) == LOWER[i]
    ensures c !in UPPER ==> LowerChar(c) == c
  {
    UpperRange(c);
    LetterCode(0);
    forall i | 0 <= i < 26 ensures LowerChar(UPPER[i]) == LOWER[i] {
      LetterCode(i);
    }
  }

  /** `s` is a word in any mixture of upper and lower case. */
  predicate InAnyCase(s: string, upper: string, lower: string)
  {
    |s| == |upper| == |lower| && forall i :: 0 <= i < |s| ==> s[i] == upper[i] || s[i] == lower[i]
  }

  predicate NoLower(s: string) { forall i :: 0 <= i < |s| ==> !('a' <= s[i] <= 'z') }

  lemma AnyCaseFolds(s: string, upper: string, lower: string)
    requires NoLower(upper) && Lower(upper) == lower
    ensures InAnyCase(s, upper, lower) <==> Lower(s) == lower
  {
    if Lower(s) == lower {
      forall i | 0 <= i < |s| ensures s[i] == upper[i] || s[i] == lower[i] {
        assert Lower(s)[i] == Lower(upper)[i];
      }
    }
    if InAnyCase(s, upper, lower) {
      forall i | 0 <= i < |s| ensures Lower(s)[i] == lower[i] {
        assert Lower(upper)[i] == lower[i];
      }
      assert Lower(s) == lower;
    }
  }

  // ----- figures

  /** The figures of both cases have their places as values, and no other character is a figure. */
  lemma FigureTable(c: char)
    ensures |HEX_LOWER| == |HEX_UPPER| == 16
    ensures forall i :: 0 <= i < 16 ==> DigitValue(HEX_LOWER[i]) == DigitValue(HEX_UPPER[i]) == i
    ensures c !in HEX_LOWER && c !in HEX_UPPER ==> DigitValue(c) == 16
  {
    if DigitValue(c) < 16 {
      var v := DigitValue(c);
      FigureAt(v);
      assert HEX_LOWER[v] == c || HEX_UPPER[v] == c;
    }
    forall i | 0 <= i < 16 ensures DigitValue(HEX_LOWER[i]) == DigitValue(HEX_UPPER[i]) == i {
      FigureAt(i);
    }
  }

  lemma FigureAt(i: nat)
    requires i < 16
    ensures |HEX_LOWER| == |HEX_UPPER| == 16
    ensures HEX_LOWER[i] as int == if i < 10 then 48 + i else 87 + i
    ensures HEX_UPPER[i] as int == if i < 10 then 48 + i else 55 + i
  {
  }

  lemma DecimalFigures(i: nat)
    requires i < 10
    ensures |FIGURES| == 10 && FIGURES[i] == HEX_LOWER[i] && DigitValue(FIGURES[i]) == i
  {
    FigureCode(i);
    FigureAt(i);
  }

  /** The numeral of a number in the given figures. */
  function Digits(n: nat, figures: string): (s: string)
    requires |figures| >= 2
    ensures s != ""
  {
    if n < |figures| then [figures[n]] else Digits(n / |figures|, figures) + [figures[n % |figures|]]
  }

  /** Figures that stand for the numbers below their count. */
  ghost predicate Figures(figures: string)
  {
    2 <= |figures| <= 16 && forall i :: 0 <= i < |figures| ==> DigitValue(figures[i]) == i
  }

  lemma AllFigures()
    ensures Figures(FIGURES) && Figures(HEX_LOWER) && Figures(HEX_UPPER)
    ensures |FIGURES| == 10 && |HEX_LOWER| == |HEX_UPPER| == 16
  {
    FigureTable('0');
    FigureCode(0);
    forall i | 0 <= i < 10 ensures DigitValue(FIGURES[i]) == i { DecimalFigures(i); }
  }

  lemma NumeralSnoc(s: string, c: char, base: nat)
    ensures Numeral(s + [c], base, 0) == Numeral(s, base, 0) * base + DigitValue(c)
  {
    NumeralConcat(s, [c], base, 0);
    assert [c][1..] == "";
  }

  /** A numeral is read as the number it was printed for. */
  lemma {:induction false} DigitsRead(n: nat, figures: string)
    requires Figures(figures)
    ensures var s := Digits(n, figures); AllDigits(s, |figures|) && Numeral(s, |figures|, 0) == n
    decreases n
  {
    hide Numeral, DigitValue;
    var b := |figures|;
    if n < b {
      NumeralSnoc("", figures[n], b);
      NoNumeral(b);
      assert "" + [figures[n]] == [figures[n]];
    } else {
      DigitsRead(n / b, figures);
      NumeralSnoc(Digits(n / b, figures), figures[n % b], b);
    }
  }

  lemma NoNumeral(base: nat)
    ensures Numeral("", base, 0) == 0
  {
  }

  function Power(b: nat, k: nat): nat { if k == 0 then 1 else b * Power(b, k - 1) }

  /** A number below a power has no more figures than that. */
  lemma {:induction false} DigitsCount(n: nat, figures: string, k: nat)
    requires |figures| >= 2 && k > 0 && n < Power(|figures|, k)
    ensures |Digits(n, figures)| <= k
    decreases k
  {
    var b := |figures|;
    if k > 1 && n >= b {
      Quotient(n, b, Power(b, k - 1));
      DigitsCount(n / b, figures, k - 1);
    }
  }

  lemma Quotient(n: nat, b: nat, p: nat)
    requires b > 0 && n < b * p
    ensures n / b < p
  {
    assert b * (n / b) <= n;
  }

  lemma {:induction false} SameNumeral(s: string, t: string, base: nat, acc: nat)
    requires |s| == |t| && forall i :: 0 <= i < |s| ==> DigitValue(s[i]) == DigitValue(t[i])
    ensures Numeral(s, base, acc) == Numeral(t, base, acc)
    decreases |s|
  {
    hide DigitValue;
    if s != "" { SameNumeral(s[1..], t[1..], base, acc * base + DigitValue(s[0])); }
  }

  /** Hexadecimal in any case. */
  predicate IsHex(s: string, n: nat)
  {
    FigureAt(0);
    InAnyCase(s, Digits(n, HEX_UPPER), Digits(n, HEX_LOWER))
  }

  lemma HexRead(s: string, n: nat)
    requires IsHex(s, n)
    ensures s != "" && AllDigits(s, 16) && Numeral(s, 16, 0) == n && |s| == |Digits(n, HEX_LOWER)|
  {
    hide DigitValue, Numeral, Digits;
    AllFigures();
    DigitsRead(n, HEX_LOWER);
    DigitsRead(n, HEX_UPPER);
    var t := Digits(n, HEX_LOWER);
    forall i | 0 <= i < |s| ensures DigitValue(s[i]) == DigitValue(t[i]) && IsDigit(s[i], 16) {
      SameDigits(n, i);
      assert t[i] in t;
    }
    SameNumeral(s, t, 16, 0);
  }

  /** The numerals in both cases have the same values figure by figure. */
  lemma {:induction false} SameDigits(n: nat, i: nat)
    requires |HEX_LOWER| == |HEX_UPPER| == 16
    requires i < |Digits(n, HEX_LOWER)|
    ensures |Digits(n, HEX_UPPER)| == |Digits(n, HEX_LOWER)|
    ensures DigitValue(Digits(n, HEX_UPPER)[i]) == DigitValue(Digits(n, HEX_LOWER)[i])
    decreases n
  {
    hide DigitValue;
    FigureTable('0');
    if n >= 16 {
      SameDigits(n / 16, if i < |Digits(n / 16, HEX_LOWER)| then i else 0);
    }
  }

  // ----- what `strtol` and its relatives read

  const BLANKS := " \t\n\U{000B}\U{000C}\r"

  lemma BlankTable(c: char)
    ensures IsSpace(c) <==> c in BLANKS
  {
  }

  lemma {:induction false} SpacesCounted(spaces: string, more: string)
    requires (forall c <- spaces :: c in BLANKS) && (more == "" || more[0] !in BLANKS)
    ensures CountSpaces(spaces + more) == |spaces|
  {
    hide IsSpace;
    if spaces == "" {
      assert spaces + more == more;
      if more != "" { BlankTable(more[0]); }
    } else {
      assert spaces[0] in spaces && (spaces + more)[1..] == spaces[1..] + more;
      BlankTable(spaces[0]);
      SpacesCounted(spaces[1..], more);
    }
  }

  predicate IsSign(s: string) { s == "" || s == "+" || s == "-" }

  predicate IsPrefix(s: string, base: nat) { s == "" || (base == 16 && (s == "0x" || s == "0X")) }

  /** Whether `0x` and a figure are at the front. */
  predicate ShowsPrefix(t: string, base: nat)
  {
    base == 16 && 2 < |t| && t[0] == '0' && (t[1] == 'x' || t[1] == 'X') && IsDigit(t[2], 16)
  }

  /** White space, a sign, `0x` in base 16 and figures, in this order, are read to the end of the figures. */
  lemma ReadAny(spaces: string, sign: string, prefix: string, digits: string, rest: string, base: nat)
    requires (forall c <- spaces :: c in BLANKS) && IsSign(sign) && IsPrefix(prefix, base) && base <= 16
    requires digits != "" && AllDigits(digits, base) && (rest == "" || !IsDigit(rest[0], base))
    requires prefix == "" && base == 16 && digits == "0" && rest != "" ==> rest[0] != 'x' && rest[0] != 'X'
    ensures ReadNumber(spaces + (sign + (prefix + (digits + rest))), base)
         == Number(sign == "-", Numeral(digits, base, 0), |spaces| + |sign| + |prefix| + |digits|)
  {
    hide Numeral, CountDigits, CountSpaces, IsDigit, ReadNumber, IsSign, IsPrefix, ShowsPrefix;
    var tail := digits + rest;
    var s := spaces + (sign + (prefix + tail));
    assert digits[0] in digits;
    FirstFigure(digits[0], base);
    Signed(sign, prefix, digits, rest, base);
    SpacesCounted(spaces, sign + (prefix + tail));
    NotPrefix(prefix, digits, rest, base);
    Laid(spaces, sign, prefix, tail);
    CountDigitsPrefix(digits, rest, base);
    assert tail[..|digits|] == digits;
    ReadLaid(s, base, |spaces|, sign + (prefix + tail), |sign|, prefix + tail, |prefix|, tail, |digits|);
  }

  lemma ReadLaid(s: string, base: nat, i: nat, signed: string, a: nat, t: string, b: nat, tail: string, d: nat)
    requires base <= 16 && CountSpaces(s) == i && i + a + b <= |s| && signed != ""
    requires s[i..] == signed && s[i + a..] == t && s[i + a + b..] == tail
    requires a == if signed[0] == '-' || signed[0] == '+' then 1 else 0
    requires b == if ShowsPrefix(t, base) then 2 else 0
    requires CountDigits(tail, base) == d > 0
    ensures ReadNumber(s, base) == Number(signed[0] == '-', Numeral(tail[..d], base, 0), i + a + b + d)
  {
    hide Numeral, CountDigits, CountSpaces, DigitValue, ReadNumber, IsDigit;
    Shown(s, i, signed);
    Shown(s, i + a, t);
    assert s[i + a + b..i + a + b + d] == tail[..d];
    ReadParts(s, base, i, i + a, i + a + b, d);
  }

  /** The character after the white space. */
  lemma Signed(sign: string, prefix: string, digits: string, rest: string, base: nat)
    requires IsSign(sign) && IsPrefix(prefix, base) && digits != "" && digits[0] !in BLANKS
    requires digits[0] != '-' && digits[0] != '+'
    ensures var t := sign + (prefix + (digits + rest));
      && t != "" && t[0] !in BLANKS && (t[0] == '-' <==> sign == "-")
      && |sign| == if t[0] == '-' || t[0] == '+' then 1 else 0
  {
    var t := sign + (prefix + (digits + rest));
    assert t[0] == if sign != "" then sign[0] else if prefix != "" then prefix[0] else digits[0];
  }

  lemma Laid(a: string, b: string, c: string, d: string)
    ensures var s := a + (b + (c + d));
      s[|a|..] == b + (c + d) && s[|a| + |b|..] == c + d && s[|a| + |b| + |c|..] == d
  {
  }

  lemma Shown(s: string, j: nat, t: string)
    requires j <= |s| && s[j..] == t
    ensures |t| == |s| - j && (t != "" ==> s[j] == t[0]) && (|t| > 2 ==> s[j + 1] == t[1] && s[j + 2] == t[2])
  {
  }

  lemma ReadParts(s: string, base: nat, i: nat, j: nat, k: nat, d: nat)
    requires base <= 16 && i < |s| && CountSpaces(s) == i && j <= k <= |s|
    requires j == if s[i] == '-' || s[i] == '+' then i + 1 else i
    requires k == if base == 16 && j + 2 < |s| && s[j] == '0' && (s[j + 1] == 'x' || s[j + 1] == 'X')
                     && IsDigit(s[j + 2], 16) then j + 2 else j
    requires CountDigits(s[k..], base) == d > 0
    ensures ReadNumber(s, base) == Number(s[i] == '-', Numeral(s[k..k + d], base, 0), k + d)
  {
    hide Numeral, CountDigits, CountSpaces, IsDigit;
  }

  lemma FirstFigure(c: char, base: nat)
    requires base <= 16 && IsDigit(c, base)
    ensures c !in BLANKS && c != '-' && c != '+' && c != 'x' && c != 'X'
  {
  }

  /** After the sign `0x` and a figure are there if and only if the prefix is. */
  lemma NotPrefix(prefix: string, digits: string, rest: string, base: nat)
    requires IsPrefix(prefix, base)
    requires base <= 16 && digits != "" && AllDigits(digits, base) && (rest == "" || !IsDigit(rest[0], base))
    requires prefix == "" && base == 16 && digits == "0" && rest != "" ==> rest[0] != 'x' && rest[0] != 'X'
    ensures |prefix| == if ShowsPrefix(prefix + (digits + rest), base) then 2 else 0
  {
    hide DigitValue;
    var t := prefix + (digits + rest);
    assert digits[0] in digits;
    FirstFigure(digits[0], base);
    if prefix == "" {
      assert t == digits + rest;
      if |digits| > 1 {
        assert digits[1] in digits && t[1] == digits[1];
        FirstFigure(digits[1], base);
      } else if base == 16 && |t| > 1 {
        assert t[0] == digits[0] && t[1] == rest[0];
        if t[0] == '0' { assert digits == "0"; }
      }
    } else {
      assert t[2] == digits[0];
    }
  }
}
