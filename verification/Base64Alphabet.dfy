/**
  The Base64 alphabet as it is printed (table 1 of RFC 4648), and the text of an encoding read off from it:
  three bytes are one number, and its four digits in base 64 are letters of the alphabet.
 */
module Base64Alphabet {
  import opened Base64Spec
  import opened CString

  const ALPHABET := UPPER + LOWER + FIGURES + "+/"

  lemma LetterAt(i: nat)
    requires i < 64
    ensures |ALPHABET| == 64
    ensures ALPHABET[i] as int == if i < 26 then 65 + i else if i < 52 then 71 + i else if i < 62 then i - 4
                                  else if i == 62 then 43 else 47
  {
    if i < 26 { LetterCode(i); } else if i < 52 { LetterCode(i - 26); } else if i < 62 { FigureCode(i - 52); }
  }

  function Letter(c: Byte): char { c as char }

  /** The encoding table is the alphabet. */
  lemma EncodingTable(v: Byte)
    requires v < 64
    ensures v as int < |ALPHABET| && Letter(EncChar(v)) == ALPHABET[v as int]
  {
    LetterAt(v as int);
  }

  /** The decoding table gives the places in the alphabet, 64 for the padding character and 127 for all others. */
  lemma DecodingTable(c: Byte)
    ensures DecChar(c) < 64 <==> Letter(c) in ALPHABET
    ensures forall i :: 0 <= i < |ALPHABET| && ALPHABET[i] == Letter(c) ==> DecChar(c) as int == i
    ensures Letter(c) !in ALPHABET ==> DecChar(c) == if Letter(c) == '=' then 64 else 127
  {
    if DecChar(c) < 64 {
      Rebuilt(c);
      EncodingTable(DecChar(c));
    }
    LetterAt(0);
    forall i | 0 <= i < |ALPHABET| && ALPHABET[i] == Letter(c) ensures DecChar(c) as int == i {
      LetterAt(i);
    }
  }

  lemma Rebuilt(c: Byte)
    requires DecChar(c) < 64
    ensures EncChar(DecChar(c)) == c
  {
  }

  // ----- the text of an encoding

  function Number(a: Byte, b: Byte, c: Byte): (n: nat)
    ensures n < 0x100_0000
  {
    (a as int) * 0x1_0000 + (b as int) * 0x100 + (c as int)
  }

  function DigitOf(n: nat, weight: nat): char
    requires weight > 0
  {
    LetterAt(n / weight % 64);
    ALPHABET[n / weight % 64]
  }

  /** What an encoder writes: the digits of each three bytes, and padding for the bytes that are missing at
      the end. */
  function Reference(s: seq<Byte>): (t: string)
  {
    if s == [] then ""
    else if |s| == 1 then
      var n := Number(s[0], 0, 0); [DigitOf(n, 0x4_0000), DigitOf(n, 0x1000), '=', '=']
    else if |s| == 2 then
      var n := Number(s[0], s[1], 0); [DigitOf(n, 0x4_0000), DigitOf(n, 0x1000), DigitOf(n, 64), '=']
    else
      var n := Number(s[0], s[1], s[2]);
      [DigitOf(n, 0x4_0000), DigitOf(n, 0x1000), DigitOf(n, 64), DigitOf(n, 1)] + Reference(s[3..])
  }

  function Text(s: seq<Byte>): (t: string) { seq(|s|, i requires 0 <= i < |s| => Letter(s[i])) }

  lemma FirstSextet(a: Byte)
    ensures Sextet1(a) as int == a as int / 4
  {
  }

  lemma SecondSextet(a: Byte, b: Byte)
    ensures Sextet2(a, b) as int == a as int % 4 * 16 + b as int / 16
  {
    HighPart(a);
    LowPart(b);
    assert (((a & 3) << 4) + (b >> 4)) & 0x3F == ((a & 3) << 4) + (b >> 4);
    Added((a & 3) << 4, b >> 4);
  }

  lemma HighPart(a: Byte)
    ensures ((a & 3) << 4) as int == a as int % 4 * 16 && ((a & 15) << 2) as int == a as int % 16 * 4
    ensures (a & 3) << 4 <= 48 && (a & 15) << 2 <= 60
  {
  }

  lemma LowPart(b: Byte)
    ensures (b >> 4) as int == b as int / 16 && (b >> 6) as int == b as int / 64
    ensures b >> 4 <= 15 && b >> 6 <= 3
  {
  }

  lemma Added(x: Byte, y: Byte)
    requires x <= 60 && y <= 15
    ensures (x + y) as int == x as int + y as int
  {
  }

  lemma ThirdSextet(b: Byte, c: Byte)
    ensures Sextet3(b, c) as int == b as int % 16 * 4 + c as int / 64
  {
    HighPart(b);
    LowPart(c);
    assert (((b & 15) << 2) + (c >> 6)) & 0x3F == ((b & 15) << 2) + (c >> 6);
    Added((b & 15) << 2, c >> 6);
  }

  lemma FourthSextet(c: Byte)
    ensures Sextet4(c) as int == c as int % 64
  {
  }

  lemma FirstDigits(a: nat, b: nat, c: nat)
    requires a < 256 && b < 256 && c < 256
    ensures var n := a * 0x1_0000 + b * 0x100 + c;
      n / 0x4_0000 % 64 == a / 4 && n / 0x1000 % 64 == a % 4 * 16 + b / 16
  {
    var n, q, r := a * 0x1_0000 + b * 0x100 + c, a / 4, a % 4;
    assert n == q * 0x4_0000 + (r * 0x1_0000 + b * 0x100 + c);
    assert n / 0x4_0000 == q;
    var t, u := b / 16, b % 16;
    assert n == (q * 64 + (r * 16 + t)) * 0x1000 + (u * 0x100 + c);
    assert n / 0x1000 == q * 64 + (r * 16 + t);
  }

  lemma LastDigits(a: nat, b: nat, c: nat)
    requires a < 256 && b < 256 && c < 256
    ensures var n := a * 0x1_0000 + b * 0x100 + c;
      n / 64 % 64 == b % 16 * 4 + c / 64 && n / 1 % 64 == c % 64
  {
    var n, t, u, v, w := a * 0x1_0000 + b * 0x100 + c, b / 16, b % 16, c / 64, c % 64;
    assert n == (a * 1024 + t * 64 + (u * 4 + v)) * 64 + w;
    assert n / 64 == a * 1024 + t * 64 + (u * 4 + v);
  }

  lemma FirstPlace(a: Byte, b: Byte, c: Byte)
    ensures Sextet1(a) as int == Number(a, b, c) / 0x4_0000 % 64
  {
    hide Sextet1;
    FirstSextet(a);
    FirstDigits(a as int, b as int, c as int);
  }

  lemma SecondPlace(a: Byte, b: Byte, c: Byte)
    ensures Sextet2(a, b) as int == Number(a, b, c) / 0x1000 % 64
  {
    hide Sextet2;
    SecondSextet(a, b);
    FirstDigits(a as int, b as int, c as int);
  }

  lemma ThirdPlace(a: Byte, b: Byte, c: Byte)
    ensures Sextet3(b, c) as int == Number(a, b, c) / 64 % 64
  {
    hide Sextet3;
    ThirdSextet(b, c);
    LastDigits(a as int, b as int, c as int);
  }

  lemma FourthPlace(a: Byte, b: Byte, c: Byte)
    ensures Sextet4(c) as int == Number(a, b, c) / 1 % 64
  {
    hide Sextet4;
    FourthSextet(c);
    LastDigits(a as int, b as int, c as int);
  }

  lemma GroupText(a: Byte, b: Byte, c: Byte)
    ensures var n := Number(a, b, c);
      && Letter(EncChar(Sextet1(a))) == DigitOf(n, 0x4_0000) && Letter(EncChar(Sextet2(a, b))) == DigitOf(n, 0x1000)
      && Letter(EncChar(Sextet3(b, c))) == DigitOf(n, 64) && Letter(EncChar(Sextet4(c))) == DigitOf(n, 1)
  {
    hide EncChar, Sextet1, Sextet2, Sextet3, Sextet4, Letter, DigitOf, Number;
    FirstPlace(a, b, c);
    SecondPlace(a, b, c);
    ThirdPlace(a, b, c);
    FourthPlace(a, b, c);
    var n := Number(a, b, c);
    SextetText(Sextet1(a), n, 0x4_0000);
    SextetText(Sextet2(a, b), n, 0x1000);
    SextetText(Sextet3(b, c), n, 64);
    SextetText(Sextet4(c), n, 1);
  }

  lemma SextetText(v: Byte, n: nat, weight: nat)
    requires weight > 0 && v as int == n / weight % 64
    ensures Letter(EncChar(v)) == DigitOf(n, weight)
  {
    EncodingTable(v);
  }

  lemma TextConcat(a: seq<Byte>, b: seq<Byte>)
    ensures Text(a + b) == Text(a) + Text(b)
  {
    hide Letter;
  }

  lemma FourLetters(a: Byte, b: Byte, c: Byte, d: Byte)
    ensures Text([a, b, c, d]) == [Letter(a), Letter(b), Letter(c), Letter(d)]
  {
    hide Letter;
  }

  lemma TailText(s: seq<Byte>)
    requires 0 < |s| < 3
    ensures Text(EncodeTail(s)) == Reference(s)
  {
    hide EncChar, Sextet1, Sextet2, Sextet3, Sextet4, DigitOf, Number, Text;
    var t := EncodeTail(s);
    FourLetters(t[0], t[1], t[2], t[3]);
    assert t == [t[0], t[1], t[2], t[3]];
    GroupText(s[0], if |s| == 1 then 0 else s[1], 0);
  }

  /** The encoding is the reference text. */
  lemma {:induction false} EncodeIs(s: seq<Byte>)
    ensures Text(Encode(s)) == Reference(s)
  {
    hide EncChar, Sextet1, Sextet2, Sextet3, Sextet4, DigitOf, Number, Letter, Text, EncodeTail;
    if s == [] {
      NoText();
    } else if |s| < 3 {
      TailText(s);
    } else {
      GroupText(s[0], s[1], s[2]);
      EncodeIs(s[3..]);
      var g := EncodeGroup(s[0], s[1], s[2]);
      FourLetters(g[0], g[1], g[2], g[3]);
      TextConcat(g, Encode(s[3..]));
    }
  }

  lemma NoText()
    ensures Text([]) == ""
  {
  }
}
