/**
  Base64 (section 4 of RFC 4648, with the line breaks of section 5.2 of RFC 1521): the encoding,
  what the first pass of the decoder accepts and counts, and what its second pass writes.
 */
module Base64Spec {

  type Byte = bv8

  const LF: Byte := 10
  const CR: Byte := 13
  const SP: Byte := 32
  const PAD: Byte := 61

  /** The encoding table, for six-bit values. */
  function EncChar(v: Byte): Byte
  {
    if v < 26 then 65 + v else if v < 52 then 71 + v else if v < 62 then v - 4 else if v == 62 then 43 else 47
  }

  /** The decoding table: 64 for the padding character and 127 for characters outside the alphabet. */
  function DecChar(c: Byte): Byte
  {
    if 65 <= c <= 90 then c - 65
    else if 97 <= c <= 122 then c - 71
    else if 48 <= c <= 57 then c + 4
    else if c == 43 then 62
    else if c == 47 then 63
    else if c == PAD then 64
    else 127
  }

  predicate IsBlank(c: Byte) { c == CR || c == LF || c == SP }

  predicate IsData(c: Byte) { DecChar(c) < 64 }

  lemma TablesInverse(v: Byte)
    requires v < 64
    ensures DecChar(EncChar(v)) == v && !IsBlank(EncChar(v)) && EncChar(v) != PAD
  {
  }

  // ----- encoding

  function Sextet1(a: Byte): Byte { (a >> 2) & 0x3F }
  function Sextet2(a: Byte, b: Byte): Byte { (((a & 3) << 4) + (b >> 4)) & 0x3F }
  function Sextet3(b: Byte, c: Byte): Byte { (((b & 15) << 2) + (c >> 6)) & 0x3F }
  function Sextet4(c: Byte): Byte { c & 0x3F }

  function EncodeGroup(a: Byte, b: Byte, c: Byte): seq<Byte>
  {
    [EncChar(Sextet1(a)), EncChar(Sextet2(a, b)), EncChar(Sextet3(b, c)), EncChar(Sextet4(c))]
  }

  /** One or two bytes at the end, with padding. */
  function EncodeTail(s: seq<Byte>): seq<Byte>
    requires 0 < |s| < 3
  {
    if |s| == 1 then [EncChar(Sextet1(s[0])), EncChar(Sextet2(s[0], 0)), PAD, PAD]
    else [EncChar(Sextet1(s[0])), EncChar(Sextet2(s[0], s[1])), EncChar(Sextet3(s[1], 0)), PAD]
  }

  function Encode(s: seq<Byte>): (r: seq<Byte>)
    ensures |r| == 4 * ((|s| + 2) / 3)
  {
    if s == [] then []
    else if |s| < 3 then EncodeTail(s)
    else EncodeGroup(s[0], s[1], s[2]) + Encode(s[3..])
  }

  // ----- the first pass

  datatype Pass = Invalid | Valid(n: nat, pads: nat)

  /** `spaces` are the spaces just before `s`, counted in 32 bits; `n` and `j` count the characters
      and the padding characters so far. */
  function FirstPass(s: seq<Byte>, spaces: nat, n: nat, j: nat): (p: Pass)
    decreases |s|
  {
    if s == [] then Valid(n, j)
    else
      var c := s[0];
      if c == SP then FirstPass(s[1..], (spaces + 1) % 0x1_0000_0000, n, j)
      else if (c == CR && |s| >= 2 && s[1] == LF) || c == LF then FirstPass(s[1..], 0, n, j)
      else if spaces != 0 then Invalid
      else
        var j' := if c == PAD then j + 1 else j;
        if (c == PAD && j' > 2) || DecChar(c) == 127 || (DecChar(c) < 64 && j' != 0) then Invalid
        else FirstPass(s[1..], 0, n + 1, j')
  }

  /** The characters that are not line breaks or spaces. */
  function Significant(s: seq<Byte>): seq<Byte>
  {
    if s == [] then [] else (if IsBlank(s[0]) then [] else [s[0]]) + Significant(s[1..])
  }

  function Pads(s: seq<Byte>): (n: nat)
    ensures n <= |s|
  {
    if s == [] then 0 else (if s[0] == PAD then 1 else 0) + Pads(s[1..])
  }

  /** Data characters first, then padding, at most two including the `j` seen before. */
  predicate Padded(s: seq<Byte>, j: nat)
  {
    s == [] || (if s[0] == PAD then j < 2 && Padded(s[1..], j + 1) else IsData(s[0]) && j == 0 && Padded(s[1..], j))
  }

  /** What the first pass accepts, and what it counts. */
  lemma {:induction false} FirstPassCounts(s: seq<Byte>, spaces: nat, n: nat, j: nat)
    requires FirstPass(s, spaces, n, j).Valid? && j <= 2
    ensures FirstPass(s, spaces, n, j) == Valid(n + |Significant(s)|, j + Pads(Significant(s)))
    ensures Padded(Significant(s), j) && j + Pads(Significant(s)) <= 2
    decreases |s|
  {
    hide DecChar, Pads, Padded, Significant;
    SignificantFirst(s);
    if s == [] {
      assert Pads([]) == 0 && Padded([], j) by { NoPads(j); }
    } else {
      var c := s[0];
      if c == SP {
        FirstPassCounts(s[1..], (spaces + 1) % 0x1_0000_0000, n, j);
      } else if (c == CR && |s| >= 2 && s[1] == LF) || c == LF {
        FirstPassCounts(s[1..], 0, n, j);
      } else {
        CharKinds(c);
        FirstPassCounts(s[1..], 0, n + 1, if c == PAD then j + 1 else j);
        OneMorePadded(c, Significant(s[1..]), j);
      }
    }
  }

  lemma SignificantFirst(s: seq<Byte>)
    ensures Significant(s) == if s == [] then [] else if IsBlank(s[0]) then Significant(s[1..])
                              else [s[0]] + Significant(s[1..])
  {
    if s != [] { assert [] + Significant(s[1..]) == Significant(s[1..]); }
  }

  lemma CharKinds(c: Byte)
    ensures IsBlank(c) ==> DecChar(c) == 127
    ensures DecChar(c) != 127 && c != PAD ==> IsData(c) && DecChar(c) < 64
  {
  }

  lemma NoPads(j: nat)
    ensures Pads([]) == 0 && Padded([], j)
  {
  }

  lemma OneMorePadded(c: Byte, more: seq<Byte>, j: nat)
    requires var k := if c == PAD then j + 1 else j; Padded(more, k) && k <= 2
    requires c != PAD ==> IsData(c) && j == 0
    ensures Padded([c] + more, j) && Pads([c] + more) == (if c == PAD then 1 else 0) + Pads(more)
  {
    assert ([c] + more)[1..] == more;
  }

  /** Lines without spaces: every carriage return is followed by a line feed. */
  predicate LinesOnly(s: seq<Byte>)
  {
    s == [] || (s[0] != SP && (s[0] == CR ==> |s| >= 2 && s[1] == LF) && LinesOnly(s[1..]))
  }

  /** Text in lines is accepted exactly when its characters are well padded. */
  lemma {:induction false} AcceptedLines(s: seq<Byte>, n: nat, j: nat)
    requires LinesOnly(s) && j <= 2
    ensures FirstPass(s, 0, n, j).Valid? <==> Padded(Significant(s), j)
    decreases |s|
  {
    if s != [] {
      var c := s[0];
      var sig := Significant(s[1..]);
      if c == CR || c == LF {
        AcceptedLines(s[1..], n, j);
        assert [] + sig == sig;
      } else {
        assert !IsBlank(c);
        assert ([c] + sig)[1..] == sig;
        if c == PAD {
          if j < 2 { AcceptedLines(s[1..], n + 1, j + 1); }
        } else {
          if IsData(c) && j == 0 { AcceptedLines(s[1..], n + 1, 0); }
        }
      }
    }
  }

  function SpacesBefore(s: seq<Byte>, i: nat): nat
    requires i <= |s|
  {
    if i > 0 && s[i - 1] == SP then 1 + SpacesBefore(s, i - 1) else 0
  }

  /** A line ends at `i`, or a space is there. */
  predicate IsGap(s: seq<Byte>, i: nat)
    requires i < |s|
  {
    s[i] == SP || s[i] == LF || (s[i] == CR && i + 1 < |s| && s[i + 1] == LF)
  }

  /** From `k` on no carriage return is alone, and spaces stand only before a line end or at the end of the
      text, but for runs whose length the 32-bit counter takes for zero. */
  ghost predicate Tidy(s: seq<Byte>, k: nat)
  {
    forall i :: k <= i < |s| && !IsGap(s, i) ==> s[i] != CR && SpacesBefore(s, i) % 0x1_0000_0000 == 0
  }

  /** What the first pass accepts, spaces included: tidy lines whose characters are well padded, and nothing else. */
  lemma AcceptedExactly(s: seq<Byte>)
    ensures FirstPass(s, 0, 0, 0).Valid? <==> Tidy(s, 0) && Padded(Significant(s), 0)
  {
    assert s[0..] == s;
    AcceptedFrom(s, 0, 0, 0);
  }

  lemma {:induction false} AcceptedFrom(s: seq<Byte>, k: nat, n: nat, j: nat)
    requires k <= |s| && j <= 2
    ensures FirstPass(s[k..], SpacesBefore(s, k) % 0x1_0000_0000, n, j).Valid?
            <==> Tidy(s, k) && Padded(Significant(s[k..]), j)
    decreases |s| - k
  {
    hide DecChar, Padded, Significant, FirstPass, Tidy;
    SignificantFirst(s[k..]);
    NoPads(j);
    if k == |s| {
      PassEnd(s, n, j);
    } else {
      assert s[k..][1..] == s[k + 1..];
      TidyStep(s, k);
      if IsGap(s, k) {
        PassGap(s, k, n, j);
        AcceptedFrom(s, k + 1, n, j);
      } else {
        var c := s[k];
        CharKinds(c);
        Peeled(c, Significant(s[k + 1..]), j);
        PassChar(s, k, n, j);
        if Fine(s, k, j) { AcceptedFrom(s, k + 1, n + 1, if c == PAD then j + 1 else j); }
      }
    }
  }

  lemma PassEnd(s: seq<Byte>, n: nat, j: nat)
    ensures FirstPass(s[|s|..], SpacesBefore(s, |s|) % 0x1_0000_0000, n, j).Valid? && Tidy(s, |s|)
  {
  }

  lemma TidyStep(s: seq<Byte>, k: nat)
    requires k < |s|
    ensures Tidy(s, k) <==>
      (IsGap(s, k) || (s[k] != CR && SpacesBefore(s, k) % 0x1_0000_0000 == 0)) && Tidy(s, k + 1)
  {
    hide SpacesBefore, IsGap;
  }

  lemma PassGap(s: seq<Byte>, k: nat, n: nat, j: nat)
    requires k < |s| && IsGap(s, k)
    ensures FirstPass(s[k..], SpacesBefore(s, k) % 0x1_0000_0000, n, j)
         == FirstPass(s[k + 1..], SpacesBefore(s, k + 1) % 0x1_0000_0000, n, j)
  {
    assert s[k..][1..] == s[k + 1..];
  }

  /** A character that the first pass takes. */
  predicate Fine(s: seq<Byte>, k: nat, j: nat)
    requires k < |s|
  {
    SpacesBefore(s, k) % 0x1_0000_0000 == 0 && if s[k] == PAD then j < 2 else IsData(s[k]) && j == 0
  }

  lemma PassChar(s: seq<Byte>, k: nat, n: nat, j: nat)
    requires k < |s| && !IsGap(s, k) && j <= 2
    ensures FirstPass(s[k..], SpacesBefore(s, k) % 0x1_0000_0000, n, j)
         == if Fine(s, k, j) then FirstPass(s[k + 1..], SpacesBefore(s, k + 1) % 0x1_0000_0000, n + 1,
                                            if s[k] == PAD then j + 1 else j)
            else Invalid
  {
    hide DecChar;
    assert s[k..][1..] == s[k + 1..];
    CharKinds(s[k]);
    Peeled(s[k], [], j);
  }

  lemma Peeled(c: Byte, more: seq<Byte>, j: nat)
    ensures Padded([c] + more, j)
            <==> if c == PAD then j < 2 && Padded(more, j + 1) else IsData(c) && j == 0 && Padded(more, j)
    ensures DecChar(PAD) == 64 && (IsData(c) <==> DecChar(c) < 64) && DecChar(CR) == 127
  {
    assert ([c] + more)[1..] == more;
  }

  // ----- the second pass

  function HighByte(x: bv32): Byte { ((x >> 16) & 0xFF) as Byte }
  function MiddleByte(x: bv32): Byte { ((x >> 8) & 0xFF) as Byte }
  function LowByte(x: bv32): Byte { (x & 0xFF) as Byte }

  /** The bytes of a complete group: as many as the padding seen so far leaves. */
  function GroupBytes(x: bv32, j: nat): (r: seq<Byte>)
    ensures |r| == if j < 3 then j else 3
  {
    if j == 0 then [] else if j == 1 then [HighByte(x)] else if j == 2 then [HighByte(x), MiddleByte(x)]
    else [HighByte(x), MiddleByte(x), LowByte(x)]
  }

  /** Six more bits at the low end; in 32 bits the oldest ones fall off. */
  function Shift(x: bv32, v: Byte): bv32 { (x << 6) | (v as bv32) }

  function ShiftIn(x: bv32, c: Byte): bv32 { Shift(x, DecChar(c) & 0x3F) }

  function AfterPad(j: nat, c: Byte): nat { if c == PAD && j > 0 then j - 1 else j }

  /** What is written for the characters `s`, after `n` characters of an incomplete group in `x`. */
  function SecondPass(s: seq<Byte>, n: nat, x: bv32, j: nat): (r: seq<Byte>)
    requires n < 4
    decreases |s|
  {
    if s == [] then []
    else
      var x', j' := ShiftIn(x, s[0]), AfterPad(j, s[0]);
      if n + 1 == 4 then GroupBytes(x', j') + SecondPass(s[1..], 0, x', j')
      else SecondPass(s[1..], n + 1, x', j')
  }

  function Shift4(s: seq<Byte>, x: bv32): bv32
    requires |s| >= 4
  {
    ShiftIn(ShiftIn(ShiftIn(ShiftIn(x, s[0]), s[1]), s[2]), s[3])
  }

  function Pad4(s: seq<Byte>, j: nat): nat
    requires |s| >= 4
  {
    AfterPad(AfterPad(AfterPad(AfterPad(j, s[0]), s[1]), s[2]), s[3])
  }

  lemma OneGroup(s: seq<Byte>, x: bv32, j: nat)
    requires |s| >= 4
    ensures SecondPass(s, 0, x, j)
         == GroupBytes(Shift4(s, x), Pad4(s, j)) + SecondPass(s[4..], 0, Shift4(s, x), Pad4(s, j))
  {
    hide ShiftIn, AfterPad, GroupBytes;
    var x1, j1 := ShiftIn(x, s[0]), AfterPad(j, s[0]);
    var x2, j2 := ShiftIn(x1, s[1]), AfterPad(j1, s[1]);
    var x3, j3 := ShiftIn(x2, s[2]), AfterPad(j2, s[2]);
    assert s[1..][1..] == s[2..] && s[2..][1..] == s[3..] && s[3..][1..] == s[4..];
    assert SecondPass(s, 0, x, j) == SecondPass(s[1..], 1, x1, j1);
    assert SecondPass(s[1..], 1, x1, j1) == SecondPass(s[2..], 2, x2, j2);
    assert SecondPass(s[2..], 2, x2, j2) == SecondPass(s[3..], 3, x3, j3);
  }

  lemma {:induction false} NoGroup(s: seq<Byte>, n: nat, x: bv32, j: nat)
    requires n + |s| < 4
    ensures SecondPass(s, n, x, j) == []
    decreases |s|
  {
    if s != [] { NoGroup(s[1..], n + 1, ShiftIn(x, s[0]), AfterPad(j, s[0])); }
  }
}
