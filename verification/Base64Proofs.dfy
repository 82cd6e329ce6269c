/** Round trip and size of the two-pass decoder. */
module Base64Proofs {
  import opened Base64Spec

  // ----- sizes

  /** The decoder's overflow-free computation of the output size. */
  function SizeWithoutPadding(n: nat): nat { 6 * (n / 8) + (6 * (n % 8) + 7) / 8 }

  lemma SizeFormula(n: nat)
    ensures SizeWithoutPadding(n) == (6 * n + 7) / 8 == 3 * (n / 4) + n % 4
  {
    var q, r := n / 8, n % 8;
    assert n == 8 * q + r;
    assert (6 * n + 7) / 8 == 6 * q + (6 * r + 7) / 8;
    assert n / 4 == 2 * q + r / 4 && n % 4 == r % 4;
  }

  function Excess(pads: nat, rest: nat): nat { if pads > rest then pads - rest else 0 }

  lemma {:induction false} PadsAfter(s: seq<Byte>, j: nat)
    requires Padded(s, j) && j > 0
    ensures Pads(s) == |s| && j + |s| <= if j < 2 then 2 else j
  {
    if s != [] { PadsAfter(s[1..], j + 1); }
  }

  lemma PaddedTail(s: seq<Byte>)
    requires Padded(s, 0) && s != []
    ensures Pads(s) == (if s[0] == PAD then 1 else 0) + Pads(s[1..])
    ensures Padded(s[1..], if s[0] == PAD then 1 else 0)
  {
  }

  /** A first group without padding leaves a well padded rest; with padding it is nearly the end. */
  lemma FirstGroup(s: seq<Byte>)
    requires Padded(s, 0) && |s| >= 4
    ensures s[3] != PAD ==> Padded(s[4..], 0) && Pads(s) == Pads(s[4..]) && Pad4(s, 3) == 3
    ensures s[3] == PAD ==> |s| <= 5 && Pad4(s, 3) == 3 - (Pads(s) - (|s| - 4))
  {
    assert s[1..][1..] == s[2..] && s[2..][1..] == s[3..] && s[3..][1..] == s[4..];
    PaddedTail(s);
    if s[0] == PAD {
      assert false;
    } else {
      PaddedTail(s[1..]);
      if s[1] == PAD {
        assert false;
      } else {
        PaddedTail(s[2..]);
        if s[2] == PAD { PadsAfter(s[3..], 1); } else { ThirdPad(s); }
      }
    }
  }

  lemma ThirdPad(s: seq<Byte>)
    requires |s| >= 4 && s[0] != PAD && s[1] != PAD && s[2] != PAD && Padded(s[3..], 0) && Pads(s) == Pads(s[3..])
    ensures s[3] != PAD ==> Padded(s[4..], 0) && Pads(s) == Pads(s[4..]) && Pad4(s, 3) == 3
    ensures s[3] == PAD ==> |s| <= 5 && Pad4(s, 3) == 3 - (Pads(s) - (|s| - 4))
  {
    PaddedTail(s[3..]);
    assert s[3..][1..] == s[4..];
    if s[3] == PAD { PadsAfter(s[4..], 1); }
  }

  /** How many bytes the second pass writes. */
  lemma {:induction false} Written(s: seq<Byte>, x: bv32)
    requires Padded(s, 0)
    ensures Excess(Pads(s), |s| % 4) <= 3 * (|s| / 4)
    ensures |SecondPass(s, 0, x, 3)| == 3 * (|s| / 4) - Excess(Pads(s), |s| % 4)
    decreases |s|
  {
    if |s| < 4 {
      NoGroup(s, 0, x, 3);
    } else {
      hide SecondPass, Shift4, Padded, Pads, GroupBytes;
      FirstGroup(s);
      OneGroup(s, x, 3);
      var x' := Shift4(s, x);
      if s[3] == PAD {
        NoGroup(s[4..], 0, x', Pad4(s, 3));
        PadBounds(s);
        GroupSize(x', Pad4(s, 3));
      } else {
        Written(s[4..], x');
        GroupSize(x', 3);
      }
    }
  }

  lemma PadBounds(s: seq<Byte>)
    ensures Pads(s) <= |s|
  {
  }

  lemma GroupSize(x: bv32, j: nat)
    ensures |GroupBytes(x, j)| == if j < 3 then j else 3
  {
  }

  /** For every accepted input the computed size does not underflow and bounds what is written. It
      is exact if and only if the characters of the incomplete last group are all padding. */
  lemma SizeAgrees(s: seq<Byte>)
    requires FirstPass(s, 0, 0, 0).Valid?
    ensures var p, out := FirstPass(s, 0, 0, 0), SecondPass(Significant(s), 0, 0, 3);
      && p.pads <= SizeWithoutPadding(p.n)
      && |out| <= SizeWithoutPadding(p.n) - p.pads
      && (|out| == SizeWithoutPadding(p.n) - p.pads <==> p.pads >= p.n % 4)
  {
    hide FirstPass, SecondPass, Padded;
    FirstPassCounts(s, 0, 0, 0);
    var sig := Significant(s);
    SizeFormula(|sig|);
    Written(sig, 0);
    PadBounds(sig);
  }

  // ----- round trip

  /** The bits of three bytes, shifted in as four groups of six after anything else. */
  lemma Bits(a: Byte, b: Byte, c: Byte, x: bv32)
    ensures var y := Shift(Shift(Shift(Shift(x, Sextet1(a)), Sextet2(a, b)), Sextet3(b, c)), Sextet4(c));
      HighByte(y) == a && MiddleByte(y) == b && LowByte(y) == c
  {
  }

  lemma SextetsSmall(a: Byte, b: Byte, c: Byte)
    ensures Sextet1(a) < 64 && Sextet2(a, b) < 64 && Sextet3(b, c) < 64 && Sextet4(c) < 64
    ensures Sextet4(0) == 0 && Sextet3(0, 0) == 0
  {
  }

  lemma ShiftEncoded(x: bv32, v: Byte)
    requires v < 64
    ensures ShiftIn(x, EncChar(v)) == Shift(x, v) && EncChar(v) != PAD
  {
    TablesInverse(v);
    assert v & 0x3F == v;
  }

  lemma ShiftPad(x: bv32)
    ensures ShiftIn(x, PAD) == Shift(x, 0)
  {
  }

  lemma GroupReadBack(a: Byte, b: Byte, c: Byte, rest: seq<Byte>, x: bv32)
    ensures var s := EncodeGroup(a, b, c) + rest;
      GroupBytes(Shift4(s, x), Pad4(s, 3)) == [a, b, c] && Pad4(s, 3) == 3 && s[4..] == rest
  {
    hide EncChar, ShiftIn, Shift, Sextet1, Sextet2, Sextet3, Sextet4, HighByte, MiddleByte, LowByte;
    Bits(a, b, c, x);
    SextetsSmall(a, b, c);
    var x1 := Shift(x, Sextet1(a));
    var x2 := Shift(x1, Sextet2(a, b));
    var x3 := Shift(x2, Sextet3(b, c));
    ShiftEncoded(x, Sextet1(a)); ShiftEncoded(x1, Sextet2(a, b));
    ShiftEncoded(x2, Sextet3(b, c)); ShiftEncoded(x3, Sextet4(c));
  }

  lemma TwoLeft(a: Byte, b: Byte, x: bv32)
    ensures var s := EncodeTail([a, b]); GroupBytes(Shift4(s, x), Pad4(s, 3)) == [a, b]
  {
    hide EncChar, ShiftIn, Shift, Sextet1, Sextet2, Sextet3, Sextet4, HighByte, MiddleByte, LowByte;
    Bits(a, b, 0, x);
    SextetsSmall(a, b, 0);
    var x1 := Shift(x, Sextet1(a));
    var x2 := Shift(x1, Sextet2(a, b));
    var x3 := Shift(x2, Sextet3(b, 0));
    ShiftEncoded(x, Sextet1(a)); ShiftEncoded(x1, Sextet2(a, b)); ShiftEncoded(x2, Sextet3(b, 0)); ShiftPad(x3);
  }

  lemma OneLeft(a: Byte, x: bv32)
    ensures var s := EncodeTail([a]); GroupBytes(Shift4(s, x), Pad4(s, 3)) == [a]
  {
    hide EncChar, ShiftIn, Shift, Sextet1, Sextet2, Sextet3, Sextet4, HighByte, MiddleByte, LowByte;
    Bits(a, 0, 0, x);
    SextetsSmall(a, 0, 0);
    var x1 := Shift(x, Sextet1(a));
    var x2 := Shift(x1, Sextet2(a, 0));
    var x3 := Shift(x2, 0);
    ShiftEncoded(x, Sextet1(a)); ShiftEncoded(x1, Sextet2(a, 0)); ShiftPad(x2); ShiftPad(x3);
  }

  lemma TailReadBack(t: seq<Byte>, x: bv32)
    requires 0 < |t| < 3
    ensures var s := EncodeTail(t); GroupBytes(Shift4(s, x), Pad4(s, 3)) == t && s[4..] == []
  {
    hide EncChar, Shift4, Pad4, GroupBytes;
    if |t| == 1 {
      assert t == [t[0]];
      OneLeft(t[0], x);
    } else {
      assert t == [t[0], t[1]];
      TwoLeft(t[0], t[1], x);
    }
  }

  /** Decoding an encoding gives the bytes back, whatever the accumulator held. */
  lemma {:induction false} RoundTrip(b: seq<Byte>, x: bv32)
    ensures SecondPass(Encode(b), 0, x, 3) == b
    decreases |b|
  {
    hide SecondPass, GroupBytes, Shift4, Pad4, EncodeGroup, EncodeTail;
    var s := Encode(b);
    if b == [] {
      NoGroup(s, 0, x, 3);
    } else if |b| < 3 {
      TailReadBack(b, x);
      OneGroup(s, x, 3);
      NoGroup([], 0, Shift4(s, x), Pad4(s, 3));
      assert b + [] == b;
    } else {
      var rest := Encode(b[3..]);
      GroupReadBack(b[0], b[1], b[2], rest, x);
      OneGroup(s, x, 3);
      RoundTrip(b[3..], Shift4(s, x));
      assert [b[0], b[1], b[2]] + b[3..] == b;
    }
  }
}
