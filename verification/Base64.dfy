/** The encoder and the two-pass decoder, writing into the caller's buffer. */
module Base64 {
  import opened Base64Spec
  import opened Base64Proofs
  import opened CString
  import A = Base64Alphabet
  import Lists

  datatype Status = Ok | BufferTooSmall | InvalidCharacter

  /** Encodes `src` into `dst` and terminates it with a zero byte. */
  method EncodeInto(dst: array?<Byte>, src: seq<Byte>) returns (ret: Status, olen: nat)
    requires |src| <= SIZE_MAX
    modifies dst
    ensures var n := |Encode(src)|;
      if src == [] then ret == Ok && olen == 0
      else if n / 4 > (SIZE_MAX - 1) / 4 then ret == BufferTooSmall && olen == SIZE_MAX
      else if dst == null || dst.Length < n + 1 then ret == BufferTooSmall && olen == n + 1
      else ret == Ok && olen == n && dst[..n] == Encode(src) && dst[n] == 0 && dst[n + 1..] == old(dst[n + 1..])
    ensures ret == Ok && src != [] ==> dst != null && olen < dst.Length && A.Text(dst[..olen]) == A.Reference(src)
    ensures dst != null && (src == [] || ret != Ok) ==> dst[..] == old(dst[..])
  {
    hide Encode, A.Text, A.Reference;
    if |src| == 0 {
      return Ok, 0;
    }
    EncodedLength(src);
    var groups := |src| / 3 + if |src| % 3 != 0 then 1 else 0;
    if groups > (SIZE_MAX - 1) / 4 {
      return BufferTooSmall, SIZE_MAX;
    }
    var need := groups * 4;
    if dst == null || dst.Length < need + 1 {
      return BufferTooSmall, need + 1;
    }
    var i, p := EncodeGroups(dst, src);
    p := EncodeRest(dst, src, i, p);
    ghost var text := dst[..p];
    dst[p] := 0;
    assert dst[..p] == text;
    A.EncodeIs(src);
    return Ok, p;
  }

  /** The loop over complete groups of three bytes. */
  method EncodeGroups(dst: array<Byte>, src: seq<Byte>) returns (i: nat, p: nat)
    requires |Encode(src)| <= dst.Length
    modifies dst
    ensures i == |src| / 3 * 3 && p == i / 3 * 4 <= |Encode(src)|
    ensures dst[..p] + Encode(src[i..]) == Encode(src) && dst[p..] == old(dst[p..])
  {
    hide Encode, EncodeGroup;
    EncodedLength(src);
    var n := |src| / 3 * 3;
    i, p := 0, 0;
    ghost var groups := 0;
    assert src[0..] == src && dst[..0] + Encode(src) == Encode(src);
    while i < n
      invariant i == 3 * groups <= n && p == 4 * groups
      invariant dst[..p] + Encode(src[i..]) == Encode(src)
      invariant dst[p..] == old(dst[p..])
    {
      GroupStep(src, i);
      ghost var before, rest := dst[..p], Encode(src[i + 3..]);
      ghost var group := EncodeGroup(src[i], src[i + 1], src[i + 2]);
      WriteGroup(dst, p, src[i], src[i + 1], src[i + 2]);
      Lists.Regrouped(before, group, rest);
      i, p, groups := i + 3, p + 4, groups + 1;
    }
  }

  /** One or two bytes may be left. */
  method EncodeRest(dst: array<Byte>, src: seq<Byte>, i: nat, p: nat) returns (end: nat)
    requires i <= |src| < i + 3 && p <= dst.Length && dst[..p] + Encode(src[i..]) == Encode(src)
    requires |Encode(src)| <= dst.Length
    modifies dst
    ensures end == |Encode(src)| && dst[..end] == Encode(src) && dst[end..] == old(dst[end..])
  {
    hide Encode, EncodeTail;
    if i < |src| {
      TailStep(src, i);
      var tail := EncodeTail(src[i..]);
      end := Write(dst, p, tail);
    } else {
      assert src[i..] == [];
      NothingEncoded();
      assert dst[..p] + [] == dst[..p];
      end := p;
    }
  }

  method WriteGroup(dst: array<Byte>, p: nat, a: Byte, b: Byte, c: Byte)
    requires p + 4 <= dst.Length
    modifies dst
    ensures dst[..p + 4] == old(dst[..p]) + EncodeGroup(a, b, c) && dst[p + 4..] == old(dst[p + 4..])
  {
    hide EncChar, Sextet1, Sextet2, Sextet3, Sextet4;
    dst[p] := EncChar(Sextet1(a));
    dst[p + 1] := EncChar(Sextet2(a, b));
    dst[p + 2] := EncChar(Sextet3(b, c));
    dst[p + 3] := EncChar(Sextet4(c));
  }

  lemma NothingEncoded()
    ensures Encode([]) == []
  {
  }

  lemma EncodedLength(src: seq<Byte>)
    ensures |Encode(src)| == 4 * (|src| / 3 + if |src| % 3 != 0 then 1 else 0)
  {
    hide Encode;
    Thirds(|src|);
  }

  lemma Thirds(n: nat)
    ensures (n + 2) / 3 == n / 3 + if n % 3 != 0 then 1 else 0
  {
  }

  lemma GroupStep(src: seq<Byte>, i: nat)
    requires i + 3 <= |src|
    ensures Encode(src[i..]) == EncodeGroup(src[i], src[i + 1], src[i + 2]) + Encode(src[i + 3..])
  {
    assert src[i..][3..] == src[i + 3..];
  }

  lemma TailStep(src: seq<Byte>, i: nat)
    requires i < |src| < i + 3
    ensures Encode(src[i..]) == EncodeTail(src[i..]) && |EncodeTail(src[i..])| == 4
  {
  }

  /** The first pass: checks validity and counts characters and padding. */
  method Validate(src: seq<Byte>) returns (p: Pass)
    ensures p == FirstPass(src, 0, 0, 0)
  {
    hide DecChar;
    var i, n, j := 0, 0, 0;
    assert src[0..] == src;
    while i < |src|
      invariant i <= |src|
      invariant FirstPass(src, 0, 0, 0) == FirstPass(src[i..], 0, n, j)
    {
      var x: nat := 0;
      while i < |src| && src[i] == SP
        invariant i <= |src|
        invariant FirstPass(src, 0, 0, 0) == FirstPass(src[i..], x, n, j)
      {
        assert src[i..][1..] == src[i + 1..];
        i, x := i + 1, (x + 1) % 0x1_0000_0000;
      }
      if i == |src| {
        break;
      }
      assert src[i..][1..] == src[i + 1..];
      var c := src[i];
      if |src| - i >= 2 && c == CR && src[i + 1] == LF {
        i := i + 1;
        continue;
      }
      if c == LF {
        i := i + 1;
        continue;
      }
      if x != 0 {
        return Invalid;
      }
      if c == PAD {
        j := j + 1;
        if j > 2 {
          return Invalid;
        }
      }
      if DecChar(c) == 127 {
        return Invalid;
      }
      if DecChar(c) < 64 && j != 0 {
        return Invalid;
      }
      n, i := n + 1, i + 1;
    }
    return Valid(n, j);
  }

  /** Decodes `src` into `dst`: validity first, then the size, then the bytes. */
  method DecodeInto(dst: array?<Byte>, src: seq<Byte>) returns (ret: Status, olen: nat)
    modifies dst
    ensures var p, out := FirstPass(src, 0, 0, 0), SecondPass(Significant(src), 0, 0, 3);
      if p.Invalid? then ret == InvalidCharacter
      else if p.n == 0 then ret == Ok && olen == 0
      else var size := SizeWithoutPadding(p.n) - p.pads;
        if dst == null || dst.Length < size then ret == BufferTooSmall && olen == size
        else ret == Ok && olen == |out| <= size && dst[..olen] == out && dst[olen..] == old(dst[olen..])
    ensures dst != null && ret != Ok ==> dst[..] == old(dst[..])
  {
    hide FirstPass, SecondPass, Significant;
    olen := 0;
    var p := Validate(src);
    if p.Invalid? {
      return InvalidCharacter, 0;
    }
    if p.n == 0 {
      return Ok, 0;
    }
    SizeAgrees(src);
    var size := SizeWithoutPadding(p.n) - p.pads;
    if dst == null || dst.Length < size {
      return BufferTooSmall, size;
    }
    FirstPassCounts(src, 0, 0, 0);
    olen := WriteBytes(dst, src);
    return Ok, olen;
  }

  /** The second pass over a text that the first pass accepted. */
  method WriteBytes(dst: array<Byte>, src: seq<Byte>) returns (p: nat)
    requires Pads(Significant(src)) <= 2 && |SecondPass(Significant(src), 0, 0, 3)| <= dst.Length
    modifies dst
    ensures var out := SecondPass(Significant(src), 0, 0, 3);
      p == |out| && dst[..p] == out && dst[p..] == old(dst[p..])
  {
    hide SecondPass, Significant, Pads, GroupBytes, ShiftIn, DecChar;
    var j, n, x := 3, 0, 0 as bv32;
    p := 0;
    ghost var goal := SecondPass(Significant(src), 0, 0, 3);
    assert src[0..] == src && dst[..0] + goal == goal;
    for k := 0 to |src|
      invariant n < 4 && p <= dst.Length && j > Pads(Significant(src[k..]))
      invariant dst[..p] + SecondPass(Significant(src[k..]), n, x, j) == goal
      invariant dst[p..] == old(dst[p..])
    {
      var c := src[k];
      SignificantStep(src, k, n, x, j);
      if c == CR || c == LF || c == SP {
        continue;
      }
      if c == PAD {
        j := j - 1;
      }
      x := ShiftIn(x, c);
      n := n + 1;
      if n == 4 {
        n := 0;
        var bytes := GroupBytes(x, j);
        ghost var before, rest := dst[..p], SecondPass(Significant(src[k + 1..]), 0, x, j);
        assert before + (bytes + rest) == before + bytes + rest;
        p := Write(dst, p, bytes);
      }
    }
    assert src[|src|..] == [];
    NothingWritten(n, x, j);
    assert dst[..p] + [] == dst[..p];
  }

  method Write(dst: array<Byte>, at: nat, bytes: seq<Byte>) returns (p: nat)
    requires at + |bytes| <= dst.Length
    modifies dst
    ensures p == at + |bytes| && dst[..p] == old(dst[..at]) + bytes && dst[p..] == old(dst[p..])
  {
    p := at + |bytes|;
    forall i | at <= i < p {
      dst[i] := bytes[i - at];
    }
  }

  lemma NothingWritten(n: nat, x: bv32, j: nat)
    requires n < 4
    ensures SecondPass(Significant([]), n, x, j) == [] && Pads(Significant([])) == 0
  {
  }

  lemma SignificantStep(src: seq<Byte>, k: nat, n: nat, x: bv32, j: nat)
    requires k < |src| && n < 4 && j > Pads(Significant(src[k..]))
    ensures var c, more := src[k], Significant(src[k + 1..]);
      if IsBlank(c) then Significant(src[k..]) == more
      else
        var j', x' := if c == PAD then j - 1 else j, ShiftIn(x, c);
        && j' > Pads(more)
        && SecondPass(Significant(src[k..]), n, x, j)
           == if n + 1 == 4 then GroupBytes(x', j') + SecondPass(more, 0, x', j') else SecondPass(more, n + 1, x', j')
  {
    hide ShiftIn, GroupBytes;
    var c, more := src[k], Significant(src[k + 1..]);
    assert src[k..][1..] == src[k + 1..];
    if IsBlank(c) {
      assert [] + more == more;
    } else {
      assert Significant(src[k..]) == [c] + more && ([c] + more)[1..] == more;
    }
  }

  // ----- line breaks

  /** `t` is `e` with line feeds, or carriage returns and line feeds, put in anywhere. */
  predicate Wrapped(t: seq<Byte>, e: seq<Byte>)
    decreases |t|
  {
    if t == [] then e == []
    else if t[0] == LF then Wrapped(t[1..], e)
    else if t[0] == CR then |t| >= 2 && t[1] == LF && Wrapped(t[2..], e)
    else e != [] && t[0] == e[0] && Wrapped(t[1..], e[1..])
  }

  predicate NoBlanks(e: seq<Byte>) { forall i :: 0 <= i < |e| ==> !IsBlank(e[i]) }

  lemma {:induction false} WrappedLines(t: seq<Byte>, e: seq<Byte>)
    requires Wrapped(t, e) && NoBlanks(e)
    ensures LinesOnly(t) && Significant(t) == e
    decreases |t|
  {
    if t != [] {
      if t[0] == LF {
        WrappedLines(t[1..], e);
        assert [] + e == e;
      } else if t[0] == CR {
        WrappedLines(t[2..], e);
        assert t[1..][1..] == t[2..];
        assert Significant(t[1..]) == [] + e == e;
        assert [] + e == e;
      } else {
        assert !IsBlank(e[0]);
        WrappedLines(t[1..], e[1..]);
        assert [e[0]] + e[1..] == e;
      }
    }
  }

  lemma {:induction false} EncodedShape(b: seq<Byte>)
    ensures NoBlanks(Encode(b)) && Padded(Encode(b), 0)
    decreases |b|
  {
    hide EncChar, DecChar, Sextet1, Sextet2, Sextet3, Sextet4;
    if b == [] {
    } else if |b| < 3 {
      TailShape(b);
    } else {
      EncodedShape(b[3..]);
      GroupShape(b[0], b[1], b[2], Encode(b[3..]));
    }
  }

  lemma TailShape(b: seq<Byte>)
    requires 0 < |b| < 3
    ensures NoBlanks(EncodeTail(b)) && Padded(EncodeTail(b), 0)
  {
    hide EncChar, DecChar, Sextet1, Sextet2, Sextet3, Sextet4;
    var s := EncodeTail(b);
    SextetsSmall(b[0], s[0], 0);
    if |b| == 1 {
      SextetsSmall(b[0], 0, 0);
      DataChar(Sextet1(b[0])); DataChar(Sextet2(b[0], 0));
    } else {
      SextetsSmall(b[0], b[1], 0);
      DataChar(Sextet1(b[0])); DataChar(Sextet2(b[0], b[1])); DataChar(Sextet3(b[1], 0));
    }
    assert s[1..][1..] == s[2..] && s[2..][1..] == s[3..] && s[3..][1..] == [];
    assert Padded(s[3..], if |b| == 1 then 1 else 0);
    assert Padded(s[2..], 0);
    assert Padded(s[1..], 0);
  }

  lemma DataChar(v: Byte)
    requires v < 64
    ensures IsData(EncChar(v)) && EncChar(v) != PAD && !IsBlank(EncChar(v))
  {
    TablesInverse(v);
  }

  lemma GroupShape(a: Byte, b: Byte, c: Byte, rest: seq<Byte>)
    requires NoBlanks(rest) && Padded(rest, 0)
    ensures NoBlanks(EncodeGroup(a, b, c) + rest) && Padded(EncodeGroup(a, b, c) + rest, 0)
  {
    hide EncChar, DecChar, Sextet1, Sextet2, Sextet3, Sextet4;
    SextetsSmall(a, b, c);
    DataChar(Sextet1(a)); DataChar(Sextet2(a, b)); DataChar(Sextet3(b, c)); DataChar(Sextet4(c));
    var s := EncodeGroup(a, b, c) + rest;
    assert s[1..][1..] == s[2..] && s[2..][1..] == s[3..] && s[3..][1..] == rest;
    assert Padded(s[3..], 0);
    assert Padded(s[2..], 0);
    assert Padded(s[1..], 0);
  }

  /** Decoding an encoding, broken into lines at any places, gives the bytes back: the first pass
      accepts it, its size is exact, and the second pass writes the bytes. */
  lemma WrappedRoundTrip(b: seq<Byte>, t: seq<Byte>)
    requires Wrapped(t, Encode(b))
    ensures FirstPass(t, 0, 0, 0).Valid? && SecondPass(Significant(t), 0, 0, 3) == b
    ensures var p := FirstPass(t, 0, 0, 0); p.n == |Encode(b)| && SizeWithoutPadding(p.n) - p.pads == |b|
  {
    hide FirstPass, SecondPass, Encode, Padded, Significant;
    EncodedShape(b);
    WrappedLines(t, Encode(b));
    AcceptedLines(t, 0, 0);
    FirstPassCounts(t, 0, 0, 0);
    RoundTrip(b, 0);
    EncodedLength(b);
    SizeAgrees(t);
  }

  datatype LineEnd = Lf | CrLf

  function Ends(es: seq<LineEnd>): seq<Byte>
  {
    if es == [] then [] else (if es[0].Lf? then [LF] else [CR, LF]) + Ends(es[1..])
  }

  /** `e` with the line ends `breaks(k)` before its k-th character, for every k up to its end. */
  function Broken(e: seq<Byte>, breaks: nat -> seq<LineEnd>, k: nat): seq<Byte>
  {
    Ends(breaks(k)) + if e == [] then [] else [e[0]] + Broken(e[1..], breaks, k + 1)
  }

  lemma {:induction false} EndsWrapped(es: seq<LineEnd>, t: seq<Byte>, e: seq<Byte>)
    requires Wrapped(t, e)
    ensures Wrapped(Ends(es) + t, e)
  {
    if es == [] {
      assert [] + t == t;
    } else {
      EndsWrapped(es[1..], t, e);
      var s, more := Ends(es) + t, Ends(es[1..]) + t;
      if es[0].Lf? { assert s[1..] == more; } else { assert s[2..] == more; }
    }
  }

  lemma {:induction false} BrokenWrapped(e: seq<Byte>, breaks: nat -> seq<LineEnd>, k: nat)
    requires NoBlanks(e)
    ensures Wrapped(Broken(e, breaks, k), e)
    decreases |e|
  {
    if e == [] {
      EndsWrapped(breaks(k), [], []);
    } else {
      assert !IsBlank(e[0]);
      BrokenWrapped(e[1..], breaks, k + 1);
      var t := [e[0]] + Broken(e[1..], breaks, k + 1);
      assert t[1..] == Broken(e[1..], breaks, k + 1);
      EndsWrapped(breaks(k), t, e);
    }
  }

  /** The two methods together: encode, put line ends anywhere, decode into a buffer of the right size. */
  method EncodeBreakDecode(b: seq<Byte>, breaks: nat -> seq<LineEnd>) returns (r: seq<Byte>)
    requires |Encode(b)| < SIZE_MAX
    ensures r == b
  {
    hide FirstPass, SecondPass, Encode, Significant, Wrapped, Broken;
    EncodedLength(b);
    EncodedShape(b);
    var dst := new Byte[|b| / 3 * 4 + 5];
    var _, n := EncodeInto(dst, b);
    var text := Broken(dst[..n], breaks, 0);
    assert dst[..n] == Encode(b) by { if b == [] { assert |Encode(b)| == 0; } }
    BrokenWrapped(Encode(b), breaks, 0);
    WrappedRoundTrip(b, text);
    var bytes := new Byte[|b|];
    var _, olen := DecodeInto(bytes, text);
    r := bytes[..olen];
  }
}
