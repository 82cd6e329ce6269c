/**
  What one round of the in-place chunked decoder does, as a function of the bytes that have
  not been decoded yet, and what it does on any prefix of a well-formed stream.
 */
module InPlaceSpec {
  import opened CString
  import opened Chunked
  import opened Lists

  datatype Verdict = More | ChunkAvailable | Ok | Error

  /** One look at the beginning of the undecoded bytes. */
  datatype Look = NeedMore | Bad | Took(header: nat, size: nat)

  function LookAt(raw: string): (l: Look)
    ensures l.Took? ==> l.header + l.size + 2 <= |raw|
  {
    var p := StrStr(raw, CRLF);
    if p < 0 then NeedMore
    else if p > 31 || p == 0 then Bad
    else
      var n := ReadNumber(raw[..p], 16);
      if n.magnitude > LONG_MAX || (n.negative && n.magnitude > 0) then Bad
      else
        var h, v := p + 2, n.magnitude;
        if |raw| - h < v + 2 then NeedMore
        else if raw[h + v] != '\r' || raw[h + v + 1] != '\n' then Bad
        else if v == 0 && (raw[3] != '\r' || raw[4] != '\n') then Bad
        else Took(h, v)
  }

  datatype Decoding = Decoding(out: string, rest: string, verdict: Verdict)

  /** Takes chunks off the front as long as there are complete ones. */
  function Decode(raw: string): (d: Decoding)
    ensures |d.out| + |d.rest| <= |raw|
    decreases |raw|
  {
    match LookAt(raw)
    case NeedMore => Decoding("", raw, More)
    case Bad => Decoding("", raw, Error)
    case Took(h, v) =>
      var out, rest := raw[h..h + v], raw[h + v + 2..];
      if v == 0 then Decoding(out, rest, Ok)
      else if rest == "" then Decoding(out, rest, ChunkAvailable)
      else var d := Decode(rest); Decoding(out + d.out, d.rest, d.verdict)
  }

  function After(acc: string, d: Decoding): Decoding { Decoding(acc + d.out, d.rest, d.verdict) }

  /** One round, seen from everything decoded before it. */
  lemma DecodeRound(acc: string, raw: string)
    ensures After(acc, Decode(raw)) ==
      match LookAt(raw)
      case NeedMore => Decoding(acc, raw, More)
      case Bad => Decoding(acc, raw, Error)
      case Took(h, v) =>
        var acc', rest := acc + raw[h..h + v], raw[h + v + 2..];
        if v == 0 then Decoding(acc', rest, Ok)
        else if rest == "" then Decoding(acc', rest, ChunkAvailable)
        else After(acc', Decode(rest))
  {
    hide LookAt;
    match LookAt(raw)
    case Took(h, v) =>
      var rest := raw[h + v + 2..];
      assert acc + (raw[h..h + v] + Decode(rest).out) == acc + raw[h..h + v] + Decode(rest).out;
    case _ => assert acc + "" == acc;
  }

  /** Reads until something can be reported or the reads run out. */
  datatype Served = Served(out: string, rest: string, verdict: Verdict, next: nat)

  function Serve(raw: string, net: seq<string>, i: nat): (s: Served)
    requires i <= |net|
    ensures i <= s.next <= |net|
    ensures i < |net| ==> i < s.next
    decreases |net| - i
  {
    if i == |net| then Served("", raw, More, i)
    else
      var d := Decode(raw + net[i]);
      if d.verdict == More
      then var s := Serve(d.rest, net, i + 1); Served(d.out + s.out, s.rest, s.verdict, s.next)
      else Served(d.out, d.rest, d.verdict, i + 1)
  }

  function AfterServed(acc: string, s: Served): Served { s.(out := acc + s.out) }

  lemma ServeRound(acc: string, raw: string, net: seq<string>, i: nat)
    requires i < |net|
    ensures var d := Decode(raw + net[i]);
      AfterServed(acc, Serve(raw, net, i))
      == if d.verdict == More then AfterServed(acc + d.out, Serve(d.rest, net, i + 1))
         else Served(acc + d.out, d.rest, d.verdict, i + 1)
  {
    hide Decode;
    var d := Decode(raw + net[i]);
    assert acc + (d.out + Serve(d.rest, net, i + 1).out) == acc + d.out + Serve(d.rest, net, i + 1).out;
  }

  lemma ServeNothing(acc: string, raw: string, net: seq<string>)
    ensures AfterServed(acc, Serve(raw, net, |net|)) == Served(acc, raw, More, |net|)
  {
    assert acc + "" == acc;
  }

  // ----- behaviour on well-formed streams

  lemma SizeLine(size: string)
    requires AllDigits(size, 16)
    ensures '\r' !in size && NUL !in size
  {
  }

  /** A complete chunk at the front is taken, whatever follows it. */
  lemma LookAtChunk(c: Chunk, more: string)
    requires WellFormed(c)
    ensures LookAt(EncodeChunk(c) + more) == Took(|c.size| + 2, |c.data|)
  {
    hide StrStr, ReadNumber, Numeral;
    var raw := EncodeChunk(c) + more;
    SizeLine(c.size);
    assert raw == c.size + CRLF + (c.data + CRLF + more);
    FoundAfter(c.size, CRLF, c.data + CRLF + more);
    assert raw[..|c.size|] == c.size == c.size + "";
    ReadNumeral(c.size, "", 16);
    var h := |c.size| + 2;
    assert raw[h..] == c.data + CRLF + more;
    assert raw[h + |c.data|..] == CRLF + more;
    assert raw[h + |c.data|] == '\r' && raw[h + |c.data| + 1] == '\n';
  }

  /** A chunk that is not complete is left alone. */
  lemma LookAtPartialChunk(c: Chunk, raw: string)
    requires WellFormed(c) && raw <= EncodeChunk(c) && |raw| < |EncodeChunk(c)|
    ensures LookAt(raw) == NeedMore
  {
    hide StrStr, ReadNumber, Numeral;
    SizeLine(c.size);
    var line := c.size + CRLF;
    if |raw| < |line| {
      assert raw <= line;
      CutBefore(c.size, CRLF, raw);
    } else {
      assert raw == line + raw[|line|..];
      FoundAfter(c.size, CRLF, raw[|line|..]);
      assert raw[..|c.size|] == c.size == c.size + "";
      ReadNumeral(c.size, "", 16);
    }
  }

  lemma LookAtLastChunk(raw: string)
    requires raw <= "0\r\n\r\n"
    ensures LookAt(raw) == if |raw| == 5 then Took(3, 0) else NeedMore
  {
    if |raw| < 3 {
      CutBefore("0", CRLF, raw);
    } else {
      assert raw == "0" + CRLF + raw[3..];
      FoundAfter("0", CRLF, raw[3..]);
      assert raw[..1] == "0" == "0" + "";
      ReadNumeral("0", "", 16);
      assert Numeral("0", 16, 0) == 0;
    }
  }

  /** A last chunk written with several zeros, which section 7.1 of RFC 9112 allows, is accepted
      if and only if there is one zero or there are three: the line end is looked for at a fixed
      position. */
  lemma LastChunkZeros(zeros: string)
    requires zeros != "" && forall i :: 0 <= i < |zeros| ==> zeros[i] == '0'
    ensures LookAt(zeros + CRLF + CRLF).Took? <==> |zeros| == 1 || |zeros| == 3
  {
    hide StrStr, ReadNumber, Numeral;
    var raw := zeros + CRLF + CRLF;
    FoundAfter(zeros, CRLF, CRLF);
    assert raw[..|zeros|] == zeros == zeros + "";
    ReadNumeral(zeros, "", 16);
    ZeroNumeral(zeros);
    if |zeros| > 3 { assert raw[3] == zeros[3] == '0'; }
  }

  lemma {:induction false} ZeroNumeral(zeros: string)
    requires forall i :: 0 <= i < |zeros| ==> zeros[i] == '0'
    ensures Numeral(zeros, 16, 0) == 0
  {
    if zeros != "" { ZeroNumeral(zeros[1..]); }
  }

  /** The first `k` chunks of the stream came out, and what is left is the rest of the stream;
      the end is reported exactly when nothing is to come. */
  ghost predicate Progress(cs: seq<Chunk>, k: nat, d: Decoding, future: string)
  {
    && k <= |cs|
    && d.out == Payload(cs[..k])
    && (d.verdict == Ok <==> future == "")
    && match d.verdict
       case Ok => k == |cs| && d.rest == ""
       case More => d.rest + future == Encode(cs[k..]) && LookAt(d.rest) == NeedMore
       case ChunkAvailable => d.rest == "" && future == Encode(cs[k..])
       case Error => false
  }

  lemma DecodeTook(raw: string, h: nat, v: nat, out: string, rest: string)
    requires LookAt(raw) == Took(h, v) && v > 0 && out == raw[h..h + v] && rest == raw[h + v + 2..]
    ensures Decode(raw) == if rest == "" then Decoding(out, "", ChunkAvailable)
                           else var d := Decode(rest); Decoding(out + d.out, d.rest, d.verdict)
  {
    hide LookAt;
    assert LookAt(raw).Took? && LookAt(raw).header == h && LookAt(raw).size == v;
  }

  lemma DecodeChunk(c: Chunk, rest: string)
    requires WellFormed(c)
    ensures Decode(EncodeChunk(c) + rest)
         == if rest == "" then Decoding(c.data, "", ChunkAvailable)
            else var d := Decode(rest); Decoding(c.data + d.out, d.rest, d.verdict)
  {
    assert c.data != "";
    hide LookAt, WellFormed, Decode;
    var raw, h := EncodeChunk(c) + rest, |c.size| + 2;
    LookAtChunk(c, rest);
    assert raw[h..h + |c.data|] == c.data;
    assert raw[h + |c.data| + 2..] == rest;
    DecodeTook(raw, h, |c.data|, c.data, rest);
  }

  lemma PayloadOfPrefix(cs: seq<Chunk>, j: nat)
    requires cs != [] && j < |cs|
    ensures Payload(cs[..j + 1]) == cs[0].data + Payload(cs[1..][..j]) && cs[1..][j..] == cs[j + 1..]
  {
    assert cs[..j + 1][1..] == cs[1..][..j];
  }

  /** Decoding any prefix of a stream makes progress of that kind. */
  lemma {:induction false} DecodePrefix(cs: seq<Chunk>, raw: string, future: string) returns (k: nat)
    requires AllWellFormed(cs) && raw + future == Encode(cs)
    ensures Progress(cs, k, Decode(raw), future)
    decreases |cs|
  {
    hide LookAt, EncodeChunk, WellFormed;
    k := 0;
    assert cs[0..] == cs && cs[..0] == [];
    if cs == [] {
      Overlap(raw, future, "0\r\n\r\n", "");
      LookAtLastChunk(raw);
    } else {
      assert WellFormed(cs[0]);
      var one, tail := EncodeChunk(cs[0]), Encode(cs[1..]);
      if |raw| < |one| {
        Overlap(raw, future, one, tail);
        LookAtPartialChunk(cs[0], raw);
      } else {
        Overlap(one, tail, raw, future);
        var rest := raw[|one|..];
        DecodeChunk(cs[0], rest);
        if rest == "" {
          k := 1;
          PayloadOfPrefix(cs, 0);
          assert cs[1..][..0] == [] && "" + future == future;
        } else {
          var j := DecodePrefix(cs[1..], rest, future);
          k := j + 1;
          PayloadOfPrefix(cs, j);
        }
      }
    }
  }

  /** While the stream lasts, waiting for data always ends with whole chunks to report, and with
      the end of the stream exactly when everything has come out. */
  lemma {:induction false} ServeStream(cs: seq<Chunk>, raw: string, net: seq<string>, i: nat) returns (k: nat)
    requires AllWellFormed(cs) && i <= |net| && raw + Concat(net[i..]) == Encode(cs)
    requires raw == "" || LookAt(raw) == NeedMore
    ensures k <= |cs|
    ensures var s := Serve(raw, net, i);
      && s.out == Payload(cs[..k]) && s.rest == ""
      && match s.verdict
         case Ok => k == |cs| && Concat(net[s.next..]) == ""
         case ChunkAvailable => Concat(net[s.next..]) == Encode(cs[k..])
         case _ => false
    decreases |net| - i
  {
    hide LookAt, Encode;
    if i == |net| {
      assert raw + "" == raw;
      k := DecodePrefix(cs, raw, "");
      assert false;
    } else {
      var future := Concat(net[i + 1..]);
      assert net[i..][1..] == net[i + 1..];
      assert raw + net[i] + future == raw + (net[i] + future);
      var j := DecodePrefix(cs, raw + net[i], future);
      var d := Decode(raw + net[i]);
      k := j;
      if d.verdict == More {
        var m := ServeStream(cs[j..], d.rest, net, i + 1);
        k := j + m;
        PayloadSplit(cs, j, k);
        assert cs[j..][..m] == cs[j..k] && cs[j..][m..] == cs[k..];
      }
    }
  }
}
