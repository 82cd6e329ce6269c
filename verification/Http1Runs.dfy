/**
  Whole responses: whatever the pieces in which a well-formed response arrives, the session is
  ready exactly at its last byte, with the same status, headers and body.
 */
module Http1Runs {
  import opened CString
  import opened Options
  import opened Http1Spec
  import H = Http1Headers
  import HeaderStore
  import opened Lists
  import C = Chunked
  import opened Http1Client

  datatype Content = Sized(data: string) | InChunks(chunks: seq<C.Chunk>)

  datatype Response = Response(
    version: string,
    code: string,
    reason: string,
    headers: seq<Header>,
    content: Content)

  function StatusLine(r: Response): string { r.version + r.code + r.reason }

  function Head(r: Response): string { StatusLine(r) + CRLF + H.Print(r.headers) + CRLF }

  function Body(r: Response): string
  {
    match r.content case Sized(d) => d case InChunks(cs) => C.Encode(cs)
  }

  function Data(r: Response): string
  {
    match r.content case Sized(d) => d case InChunks(cs) => C.Payload(cs)
  }

  function Wire(r: Response): string { Head(r) + Body(r) }

  function Length(hs: seq<Header>): nat
  {
    var d := H.Declared(hs); if d.Some? then d.value else 0
  }

  predicate GoodStatusLine(r: Response)
  {
    && |r.version| == 9 && IsHttp1(r.version) && '\r' !in r.version && NUL !in r.version
    && |r.code| == 3 && AllDigits(r.code, 10) && 100 <= Numeral(r.code, 10, 0) <= 599
    && '\r' !in r.reason && NUL !in r.reason
    && (r.reason == "" || !IsDigit(r.reason[0], 10))
  }

  predicate GoodHeaders(hs: seq<Header>)
  {
    hs != [] && forall h <- hs :: H.WellFormed(h) && H.PlainLength(h)
  }

  /** The session once the head of the response has been read. */
  function AfterHead(r: Response): Session
  {
    INIT.(phase := ReceivingData, status := Numeral(r.code, 10, 0), headers := HeaderStore.Merged(r.headers),
          contentLength := Length(r.headers))
  }

  /** A response with at least one header whose body is framed by an exact length or by chunks. */
  predicate WellFormed(r: Response)
  {
    && GoodStatusLine(r) && GoodHeaders(r.headers)
    && match r.content
       case Sized(d) => Length(r.headers) == |d| && !SaysChunked(AfterHead(r))
       case InChunks(cs) => SaysChunked(AfterHead(r)) && C.AllWellFormed(cs)
  }

  /** Same status, headers and declared length as after the head. */
  predicate SameHead(r: Response, s: Session)
  {
    var t := AfterHead(r);
    s.status == t.status && s.headers == t.headers && s.contentLength == t.contentLength
  }

  /** The session has been given the part `b` of the body and waits for more. */
  ghost predicate Pending(r: Response, streaming: bool, b: string, s: Session)
  {
    && SameHead(r, s) && s.phase == ReceivingData && b <= Body(r)
    && match r.content
       case Sized(d) =>
         if streaming then s.incoming == "" && s.body == b && s.readOffset == |b|
         else s.incoming == b && s.body == "" && s.readOffset == 0
       case InChunks(cs) =>
         exists k: nat :: Taken(cs, k, s) && s.incoming + C.Encode(cs)[|b|..] == C.Encode(cs[k..])
  }

  predicate Taken(cs: seq<C.Chunk>, k: nat, s: Session) { k <= |cs| && s.body == C.Payload(cs[..k]) }

  /** The session is done with the response. */
  predicate Done(r: Response, s: Session)
  {
    SameHead(r, s) && s.phase == Ready && s.incoming == "" && s.body == Data(r)
  }

  /** What the session looks like when the first part `p` of the response has been given. */
  ghost predicate At(r: Response, streaming: bool, p: string, s: Session)
  {
    && p <= Wire(r)
    && if |p| < |Head(r)| then s == INIT.(incoming := p)
       else if |p| == |Wire(r)| then Done(r, s)
       else Pending(r, streaming, p[|Head(r)|..], s)
  }

  // ----- the head

  /** The blank line is found at the end of the printed headers, not before. */
  lemma {:induction false} BlankLineFound(hs: seq<Header>, tail: string)
    requires GoodHeaders(hs)
    ensures |H.Print(hs)| >= 2 && StrStr(H.Print(hs) + CRLF + tail, BLANK) == |H.Print(hs)| - 2
    decreases |hs|
  {
    hide StrStr;
    assert H.WellFormed(hs[0]);
    var line := hs[0].name + ": " + hs[0].value;
    var more := H.Print(hs[1..]) + CRLF + tail;
    assert H.Print(hs) + CRLF + tail == line + (CRLF + more);
    SkipTo(line, CRLF + more, BLANK);
    if |hs| == 1 {
      assert H.Print(hs[1..]) == "";
      assert CRLF + more == BLANK + tail;
      Here(BLANK, tail);
    } else {
      assert H.WellFormed(hs[1]);
      assert more[0] == hs[1].name[0] && hs[1].name[0] in hs[1].name;
      NotHere(more);
      BlankLineFound(hs[1..], tail);
    }
  }

  lemma Here(needle: string, tail: string)
    requires needle != ""
    ensures StrStr(needle + tail, needle) == 0
  {
    assert needle <= needle + tail;
  }

  /** A line end that is not followed by another one. */
  lemma NotHere(more: string)
    requires more == "" || more[0] != '\r'
    ensures StrStr(CRLF + more, BLANK) == var r := StrStr(more, BLANK); if r < 0 then -1 else r + 2
  {
    var s := CRLF + more;
    assert s[1..] == "\n" + more && s[1..][1..] == more;
    if more != "" { assert s[2] == more[0]; }
    assert !(BLANK <= s);
    assert !(BLANK <= s[1..]) by { assert s[1..][0] == '\n'; }
  }

  /** A header block that is cut short has no blank line. */
  lemma {:induction false} BlankLineCut(hs: seq<Header>, p: string)
    requires GoodHeaders(hs) && p <= H.Print(hs) + CRLF && |p| < |H.Print(hs)| + 2
    ensures StrStr(p, BLANK) == -1
    decreases |hs|
  {
    hide StrStr;
    assert H.WellFormed(hs[0]);
    var line := hs[0].name + ": " + hs[0].value;
    var rest := H.Print(hs[1..]) + CRLF;
    assert H.Print(hs) + CRLF == line + CRLF + rest;
    if |hs| == 1 {
      assert H.Print(hs[1..]) == "";
      assert rest == CRLF && line + CRLF + rest == line + BLANK;
      CutBefore(line, BLANK, p);
    } else if |p| < |line| + 4 {
      assert H.WellFormed(hs[1]) && rest[0] == hs[1].name[0] && hs[1].name[0] in hs[1].name;
      ShortCut(line, rest, p);
    } else {
      var q := p[|line| + 2..];
      assert p == line + (CRLF + q) && q <= rest;
      SkipTo(line, CRLF + q, BLANK);
      assert H.WellFormed(hs[1]) && q[0] == hs[1].name[0] && hs[1].name[0] in hs[1].name;
      NotHere(q);
      BlankLineCut(hs[1..], q);
    }
  }

  lemma ShortCut(line: string, rest: string, p: string)
    requires '\r' !in line && NUL !in line && p <= line + CRLF + rest && |p| < |line| + 4
    ensures StrStr(p, BLANK) == -1
  {
    forall k: nat {:trigger p[k..]} | k <= |p| ensures !(BLANK <= p[k..]) {
      if k < |line| && k < |p| {
        assert p[k..][0] == line[k] && line[k] in line;
      }
    }
    NotFound(p, BLANK);
  }

  lemma StatusLinePlain(r: Response)
    requires GoodStatusLine(r)
    ensures '\r' !in StatusLine(r) && NUL !in StatusLine(r) && StatusLine(r)[..9] == r.version
  {
    forall i | 0 <= i < |StatusLine(r)| ensures StatusLine(r)[i] != '\r' && StatusLine(r)[i] != NUL {
      var v, c := |r.version|, |r.code|;
      if i < v { assert StatusLine(r)[i] == r.version[i]; }
      else if i < v + c { assert StatusLine(r)[i] == r.code[i - v] && r.code[i - v] in r.code; }
      else { assert StatusLine(r)[i] == r.reason[i - v - c]; }
    }
  }

  /** While the head is incomplete nothing happens. */
  lemma HeadIncomplete(r: Response, p: string)
    requires WellFormed(r) && p <= Head(r) && |p| < |Head(r)|
    ensures ProcessHeaders(INIT.(incoming := p)) == (INIT.(incoming := p), 0)
  {
    hide StrStr, StoreHead, H.Print, SaysChunked;
    var line := StatusLine(r);
    if |p| >= 9 {
      StatusLinePlain(r);
      assert p[..9] == Head(r)[..9] == line[..9];
      if |p| < |line| + 2 {
        assert p <= line + CRLF;
        CutBefore(line, CRLF, p);
      } else {
        var q := p[|line| + 2..];
        assert p == line + CRLF + q && q <= H.Print(r.headers) + CRLF;
        FoundAfter(line, CRLF, q);
        BlankLineCut(r.headers, q);
      }
    }
  }

  lemma HeadStored(r: Response, block: string)
    requires WellFormed(r) && H.Parse(block) == H.Parsed(true, r.headers, H.Declared(r.headers))
    ensures var line := StatusLine(r) + CRLF + block;
            StoreHead(INIT.(incoming := line), line, block)
            == AfterHead(r).(incoming := line, phase := ReceivingHeaders)
  {
    hide H.Parse, Numeral, ReadNumber, SaysChunked, H.Declared, HeaderStore.SetAll;
    var line := StatusLine(r) + CRLF + block;
    var rest := r.reason + CRLF + block;
    assert line[9..] == r.code + rest;
    assert rest[0] == if r.reason == "" then '\r' else r.reason[0];
    ReadNumeral(r.code, rest, 10);
  }

  lemma HeadFound(s: Session, p: nat, q: nat)
    requires |s.incoming| >= 9 && IsHttp1(s.incoming) && s.status <= 0
    requires StrStr(s.incoming, CRLF) == p && StrStr(s.incoming[p + 2..], BLANK) == q
    requires StoreHead(s, s.incoming, s.incoming[p + 2..]).phase != Failed
    ensures ProcessHeaders(s) == (StoreHead(s, s.incoming, s.incoming[p + 2..])
                                  .(incoming := ShiftLeft(s.incoming, p + q + 6), phase := ReceivingData), 0)
  {
    hide StrStr, StoreHead, IsHttp1;
  }

  /** A complete head is stored and removed from the incoming data, whatever follows. */
  lemma HeadComplete(r: Response, b: string)
    requires WellFormed(r)
    ensures ProcessHeaders(INIT.(incoming := Head(r) + b)) == (AfterHead(r).(incoming := b), 0)
  {
    hide StrStr, StoreHead, SaysChunked, Numeral, ProcessHeaders, Lower;
    hide H.Print, H.Declared, H.Parse, HeaderStore.Merged;
    var line, block := StatusLine(r), H.Print(r.headers) + CRLF + b;
    var p := Head(r) + b;
    assert p == line + CRLF + block && p[|line| + 2..] == block;
    StatusLinePlain(r);
    assert p[..9] == line[..9];
    FoundAfter(line, CRLF, block);
    BlankLineFound(r.headers, b);
    H.ReadBack(r.headers, b);
    HeadStored(r, block);
    HeadFound(INIT.(incoming := p), |line|, |H.Print(r.headers)| - 2);
    assert p[|Head(r)|..] == b;
  }

  /** The head of a response without a body is recognised if and only if it has a header: the
      blank line is only looked for after the end of the status line. */
  lemma HeadNeedsHeader(r: Response)
    requires GoodStatusLine(r) && (r.headers == [] || WellFormed(r))
    ensures ProcessHeaders(INIT.(incoming := Head(r))).0.phase == ReceivingData <==> r.headers != []
  {
    hide StrStr, StoreHead, SaysChunked, Numeral, H.Declared, HeaderStore.Merged, Lower;
    if r.headers != [] {
      HeadComplete(r, "");
      assert Head(r) + "" == Head(r);
    } else {
      var line, p := StatusLine(r), Head(r);
      StatusLinePlain(r);
      assert p == line + CRLF + CRLF && p[..9] == line[..9] && p[|line| + 2..] == CRLF;
      FoundAfter(line, CRLF, CRLF);
      assert CRLF <= "" + BLANK;
      CutBefore("", BLANK, CRLF);
    }
  }

  // ----- the body

  /** The size line of a chunk that is there with its carriage return. */
  lemma SizeLine(size: string, after: string)
    requires size != "" && AllDigits(size, 16) && Numeral(size, 16, 0) <= ULLONG_MAX
    ensures var raw := size + "\r" + after; FindChunk(raw) == Fits(raw, |size|, Numeral(size, 16, 0))
  {
    hide StrStr, Numeral, ReadNumber, Fits;
    var raw := size + "\r" + after;
    assert '\r' !in size && NUL !in size;
    FoundAfter(size, "\r", after);
    assert raw == size + ("\r" + after);
    ReadNumeral(size, "\r" + after, 16);
  }

  /** When the data of a chunk is copied beyond the incoming data: if and only if a size is there, as
      `strtoull` reads it, the extent of the chunk does not fit in 64 bits, and what is left of it there
      is not more than has come. */
  lemma CopyInside(raw: string)
    requires |raw| < SIZE_MAX - 8
    ensures var n := ReadNumber(raw, 16);
      && (FindChunk(raw) == TooLong <==>
            && StrChr(raw, '\r') >= 0 && n.magnitude <= ULLONG_MAX
            && SIZE_MAX < Extent(n.end, Magnitude(n)) <= SIZE_MAX + 1 + |raw|)
      && (FindChunk(raw) == TooLong ==> n.end + 2 + Magnitude(n) > |raw|)
      && (FindChunk(raw).Whole? ==> n.magnitude <= ULLONG_MAX && n.end + 2 + Magnitude(n) <= |raw|)
  {
    hide StrStr, ReadNumber;
    var n := ReadNumber(raw, 16);
    if n.magnitude <= ULLONG_MAX {
      var total := Extent(n.end, Magnitude(n));
      assert total < 2 * (SIZE_MAX + 1);
      assert total % (SIZE_MAX + 1) == if total > SIZE_MAX then total - SIZE_MAX - 1 else total;
    }
  }

  /** A chunk size of minus one, which `strtoull` takes: five bytes are taken for the whole chunk. */
  lemma MinusOne(after: string)
    requires |after| >= 2
    ensures FindChunk("-1\r" + after) == TooLong
  {
    var raw := "-1" + "\r" + after;
    assert raw == "-1\r" + after;
    FoundAfter("-1", "\r", after);
    SignedOne(after);
    hide StrStr, ReadNumber;
    assert Extent(2, ULLONG_MAX) == SIZE_MAX + 1 + 5;
  }

  lemma SignedOne(after: string)
    ensures ReadNumber("-1" + "\r" + after, 16) == Number(true, 1, 2)
  {
    var raw := "-1" + "\r" + after;
    assert raw[1..] == "1" + ("\r" + after);
    CountDigitsPrefix("1", "\r" + after, 16);
    assert raw[1..2] == "1" && Numeral("1", 16, 0) == 1;
  }

  /** Two to the sixty-fourth less one as a chunk size, which `Sixteen` writes down: nineteen bytes are
      taken for the whole chunk. */
  lemma HugeChunk(size: string, after: string)
    requires |size| == 16 && AllDigits(size, 16) && Numeral(size, 16, 0) == ULLONG_MAX && |after| >= 2
    ensures FindChunk(size + "\r" + after) == TooLong
  {
    hide FindChunk, Numeral, AllDigits;
    SizeLine(size, after);
    assert Extent(16, ULLONG_MAX) == SIZE_MAX + 1 + 19;
  }

  lemma Sixteen()
    ensures |"ffffffffffffffff"| == 16 && AllDigits("ffffffffffffffff", 16)
    ensures Numeral("ffffffffffffffff", 16, 0) == ULLONG_MAX
  {
    var half := "ffffffff";
    assert "ffffffffffffffff" == half + half;
    NumeralConcat(half, half, 16, 0);
    Eight(0);
    Eight(0xFFFF_FFFF);
  }

  lemma Eight(acc: nat)
    ensures Numeral("ffffffff", 16, acc) == acc * 0x1_0000_0000 + 0xFFFF_FFFF
  {
    var quarter := "ffff";
    assert "ffffffff" == quarter + quarter;
    NumeralConcat(quarter, quarter, 16, acc);
    Four(acc);
    Four(acc * 0x1_0000 + 0xFFFF);
  }

  lemma Four(acc: nat)
    ensures Numeral("ffff", 16, acc) == acc * 0x1_0000 + 0xFFFF
  {
    assert "ffff"[1..] == "fff" && "fff"[1..] == "ff" && "ff"[1..] == "f" && "f"[1..] == "";
    assert Numeral("f", 16, acc * 0x1000 + 0xFFF) == acc * 0x1_0000 + 0xFFFF;
    assert Numeral("ff", 16, acc * 0x100 + 0xFF) == acc * 0x1_0000 + 0xFFFF;
  }

  lemma ChunkFound(c: C.Chunk, rest: string)
    requires C.WellFormed(c)
    ensures FindChunk(C.EncodeChunk(c) + rest) == Whole(|c.size|, |c.data|)
  {
    hide Numeral, FindChunk;
    var after := "\n" + c.data + CRLF + rest;
    assert C.EncodeChunk(c) + rest == c.size + "\r" + after;
    SizeLine(c.size, after);
  }

  lemma TakeOneChunk(c: C.Chunk, s: Session, rest: string)
    requires C.WellFormed(c) && s.incoming == C.EncodeChunk(c) + rest
    ensures ChunkLoop(s) == ChunkLoop(s.(body := s.body + c.data, incoming := rest,
                                         readOffset := s.readOffset + |C.EncodeChunk(c)|))
  {
    hide FindChunk, Numeral;
    ChunkFound(c, rest);
    var d := |c.size|;
    assert s.incoming[d + 2..d + 2 + |c.data|] == c.data;
    assert s.incoming[d + 2 + |c.data| + 2..] == rest;
  }

  lemma WaitForChunk(c: C.Chunk, s: Session)
    requires C.WellFormed(c) && s.incoming <= C.EncodeChunk(c) && |s.incoming| < |C.EncodeChunk(c)|
    ensures ChunkLoop(s) == (s, 0)
  {
    hide Numeral, FindChunk;
    var raw, d := s.incoming, |c.size|;
    if |raw| <= d {
      NoSizeLine(c.size, raw);
    } else {
      var after := raw[d + 1..];
      assert raw == c.size + "\r" + after;
      SizeLine(c.size, after);
    }
  }

  lemma NoSizeLine(size: string, raw: string)
    requires AllDigits(size, 16) && raw <= size
    ensures FindChunk(raw) == Wait
  {
    hide StrStr, ReadNumber;
    assert '\r' !in size;
    CutBefore(size, "\r", raw);
  }

  lemma LastChunk(s: Session)
    requires s.incoming <= "0\r\n\r\n"
    ensures ChunkLoop(s) ==
      if |s.incoming| == 5 then (s.(incoming := "", phase := Ready, readOffset := s.readOffset + 5), 0) else (s, 0)
  {
    var raw := s.incoming;
    if |raw| <= 1 {
      NoSizeLine("0", raw);
    } else {
      assert Numeral("0", 16, 0) == 0;
      assert raw == "0" + "\r" + raw[2..];
      SizeLine("0", raw[2..]);
      hide FindChunk;
      if |raw| == 5 {
        var t := Http1Spec.TakeChunk(s, 1, 0);
        assert s.body + raw[3..3] == s.body;
        NoSizeLine("0", "");
        assert ChunkLoop(t) == (t, 0);
      }
    }
  }

  /** On any prefix of an encoded body the loop takes whole chunks and is ready at the end only. */
  lemma {:induction false} ChunkLoopPrefix(cs: seq<C.Chunk>, s: Session, future: string) returns (k: nat)
    requires C.AllWellFormed(cs) && s.incoming + future == C.Encode(cs)
    ensures k <= |cs|
    ensures var (t, result) := ChunkLoop(s);
      && result == 0
      && t == s.(incoming := t.incoming, readOffset := t.readOffset, body := s.body + C.Payload(cs[..k]),
                 phase := if future == "" then Ready else s.phase)
      && (if future == "" then k == |cs| && t.incoming == ""
          else t.incoming + future == C.Encode(cs[k..]))
    decreases |cs|
  {
    hide ChunkLoop, C.EncodeChunk, C.WellFormed;
    k := 0;
    assert cs[0..] == cs && cs[..0] == [] && s.body + "" == s.body;
    if cs == [] {
      C.Overlap(s.incoming, future, "0\r\n\r\n", "");
      LastChunk(s);
    } else {
      assert C.WellFormed(cs[0]);
      var one, tail := C.EncodeChunk(cs[0]), C.Encode(cs[1..]);
      if |s.incoming| < |one| {
        C.Overlap(s.incoming, future, one, tail);
        WaitForChunk(cs[0], s);
      } else {
        C.Overlap(one, tail, s.incoming, future);
        var rest := s.incoming[|one|..];
        TakeOneChunk(cs[0], s, rest);
        var s' := s.(body := s.body + cs[0].data, incoming := rest, readOffset := s.readOffset + |one|);
        var j := ChunkLoopPrefix(cs[1..], s', future);
        k := j + 1;
        assert cs[..k][1..] == cs[1..][..j] && cs[1..][j..] == cs[k..];
        assert s.body + cs[0].data + C.Payload(cs[1..][..j]) == s.body + C.Payload(cs[..k]);
      }
    }
  }

  lemma SameFraming(r: Response, s: Session)
    requires SameHead(r, s)
    ensures SaysChunked(s) == SaysChunked(AfterHead(r))
  {
    hide HeaderStore.Lookup, Lower, CStr;
  }

  /** The loop on what is pending and one more piece, `m` chunks further on. */
  lemma ChunksTaken(cs: seq<C.Chunk>, k: nat, s: Session, piece: string, future: string) returns (m: nat)
    requires C.AllWellFormed(cs) && Taken(cs, k, s) && s.incoming + (piece + future) == C.Encode(cs[k..])
    ensures var (t, result) := ChunkLoop(s.(incoming := s.incoming + piece));
      && result == 0 && Taken(cs, m, t)
      && t == s.(incoming := t.incoming, readOffset := t.readOffset, body := t.body,
                 phase := if future == "" then Ready else s.phase)
      && (if future == "" then m == |cs| && t.incoming == "" else t.incoming + future == C.Encode(cs[m..]))
  {
    hide ChunkLoop, C.Encode, C.Payload, C.AllWellFormed;
    var s' := s.(incoming := s.incoming + piece);
    assert s'.incoming + future == s.incoming + (piece + future);
    C.TailWellFormed(cs, k);
    var n := ChunkLoopPrefix(cs[k..], s', future);
    m := k + n;
    C.PayloadSplit(cs, k, m);
    assert cs[k..][..n] == cs[k..m] && cs[k..][n..] == cs[m..];
  }

  lemma ChunksStep(r: Response, streaming: bool, b: string, piece: string, s: Session)
    requires WellFormed(r) && r.content.InChunks? && Pending(r, streaming, b, s) && b + piece <= Body(r)
    ensures var (t, result) := ChunkLoop(s.(incoming := s.incoming + piece));
      result == 0 && if |b + piece| == |Body(r)| then Done(r, t) else Pending(r, streaming, b + piece, t)
  {
    hide ChunkLoop, C.Encode, C.Payload, C.AllWellFormed, GoodStatusLine, GoodHeaders, AfterHead, SaysChunked;
    var cs := r.content.chunks;
    var k: nat :| Taken(cs, k, s) && s.incoming + C.Encode(cs)[|b|..] == C.Encode(cs[k..]);
    var future := C.Encode(cs)[|b + piece|..];
    assert C.Encode(cs)[|b|..] == piece + future;
    var m := ChunksTaken(cs, k, s, piece, future);
    var t := ChunkLoop(s.(incoming := s.incoming + piece)).0;
    assert Taken(cs, m, t);
    assert cs[..|cs|] == cs;
  }

  lemma SizedStep(r: Response, streaming: bool, b: string, piece: string, s: Session)
    requires WellFormed(r) && r.content.Sized? && Pending(r, streaming, b, s) && b + piece <= Body(r)
    ensures var (t, result) := ProcessData(s.(incoming := s.incoming + piece), streaming);
      result == 0 && if |b + piece| == |Body(r)| then Done(r, t) else Pending(r, streaming, b + piece, t)
  {
    hide ChunkLoop, SaysChunked, GoodStatusLine, GoodHeaders, H.Declared, HeaderStore.Merged;
    SameFraming(r, s.(incoming := s.incoming + piece));
    hide CString.Numeral, AfterHead;
    assert "" + (b + piece) == b + piece && b + ("" + piece) == b + piece;
  }

  /** More of the body: the session goes on waiting, or is done when the body is complete. */
  lemma DataStep(r: Response, streaming: bool, b: string, piece: string, s: Session)
    requires WellFormed(r) && Pending(r, streaming, b, s) && b + piece <= Body(r)
    ensures var (t, result) := ProcessData(s.(incoming := s.incoming + piece), streaming);
      result == 0 && if |b + piece| == |Body(r)| then Done(r, t) else Pending(r, streaming, b + piece, t)
  {
    hide ChunkLoop, Pending, Done, GoodStatusLine, GoodHeaders, SaysChunked, AfterHead;
    if r.content.Sized? {
      SizedStep(r, streaming, b, piece, s);
    } else {
      ChunksStep(r, streaming, b, piece, s);
      PendingHead(r, streaming, b, s);
      SameFraming(r, s.(incoming := s.incoming + piece));
    }
  }

  lemma PendingHead(r: Response, streaming: bool, b: string, s: Session)
    requires Pending(r, streaming, b, s)
    ensures SameHead(r, s) && s.phase == ReceivingData
  {
  }

  /** Right after the head nothing of the body has been given yet. */
  lemma FreshBody(r: Response, streaming: bool)
    ensures Pending(r, streaming, "", AfterHead(r))
  {
    if r.content.InChunks? {
      var cs := r.content.chunks;
      assert cs[..0] == [] && cs[0..] == cs && "" + C.Encode(cs)[0..] == C.Encode(cs);
      assert Taken(cs, 0, AfterHead(r));
    }
  }

  /** One more piece keeps the session where the bytes given so far put it. */
  lemma IngestStep(r: Response, streaming: bool, p: string, piece: string, s: Session)
    requires WellFormed(r) && At(r, streaming, p, s) && p + piece <= Wire(r)
    ensures At(r, streaming, p + piece, Ingest(s, piece, streaming).0) && Ingest(s, piece, streaming).1 == 0
  {
    hide ProcessHeaders, ProcessData, WellFormed, Pending, AfterHead, Head, Body, Data;
    var q, h := p + piece, |Head(r)|;
    if |p| < h {
      if |q| < h {
        assert q <= Head(r);
        HeadIncomplete(r, q);
      } else {
        var b := q[h..];
        assert q == Head(r) + b && b <= Body(r);
        HeadComplete(r, b);
        FreshBody(r, streaming);
        FreshIncoming(r);
        assert "" + b == b;
        DataStep(r, streaming, "", b, AfterHead(r));
      }
    } else if |p| == |Wire(r)| {
      assert piece == "" && s.incoming + piece == s.incoming && p + piece == p;
    } else {
      var b := p[h..];
      assert b + piece == q[h..] && q[h..] <= Body(r);
      PendingHead(r, streaming, b, s);
      DataStep(r, streaming, b, piece, s);
    }
  }

  lemma FreshIncoming(r: Response)
    ensures AfterHead(r).incoming == "" && AfterHead(r).phase == ReceivingData
  {
  }

  lemma {:induction false} EveryPiece(r: Response, streaming: bool, p: string, pieces: seq<string>, s: Session)
    requires WellFormed(r) && At(r, streaming, p, s) && p + Concat(pieces) <= Wire(r)
    ensures At(r, streaming, p + Concat(pieces), IngestAll(s, pieces, streaming))
    decreases |pieces|
  {
    hide At, Ingest, WellFormed, Wire;
    if pieces == [] {
      assert p + "" == p;
    } else {
      assert p + Concat(pieces) == p + pieces[0] + Concat(pieces[1..]);
      assert p + pieces[0] <= p + Concat(pieces);
      IngestStep(r, streaming, p, pieces[0], s);
      EveryPiece(r, streaming, p + pieces[0], pieces[1..], Ingest(s, pieces[0], streaming).0);
    }
  }

  /** For every well-formed response, however it is cut and whether or not the body is streamed:
      the session never fails, is ready exactly when the last byte has been given, and then holds
      the status and the body of the response and, of its headers, what the header table keeps. */
  lemma AnyFragmentation(r: Response, streaming: bool, pieces: seq<string>)
    requires WellFormed(r) && Concat(pieces) <= Wire(r)
    ensures var s := IngestAll(INIT, pieces, streaming);
      && s.phase != Failed
      && (s.phase == Ready <==> Concat(pieces) == Wire(r))
      && (s.phase == Ready ==> s.status == Numeral(r.code, 10, 0) && s.headers == HeaderStore.Merged(r.headers)
                               && s.body == Data(r) && s.incoming == "")
  {
    hide IngestAll, Body, Data, Numeral, HeaderStore.Merged, WellFormed;
    assert "" + Concat(pieces) == Concat(pieces);
    assert |Head(r)| > 0;
    EveryPiece(r, streaming, "", pieces, INIT);
    var s, p := IngestAll(INIT, pieces, streaming), Concat(pieces);
    assert At(r, streaming, p, s);
    assert |p| == |Wire(r)| ==> p == Wire(r);
  }

  /** The session object, fed any pieces of a response and then asked for headers: each name, in any
      case, has the last value that was sent for it. */
  method ReceiveResponse(r: Response, streaming: bool, pieces: seq<string>,
                         hash: string -> nat, now: int, names: seq<string>)
      returns (status: int, values: seq<Option<string>>, body: string, ready: bool)
    requires WellFormed(r) && Concat(pieces) <= Wire(r) && "" !in names
    ensures ready <==> Concat(pieces) == Wire(r)
    ensures ready ==> status == Numeral(r.code, 10, 0) && body == Data(r)
    ensures ready ==> |values| == |names|
    ensures ready ==> forall i :: 0 <= i < |names| ==> values[i] == HeaderStore.LastValue(r.headers, Lower(names[i]))
  {
    hide Ingest, WellFormed, Wire, Data, HeaderStore.Merged, HeaderStore.Lookup, Lower, ClientSession.Valid;
    var c := new ClientSession(streaming, hash);
    for i := 0 to |pieces|
      invariant fresh(c) && fresh(c.table) && fresh(c.table.Objects()) && c.Valid() && c.streaming == streaming
      invariant IngestAll(c.View(), pieces[i..], streaming) == IngestAll(INIT, pieces, streaming)
    {
      assert pieces[i..][1..] == pieces[i + 1..];
      var _ := c.Feed(pieces[i], now);
    }
    AnyFragmentation(r, streaming, pieces);
    status, body, ready, values := c.status, c.body, c.phase == Ready, [];
    for i := 0 to |names|
      invariant fresh(c) && fresh(c.table) && fresh(c.table.Objects()) && c.Valid()
      invariant ready ==> c.headers == HeaderStore.Merged(r.headers)
      invariant |values| == i
      invariant ready ==> forall j :: 0 <= j < i ==> values[j] == HeaderStore.LastValue(r.headers, Lower(names[j]))
    {
      HeaderStore.LastWins(r.headers, Lower(names[i]));
      var v := c.GetHeader(names[i], now);
      values := values + [v];
    }
  }
}
