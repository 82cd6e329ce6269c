/**
  Which characters frame a response: the names, values and versions the client looks for are spelled out here,
  in any case, and sizes are printed in decimal and hexadecimal figures. Every split of such a response ends
  ready with its body.
 */
module Http1Framing {
  import opened CString
  import opened Options
  import opened Notation
  import opened Lists
  import opened Http1Spec
  import opened Http1Runs
  import H = Http1Headers
  import HeaderStore
  import C = Chunked

  predicate NamesLength(name: string) { InAnyCase(name, "CONTENT-LENGTH", "content-length") }

  predicate BeginsChunked(value: string) { |value| >= 7 && InAnyCase(value[..7], "CHUNKED", "chunked") }

  predicate SaysHttp1(version: string)
  {
    InAnyCase(version, "HTTP/1.1 ", "http/1.1 ") || InAnyCase(version, "HTTP/1.0 ", "http/1.0 ")
  }

  // ----- the words

  lemma LengthName(name: string)
    ensures H.IsContentLength(name) <==> NamesLength(name)
  {
    assert Lower("CONTENT-LENGTH") == "content-length";
    AnyCaseFolds(name, "CONTENT-LENGTH", "content-length");
  }

  lemma VersionWord(line: string)
    requires |line| >= 9
    ensures IsHttp1(line) <==> SaysHttp1(line[..9])
  {
    assert Lower("HTTP/1.1 ") == "http/1.1 " && Lower("HTTP/1.0 ") == "http/1.0 ";
    AnyCaseFolds(line[..9], "HTTP/1.1 ", "http/1.1 ");
    AnyCaseFolds(line[..9], "HTTP/1.0 ", "http/1.0 ");
  }

  lemma ChunkedWord(value: string)
    ensures BeginsChunked(value) <==> |value| >= 7 && Lower(value[..7]) == "chunked"
  {
    if |value| >= 7 {
      assert Lower("CHUNKED") == "chunked";
      AnyCaseFolds(value[..7], "CHUNKED", "chunked");
    }
  }

  /** The value of the last header of a name, in any case. */
  function LastOf(hs: seq<Header>, upper: string, lower: string): Option<string>
  {
    if hs == [] then None
    else var later := LastOf(hs[1..], upper, lower);
         if later.Some? || !InAnyCase(hs[0].name, upper, lower) then later else Some(hs[0].value)
  }

  lemma {:induction false} LastOfIs(hs: seq<Header>, upper: string, lower: string)
    requires NoLower(upper) && Lower(upper) == lower
    ensures LastOf(hs, upper, lower) == HeaderStore.LastValue(hs, lower)
  {
    if hs != [] {
      hide Lower, InAnyCase, NoLower;
      LastOfIs(hs[1..], upper, lower);
      AnyCaseFolds(hs[0].name, upper, lower);
    }
  }

  /** The last Transfer-Encoding says that the body comes in chunks. */
  predicate LastChunked(hs: seq<Header>)
  {
    var te := LastOf(hs, "TRANSFER-ENCODING", "transfer-encoding"); te.Some? && BeginsChunked(te.value)
  }

  lemma {:induction false} LastIsOne(hs: seq<Header>, upper: string, lower: string)
    ensures var v := LastOf(hs, upper, lower);
      v.Some? ==> exists h <- hs :: InAnyCase(h.name, upper, lower) && h.value == v.value
  {
    hide InAnyCase;
    if hs != [] {
      LastIsOne(hs[1..], upper, lower);
      var v := LastOf(hs, upper, lower);
      if v.Some? {
        if LastOf(hs[1..], upper, lower).Some? {
          var h :| h in hs[1..] && InAnyCase(h.name, upper, lower) && h.value == v.value;
          assert h in hs;
        } else {
          assert hs[0] in hs;
        }
      }
    }
  }

  lemma {:induction false} NoNul(s: string)
    requires NUL !in s
    ensures CStr(s) == s
  {
    if s != "" {
      assert s[0] in s;
      NoNul(s[1..]);
    }
  }

  /** The client takes the body for chunked if and only if the last Transfer-Encoding says so and no length is
      declared. */
  lemma ChunkedHead(r: Response)
    requires forall h <- r.headers :: H.WellFormed(h)
    ensures SaysChunked(AfterHead(r)) <==> Length(r.headers) == 0 && LastChunked(r.headers)
  {
    hide InAnyCase, Lower, H.Declared, HeaderStore.Merged, BeginsChunked;
    var hs := r.headers;
    EncodingWord();
    LastOfIs(hs, "TRANSFER-ENCODING", "transfer-encoding");
    HeaderStore.LastWins(hs, "transfer-encoding");
    var te := LastOf(hs, "TRANSFER-ENCODING", "transfer-encoding");
    if te.Some? {
      LastIsOne(hs, "TRANSFER-ENCODING", "transfer-encoding");
      var h :| h in hs && h.value == te.value && H.WellFormed(h);
      NoNul(te.value);
      ChunkedWord(te.value);
    }
  }

  lemma EncodingWord()
    ensures NoLower("TRANSFER-ENCODING") && Lower("TRANSFER-ENCODING") == "transfer-encoding"
  {
  }

  // ----- lengths

  /** Every header that declares a length says `n`. */
  predicate AllSay(hs: seq<Header>, n: nat)
  {
    FigureCode(0);
    forall h <- hs :: NamesLength(h.name) ==> h.value == Digits(n, FIGURES)
  }

  lemma DecimalRead(n: nat)
    requires n <= ULLONG_MAX
    ensures |FIGURES| == 10
    ensures var s := Digits(n, FIGURES); |s| <= 20 && AllDigits(s, 10) && Numeral(s, 10, 0) == n
  {
    AllFigures();
    DigitsRead(n, FIGURES);
    hide Digits, Numeral;
    PowerOfTen();
    DigitsCount(n, FIGURES, 20);
  }

  lemma PowerOfTen()
    ensures Power(10, 20) == 100_000_000_000_000_000_000
  {
    assert Power(10, 5) == 100_000;
    assert Power(10, 10) == 10_000_000_000 by { assert Power(10, 7) == 10_000_000; }
    assert Power(10, 15) == 1_000_000_000_000_000 by { assert Power(10, 12) == 1_000_000_000_000; }
    assert Power(10, 17) == 100_000_000_000_000_000;
  }

  lemma {:induction false} DeclaredAs(hs: seq<Header>, n: nat)
    requires AllSay(hs, n) && n <= ULLONG_MAX
    ensures (forall h <- hs :: H.PlainLength(h))
    ensures H.Declared(hs) == if exists h <- hs :: NamesLength(h.name) then Some(n) else None
  {
    hide Digits, Numeral, H.IsContentLength, NamesLength;
    DecimalRead(n);
    if hs != [] {
      LengthName(hs[0].name);
      assert hs[0] in hs;
      assert forall h <- hs[1..] :: h in hs;
      DeclaredAs(hs[1..], n);
      assert forall h <- hs :: h == hs[0] || h in hs[1..];
    }
  }

  // ----- whole responses

  predicate GoodStart(r: Response, k: nat)
  {
    FigureCode(0);
    && SaysHttp1(r.version) && 100 <= k <= 599 && r.code == Digits(k, FIGURES)
    && '\r' !in r.reason && NUL !in r.reason && (r.reason == "" || r.reason[0] !in FIGURES)
    && r.headers != [] && forall h <- r.headers :: H.WellFormed(h)
  }

  lemma StatusGood(r: Response, k: nat)
    requires GoodStart(r, k)
    ensures GoodStatusLine(r) && Numeral(r.code, 10, 0) == k
  {
    hide H.WellFormed, Numeral, Lower, IsHttp1;
    assert r.version[..9] == r.version;
    VersionWord(r.version);
    forall c | c in r.version ensures c != '\r' && c != NUL {
      var i :| 0 <= i < |r.version| && r.version[i] == c;
    }
    DecimalRead(k);
    ThreeFigures(k);
    if r.reason != "" { NotFigure(r.reason[0]); }
  }

  lemma ThreeFigures(k: nat)
    requires 100 <= k <= 999 && |FIGURES| == 10
    ensures |Digits(k, FIGURES)| == 3
  {
    assert |Digits(k / 10 / 10, FIGURES)| == 1;
    assert |Digits(k / 10, FIGURES)| == 2;
  }

  lemma NotFigure(c: char)
    ensures c !in FIGURES ==> !IsDigit(c, 10)
  {
    if IsDigit(c, 10) {
      FigureCode(DigitValue(c));
      assert FIGURES[DigitValue(c)] == c;
    }
  }

  /** A body of a declared length, or of none: every header that declares a length says how long it is. */
  predicate SizedFrame(r: Response)
  {
    && r.content.Sized? && |r.content.data| <= ULLONG_MAX && AllSay(r.headers, |r.content.data|)
    && if r.content.data == "" then !LastChunked(r.headers) else exists h <- r.headers :: NamesLength(h.name)
  }

  /** A body in chunks whose sizes are hexadecimal in any case, and no length but zero is declared. */
  predicate ChunkedFrame(r: Response)
  {
    && r.content.InChunks? && LastChunked(r.headers) && AllSay(r.headers, 0)
    && forall c <- r.content.chunks :: 0 < |c.data| <= LONG_MAX && IsHex(c.size, |c.data|)
  }

  lemma HexChunk(c: C.Chunk)
    requires 0 < |c.data| <= LONG_MAX && IsHex(c.size, |c.data|)
    ensures C.WellFormed(c)
  {
    hide Digits;
    HexRead(c.size, |c.data|);
    AllFigures();
    PowerOfSixteen();
    DigitsCount(|c.data|, HEX_LOWER, 16);
  }

  lemma PowerOfSixteen()
    ensures Power(16, 16) > LONG_MAX
  {
    assert Power(16, 5) == 0x10_0000;
    assert Power(16, 10) == 0x100_0000_0000 by { assert Power(16, 8) == 0x1_0000_0000; }
    assert Power(16, 13) == 0x10_0000_0000_0000;
  }

  /** What is framed by these characters is well-formed for the client. */
  lemma Framed(r: Response, k: nat)
    requires GoodStart(r, k) && (SizedFrame(r) || ChunkedFrame(r))
    ensures WellFormed(r) && Numeral(r.code, 10, 0) == k
  {
    hide GoodStatusLine, Numeral, AfterHead, SaysChunked, H.Declared, LastChunked, NamesLength, IsHex, Digits;
    StatusGood(r, k);
    ChunkedHead(r);
    DeclaredAs(r.headers, if r.content.Sized? then |r.content.data| else 0);
    if r.content.InChunks? {
      forall c | c in r.content.chunks ensures C.WellFormed(c) { HexChunk(c); }
    }
  }

  /** For every such response and every split of it: the session is ready exactly at the last byte, with the
      status and with the data that was framed. */
  lemma FramedBody(r: Response, k: nat, streaming: bool, pieces: seq<string>)
    requires GoodStart(r, k) && (SizedFrame(r) || ChunkedFrame(r)) && Concat(pieces) <= Wire(r)
    ensures var s := IngestAll(INIT, pieces, streaming);
      && s.phase != Failed && (s.phase == Ready <==> Concat(pieces) == Wire(r))
      && (s.phase == Ready ==> s.status == k && s.body == Data(r))
  {
    hide IngestAll, WellFormed, Numeral, Wire, Data, GoodStart, SizedFrame, ChunkedFrame;
    Framed(r, k);
    AnyFragmentation(r, streaming, pieces);
  }

  /** The session object on such a response. */
  method ReceiveFramed(r: Response, k: nat, streaming: bool, pieces: seq<string>, hash: string -> nat, now: int)
      returns (status: int, body: string, ready: bool)
    requires GoodStart(r, k) && (SizedFrame(r) || ChunkedFrame(r)) && Concat(pieces) <= Wire(r)
    ensures ready <==> Concat(pieces) == Wire(r)
    ensures ready ==> status == k && body == match r.content case Sized(d) => d case InChunks(cs) => C.Payload(cs)
  {
    hide WellFormed, Numeral, Wire, GoodStart, SizedFrame, ChunkedFrame;
    Framed(r, k);
    var values;
    status, values, body, ready := ReceiveResponse(r, streaming, pieces, hash, now, []);
  }

  const HELLO := Response("HTTP/1.1 ", "200", " OK", [H.Header("Content-Length", "5")], Sized("hello"))

  lemma HelloText()
    ensures Wire(HELLO) == "HTTP/1.1 200 OK\r\n" + "Content-Length: 5\r\n" + "\r\n" + "hello"
  {
    assert HELLO.headers[1..] == [];
    assert H.Print(HELLO.headers) == "Content-Length: 5\r\n" + "";
  }

  lemma HelloNumbers()
    ensures |FIGURES| == 10 && Digits(200, FIGURES) == "200" && Digits(5, FIGURES) == "5"
  {
    FigureCode(0); FigureCode(2); FigureCode(5);
    assert Digits(2, FIGURES) == "2";
    assert Digits(20, FIGURES) == "2" + "0";
  }

  lemma HelloStarts()
    ensures GoodStart(HELLO, 200)
  {
    hide Digits, SaysHttp1, H.WellFormed;
    HelloNumbers();
    HelloVersion();
    HelloHeader();
    FigureCode(0);
    NoSpace();
  }

  lemma HelloHeader()
    ensures H.WellFormed(HELLO.headers[0])
  {
  }

  lemma NoSpace()
    ensures ' ' !in FIGURES
  {
  }

  lemma HelloVersion()
    ensures SaysHttp1("HTTP/1.1 ")
  {
  }

  lemma HelloFramed()
    ensures SizedFrame(HELLO)
  {
    hide Digits, LastOf;
    HelloNumbers();
    HelloNames();
    hide NamesLength;
    assert HELLO.headers[0] in HELLO.headers;
  }

  lemma HelloNames()
    ensures NamesLength("Content-Length")
  {
  }

  /** For instance a response of five bytes. */
  lemma Hello(pieces: seq<string>, streaming: bool)
    requires Concat(pieces) == "HTTP/1.1 200 OK\r\n" + "Content-Length: 5\r\n" + "\r\n" + "hello"
    ensures var s := IngestAll(INIT, pieces, streaming); s.phase == Ready && s.status == 200 && s.body == "hello"
  {
    hide IngestAll, GoodStart, SizedFrame, Wire;
    HelloText();
    HelloStarts();
    HelloFramed();
    FramedBody(HELLO, 200, streaming, pieces);
  }
}
