/** What the client makes of responses that are not well-formed. */
module Http1Errors {
  import opened CString
  import opened Options
  import opened Notation
  import opened Lists
  import opened Http1Spec
  import opened Http1Runs
  import opened Http1Framing
  import H = Http1Headers
  import HeaderStore

  // ----- no version

  /** The session while less than nine bytes have come, and after that. */
  function OldSession(text: string): Session
  {
    if |text| < 9 then INIT.(incoming := text) else INIT.(incoming := text, status := 200, phase := Ready)
  }

  lemma OldPiece(text: string, piece: string, streaming: bool)
    requires |text + piece| >= 9 ==> !SaysHttp1((text + piece)[..9])
    ensures Ingest(OldSession(text), piece, streaming).0 == OldSession(text + piece)
  {
    hide StrStr, SaysHttp1, IsHttp1;
    var all := text + piece;
    if |all| >= 9 { VersionWord(all); }
  }

  /** A text that does not begin with a version, however it is cut, is taken for the answer of an old server:
      it is ready with status 200 as soon as nine bytes have come, without headers and without a body. */
  lemma {:induction false} OldAnswer(text: string, pieces: seq<string>, streaming: bool)
    requires |text + Concat(pieces)| >= 9 ==> !SaysHttp1((text + Concat(pieces))[..9])
    ensures IngestAll(OldSession(text), pieces, streaming) == OldSession(text + Concat(pieces))
    decreases |pieces|
  {
    hide Ingest, SaysHttp1, OldSession;
    if pieces == [] {
      assert text + Concat(pieces) == text;
    } else {
      var all, now := text + Concat(pieces), text + pieces[0];
      assert all == now + Concat(pieces[1..]);
      if |now| >= 9 { assert now[..9] == all[..9]; }
      OldPiece(text, pieces[0], streaming);
      OldAnswer(now, pieces[1..], streaming);
    }
  }

  // ----- the status

  /** The integer the code keeps of a status. */
  function Kept(k: nat): nat { k % 0x1_0000_0000 }

  predicate InRange(k: nat) { k <= ULLONG_MAX && 100 <= Kept(k) <= 599 }

  lemma StatusNumber(k: nat, rest: string)
    requires rest != "" && rest[0] !in FIGURES && |FIGURES| == 10
    ensures var status := ToInt(H.StrToUll(Digits(k, FIGURES) + rest));
      (100 <= status <= 599 <==> InRange(k)) && (InRange(k) ==> status == Kept(k))
  {
    hide Digits, ReadNumber;
    AllFigures();
    DigitsRead(k, FIGURES);
    NotFigure(rest[0]);
    ReadNumeral(Digits(k, FIGURES), rest, 10);
  }

  /** A complete head: version, a status of any size, and headers. */
  predicate AnyStatus(r: Response, k: nat)
  {
    FigureCode(0);
    && SaysHttp1(r.version) && r.code == Digits(k, FIGURES)
    && '\r' !in r.reason && NUL !in r.reason && (r.reason == "" || r.reason[0] !in FIGURES)
    && GoodHeaders(r.headers)
  }

  lemma LinePlain(r: Response, k: nat)
    requires AnyStatus(r, k)
    ensures '\r' !in StatusLine(r) && NUL !in StatusLine(r)
    ensures |StatusLine(r)| >= 9 && StatusLine(r)[..9] == r.version && StatusLine(r)[9..] == r.code + r.reason
  {
    hide Digits, GoodHeaders, DigitValue, SaysHttp1;
    AllFigures();
    DigitsRead(k, FIGURES);
    Breaks();
    VersionPlain(r.version);
  }

  lemma VersionPlain(version: string)
    requires SaysHttp1(version)
    ensures |version| == 9 && '\r' !in version && NUL !in version
  {
    forall c | c in version ensures c != '\r' && c != NUL {
      var i :| 0 <= i < |version| && version[i] == c;
    }
  }

  lemma Breaks()
    ensures !IsDigit('\r', 10) && !IsDigit(NUL, 10)
  {
  }

  /** The head is refused if and only if its status, in 64 bits and then in 32, is not from 100 to 599. */
  lemma StatusRange(r: Response, k: nat, b: string)
    requires AnyStatus(r, k)
    ensures var (s, result) := ProcessHeaders(INIT.(incoming := Head(r) + b));
      if InRange(k) then result == 0 && s.phase == ReceivingData && s.status == Kept(k) && s.incoming == b
      else result == -1 && s.phase == Failed
  {
    hide StrStr, StoreHead, Digits, Lower, IsHttp1, InRange, SaysHttp1, ProcessHeaders, Head, StatusLine;
    hide H.Print, H.Declared, H.Parse, GoodHeaders;
    FigureCode(0);
    LinePlain(r, k);
    var line, block, p := StatusLine(r), H.Print(r.headers) + CRLF + b, Head(r) + b;
    HeadParts(r, b);
    VersionWord(p);
    FoundAfter(line, CRLF, block);
    BlankLineFound(r.headers, b);
    BlockRead(r, b);
    StatusStored(r, k, p, block);
    HeadRead(INIT.(incoming := p), |line|, |H.Print(r.headers)| - 2);
  }

  lemma BlockRead(r: Response, b: string)
    requires GoodHeaders(r.headers)
    ensures H.Parse(H.Print(r.headers) + CRLF + b).ok
  {
    hide H.Print, H.Parse, H.Declared, H.WellFormed, H.PlainLength;
    H.ReadBack(r.headers, b);
  }

  lemma HeadParts(r: Response, b: string)
    requires |StatusLine(r)| >= 9
    ensures var line, block, p := StatusLine(r), H.Print(r.headers) + CRLF + b, Head(r) + b;
      && p == line + CRLF + block && p[|line| + 2..] == block && p[..9] == line[..9]
      && ShiftLeft(p, |line| + |H.Print(r.headers)| + 4) == b
  {
    hide H.Print, StatusLine;
    var p := Head(r) + b;
    assert p[|Head(r)|..] == b;
  }

  lemma HeadRead(s: Session, p: nat, q: nat)
    requires |s.incoming| >= 9 && IsHttp1(s.incoming) && s.status <= 0
    requires StrStr(s.incoming, CRLF) == p && StrStr(s.incoming[p + 2..], BLANK) == q
    ensures ProcessHeaders(s) == var t := StoreHead(s, s.incoming, s.incoming[p + 2..]);
      if t.phase == Failed then (t, -1)
      else (t.(incoming := ShiftLeft(s.incoming, p + q + 6), phase := ReceivingData), 0)
  {
    hide StrStr, StoreHead, IsHttp1;
  }

  lemma StatusStored(r: Response, k: nat, p: string, block: string)
    requires AnyStatus(r, k) && p == StatusLine(r) + CRLF + block && |p| >= 9
    requires H.Parse(block).ok
    ensures var t := StoreHead(INIT.(incoming := p), p, block);
      && t.incoming == p && (t.phase == Failed <==> !InRange(k)) && (InRange(k) ==> t.status == Kept(k))
      && (t.phase == Failed || t.phase == ReceivingHeaders)
  {
    hide H.Parse, ToInt, H.StrToUll, Digits, InRange, SaysHttp1, GoodHeaders, HeaderStore.SetAll;
    FigureCode(0);
    LinePlain(r, k);
    var rest := r.reason + CRLF + block;
    assert p[9..] == r.code + rest;
    assert rest[0] == if r.reason == "" then '\r' else r.reason[0];
    NotCr();
    StatusNumber(k, rest);
  }

  lemma NotCr()
    ensures '\r' !in FIGURES
  {
  }

  // ----- header lines

  /** A line without a colon, with none after it either, ends the parse; what came before is kept. */
  lemma {:induction false} NoColon(hs: seq<Header>, rest: string)
    requires (forall h <- hs :: H.WellFormed(h) && H.PlainLength(h)) && ':' !in rest
    requires rest == "" || rest[0] != '\r'
    ensures H.Parse(H.Print(hs) + rest) == H.Parsed(false, hs, H.Declared(hs))
  {
    hide H.Parse, H.PrintHeader, H.WellFormed, H.PlainLength, Numeral, Lower;
    if hs == [] {
      assert H.Print(hs) + rest == rest;
      NoTerm(rest);
    } else {
      var more := H.Print(hs[1..]) + rest;
      assert H.Print(hs) + rest == H.PrintHeader(hs[0]) + more;
      assert hs[0] in hs;
      H.HeaderReadBack(hs[0], more);
      NoColon(hs[1..], rest);
      assert [hs[0]] + hs[1..] == hs;
    }
  }

  lemma NoTerm(rest: string)
    requires ':' !in rest && (rest == "" || rest[0] != '\r')
    ensures H.Parse(rest) == H.MALFORMED
  {
    hide StrStr, H.LeadingSpaces;
    var a := rest[H.LeadingSpaces(rest)..];
    forall k: nat {:trigger a[k..]} | k <= |a| ensures !([':'] <= a[k..]) {
      if k < |a| { assert a[k..][0] == a[k] && a[k] in rest; }
    }
    NotFound(a, [':']);
  }

  /** A head with such a line is refused, with the headers before it in the table. */
  lemma MalformedHead(r: Response, k: nat, junk: string, tail: string)
    requires AnyStatus(r, k) && InRange(k) && junk != "" && junk[0] != '\r' && NUL !in junk && ':' !in junk + tail
    ensures var p := StatusLine(r) + CRLF + (H.Print(r.headers) + (junk + BLANK + tail));
      var (s, result) := ProcessHeaders(INIT.(incoming := p));
      result == -1 && s.phase == Failed && s.headers == HeaderStore.Merged(r.headers)
  {
    hide StrStr, StoreHead, Lower, IsHttp1, InRange, SaysHttp1, H.Print, GoodHeaders, HeaderStore.SetAll;
    FigureCode(0);
    LinePlain(r, k);
    var line, block := StatusLine(r), H.Print(r.headers) + (junk + BLANK + tail);
    var p := line + CRLF + block;
    assert p[|line| + 2..] == block && p[..9] == line[..9];
    VersionWord(p);
    FoundAfter(line, CRLF, block);
    BlankThere(r.headers, junk, tail);
    JunkStored(r, k, p, junk, tail);
  }

  lemma BlankThere(hs: seq<Header>, junk: string, tail: string)
    requires GoodHeaders(hs) && NUL !in junk
    ensures StrStr(H.Print(hs) + (junk + BLANK + tail), BLANK) >= 0
  {
    hide StrStr, H.Print;
    PrintPlain(hs);
    var before := H.Print(hs) + junk;
    var block := H.Print(hs) + (junk + BLANK + tail);
    assert block == before + (BLANK + tail) && block[|before|..] == BLANK + tail && block[..|before|] == before;
    FoundBefore(block, BLANK, |before|);
  }

  lemma JunkStored(r: Response, k: nat, p: string, junk: string, tail: string)
    requires AnyStatus(r, k) && InRange(k) && junk != "" && junk[0] != '\r' && ':' !in junk + tail
    requires var block := H.Print(r.headers) + (junk + BLANK + tail); p == StatusLine(r) + CRLF + block && |p| >= 9
    ensures var t := StoreHead(INIT.(incoming := p), p, H.Print(r.headers) + (junk + BLANK + tail));
      t.phase == Failed && t.headers == HeaderStore.Merged(r.headers)
  {
    hide ToInt, H.StrToUll, Digits, InRange, SaysHttp1, H.Print, H.Declared, H.Parse, HeaderStore.SetAll;
    FigureCode(0);
    LinePlain(r, k);
    var rest := junk + BLANK + tail;
    var block := H.Print(r.headers) + rest;
    assert ':' !in rest;
    NoColon(r.headers, rest);
    var after := r.reason + CRLF + block;
    assert p[9..] == r.code + after;
    assert after[0] == if r.reason == "" then '\r' else r.reason[0];
    NotCr();
    StatusNumber(k, after);
  }

  lemma {:induction false} PrintPlain(hs: seq<Header>)
    requires forall h <- hs :: H.WellFormed(h)
    ensures NUL !in H.Print(hs)
  {
    if hs != [] {
      assert hs[0] in hs;
      PrintPlain(hs[1..]);
    }
  }

  // ----- chunk sizes

  /** A size that does not fit in 64 bits fails the session; one that does never fails it that way. */
  lemma SizeTooLong(s: Session, size: string, n: nat, after: string)
    requires IsHex(size, n) && s.incoming == size + "\r" + after
    ensures FindChunk(s.incoming) == Bad <==> n > ULLONG_MAX
    ensures n > ULLONG_MAX ==> ChunkLoop(s) == (s.(phase := Failed), -1)
  {
    hide StrStr, StrChr, ReadNumber, IsHex, ChunkLoop, FindChunk;
    HexLine(size, n, after);
    SizeRead(s.incoming, n, |size|);
    if n > ULLONG_MAX { BadSize(s); }
  }

  lemma HexLine(size: string, n: nat, after: string)
    requires IsHex(size, n)
    ensures var raw := size + "\r" + after; StrChr(raw, '\r') >= 0 && ReadNumber(raw, 16) == Number(false, n, |size|)
  {
    hide StrStr, Numeral, ReadNumber, IsHex, AllDigits, IsDigit;
    HexRead(size, n);
    NoBreaks(size);
    FoundAfter(size, "\r", after);
    NotHex();
    var rest := "\r" + after;
    assert size + "\r" + after == size + rest && rest[0] == '\r';
    ReadNumeral(size, rest, 16);
  }

  lemma SizeRead(raw: string, n: nat, d: nat)
    requires raw != "" && StrChr(raw, '\r') >= 0 && ReadNumber(raw, 16) == Number(false, n, d)
    ensures FindChunk(raw) == Bad <==> n > ULLONG_MAX
  {
    hide StrStr, ReadNumber, StrChr;
  }

  lemma BadSize(s: Session)
    requires FindChunk(s.incoming) == Bad
    ensures ChunkLoop(s) == (s.(phase := Failed), -1)
  {
    hide FindChunk;
  }

  lemma NotHex()
    ensures !IsDigit('\r', 16)
  {
  }

  lemma NoBreaks(size: string)
    requires AllDigits(size, 16)
    ensures '\r' !in size && NUL !in size
  {
  }
}
