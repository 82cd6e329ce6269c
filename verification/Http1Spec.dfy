/**
  What the HTTP/1 client session does with each piece of a response it is given, as functions on
  the state of the session.
 */
module Http1Spec {
  import opened CString
  import Http1Headers
  import HeaderStore

  type Header = Http1Headers.Header

  const BLANK := "\r\n\r\n"

  /** `Overrun`: more bytes than there are were to be copied; nothing is said of what happens then. */
  datatype Phase = ReceivingHeaders | ReceivingData | Ready | Failed | Overrun

  /** `headers` are the names and values in the header table, in the order of insertion. */
  datatype Session = Session(
    incoming: string,
    phase: Phase,
    status: int,
    headers: seq<Header>,
    contentLength: nat,
    body: string,
    readOffset: nat)

  const INIT := Session("", ReceivingHeaders, 0, [], 0, "", 0)

  predicate IsHttp1(line: string)
    requires |line| >= 9
  {
    var v := Lower(line[..9]);
    v == "http/1.1 " || v == "http/1.0 "
  }

  /** A 64-bit value converted to a 32-bit signed integer. */
  function ToInt(n: nat): int { (n + 0x8000_0000) % 0x1_0000_0000 - 0x8000_0000 }

  predicate SaysChunked(s: Session)
  {
    && s.contentLength == 0
    && var te := HeaderStore.Lookup(s.headers, "transfer-encoding");
       te.Some? && var v := CStr(te.value); |v| >= 7 && Lower(v[..7]) == "chunked"
  }

  function ShiftLeft(s: string, positions: nat): string
  {
    if positions < |s| then s[positions..] else ""
  }

  function ProcessHeaders(s: Session): (r: (Session, int))
  {
    var line := s.incoming;
    if |line| < 9 then (s, 0)
    else if !IsHttp1(line) then (s.(status := 200, phase := ReceivingData), 0)
    else
      var p := StrStr(line, CRLF);
      if p < 0 then (s, 0)
      else
        var block := line[p + 2..];
        var q := StrStr(block, BLANK);
        if q < 0 then (s, 0)
        else
          var t := if s.status <= 0 then StoreHead(s, line, block) else s;
          if t.phase == Failed then (t, -1)
          else (t.(incoming := ShiftLeft(line, p + 2 + q + 4), phase := ReceivingData), 0)
  }

  function StoreHead(s: Session, line: string, block: string): (t: Session)
    requires |line| >= 9
  {
    var status := ToInt(Http1Headers.StrToUll(line[9..]));
    if status < 100 || status > 599 then s.(status := status, phase := Failed)
    else
      var p := Http1Headers.Parse(block);
      s.(status := status, phase := if p.ok then s.phase else Failed,
         headers := HeaderStore.SetAll(s.headers, p.headers),
         contentLength := if p.declared.Some? then p.declared.value else s.contentLength)
  }

  function ProcessData(s: Session, streaming: bool): (r: (Session, int))
  {
    if SaysChunked(s) then ChunkLoop(s)
    else if s.contentLength == 0 then (s.(phase := Ready), 0)
    else if s.readOffset + |s.incoming| < s.contentLength then
      if streaming
      then (s.(readOffset := s.readOffset + |s.incoming|, body := s.body + s.incoming, incoming := ""), 0)
      else (s, 0)
    else (s.(body := s.body + s.incoming, phase := Ready, incoming := ""), 0)
  }

  /** What one round of the chunk loop finds at the front of the incoming data. */
  datatype Round = Wait | Bad | TooLong | Whole(digits: nat, length: nat)

  /** The bytes a chunk takes with its size line and line ends, before they are cut to 64 bits. */
  function Extent(digits: nat, length: nat): nat { digits + 2 + length + 2 }

  /** `strtoull` on a number within 64 bits. */
  function Magnitude(n: Number): nat
    requires n.magnitude <= ULLONG_MAX
  {
    if n.negative && n.magnitude > 0 then ULLONG_MAX + 1 - n.magnitude else n.magnitude
  }

  /** The extent is kept in 64 bits, so that of a huge chunk looks small. */
  function FindChunk(raw: string): (r: Round)
    ensures r.Whole? ==> Extent(r.digits, r.length) <= |raw|
  {
    if raw == "" || StrChr(raw, '\r') < 0 then Wait
    else
      var n := ReadNumber(raw, 16);
      if n.magnitude > ULLONG_MAX then Bad else Fits(raw, n.end, Magnitude(n))
  }

  function Fits(raw: string, digits: nat, length: nat): (r: Round)
    ensures r.Whole? ==> r == Whole(digits, length) && Extent(digits, length) <= |raw|
  {
    var required := Extent(digits, length) % (SIZE_MAX + 1);
    if |raw| < required then Wait
    else if Extent(digits, length) > SIZE_MAX then TooLong
    else Whole(digits, length)
  }

  /** Takes whole chunks off the incoming data. */
  function ChunkLoop(s: Session): (r: (Session, int))
    decreases |s.incoming|
  {
    match FindChunk(s.incoming)
    case Wait => (s, 0)
    case Bad => (s.(phase := Failed), -1)
    case TooLong => (s.(phase := Overrun), -1)
    case Whole(digits, length) => ChunkLoop(TakeChunk(s, digits, length))
  }

  function TakeChunk(s: Session, digits: nat, length: nat): (t: Session)
    requires Extent(digits, length) <= |s.incoming|
    ensures |t.incoming| < |s.incoming|
  {
    var required := Extent(digits, length);
    s.(body := s.body + s.incoming[digits + 2..digits + 2 + length],
       phase := if length > 0 then s.phase else Ready,
       incoming := ShiftLeft(s.incoming, required),
       readOffset := s.readOffset + required)
  }

  function Ingest(s: Session, bytes: string, streaming: bool): (r: (Session, int))
  {
    var t := s.(incoming := s.incoming + bytes);
    var (u, result) := if t.phase == ReceivingHeaders then ProcessHeaders(t) else (t, 0);
    if result == 0 && u.phase == ReceivingData then ProcessData(u, streaming) else (u, result)
  }

  /** The state after a list of pieces. */
  function IngestAll(s: Session, pieces: seq<string>, streaming: bool): Session
    decreases |pieces|
  {
    if pieces == [] then s else IngestAll(Ingest(s, pieces[0], streaming).0, pieces[1..], streaming)
  }
}
