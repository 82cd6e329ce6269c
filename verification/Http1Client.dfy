/** The HTTP/1 client session as an object: an input queue that is shifted left, and a response
    that is filled in, with its headers in a hash table. */
module Http1Client {
  import opened Options
  import opened CString
  import opened Http1Spec
  import Http1Headers
  import HeaderStore
  import S = HashSpec
  import T = HashTable

  class ClientSession {
    const streaming: bool
    const table: T.Table
    var incoming: string
    var phase: Phase
    var status: int
    var contentLength: nat
    var body: string
    var readOffset: nat

    ghost var headers: seq<Header>   // the names and values in the table, in the order of insertion

    ghost predicate Valid()
      reads this`headers, table, table.Objects()
    {
      && table.Valid() && HeaderStore.IsHeaderConfig(table.cfg) && HeaderStore.HeaderRecords(table.View())
      && headers == HeaderStore.Pairs(table.View())
    }

    ghost function View(): Session
      reads this
    {
      Session(incoming, phase, status, headers, contentLength, body, readOffset)
    }

    constructor (streaming: bool, hash: string -> nat)
      ensures Valid() && View() == INIT && this.streaming == streaming && fresh(table) && table.Objects() == {}
    {
      this.streaming := streaming;
      incoming, phase, status := "", ReceivingHeaders, 0;
      contentLength, body, readOffset, headers := 0, "", 0, [];
      table := new T.Table(S.Config(HeaderStore.HEADER_CHAINS, S.EvictNone, -1, 0, true, hash));
      new;
      table.SetCaseSensitivity(false);
    }

    /** Stores a header; a name that is there already, up to case, gets the new value. */
    method SetHeader(name: string, value: string, now: int) returns (ok: bool)
      requires Valid() && value != ""
      modifies this`headers, table, table.Objects()
      ensures Valid() && fresh(table.Objects() - old(table.Objects()))
      ensures ok == (name != "")
      ensures headers == if ok then HeaderStore.Set(old(headers), HeaderStore.Lowered(Http1Headers.Header(name, value)))
                         else old(headers)
    {
      hide S.Add, HeaderStore.Set, Lower, HeaderStore.HeaderRecords, HeaderStore.IsHeaderConfig, HeaderStore.Pairs;
      hide T.Table.Valid, T.Table.View, T.Table.Hashed;
      if name == "" {
        HeaderStore.AddNameless(table.cfg, table.View(), value, now, 0);
      } else {
        HeaderStore.AddSets(table.cfg, table.View(), name, value, now, 0);
      }
      var id := table.Put(Lower(name), S.Copied(value), now, 0);
      ok := id >= 0;
      headers := HeaderStore.Pairs(table.View());
    }

    /** The value stored for a name in any case. */
    method GetHeader(name: string, now: int) returns (value: Option<string>)
      requires Valid() && name != ""
      modifies table, table.Objects()
      ensures Valid() && table.Objects() <= old(table.Objects())
      ensures value == HeaderStore.Lookup(headers, Lower(name))
    {
      hide S.Get, HeaderStore.Lookup, Lower;
      HeaderStore.GetLooksUp(table.cfg, table.View(), name, now);
      var v := table.Fetch(Lower(name), now);
      if v.None? {
        return None;
      }
      return Some(v.value.bytes);
    }

    method ShiftIncoming(positions: nat)
      modifies this`incoming
      ensures incoming == ShiftLeft(old(incoming), positions)
    {
      var remainder := 0;
      if positions < |incoming| {
        remainder := |incoming| - positions;
        incoming := incoming[positions..];
      }
      incoming := incoming[..remainder];
    }

    /** Stores the headers of a block one after the other. */
    method StoreHeaders(hs: seq<Header>, now: int)
      requires Valid() && Http1Headers.Named(hs)
      modifies this`headers, table, table.Objects()
      ensures Valid() && fresh(table.Objects() - old(table.Objects()))
      ensures headers == HeaderStore.SetAll(old(headers), hs)
    {
      hide Valid, HeaderStore.Set;
      assert hs[0..] == hs;
      for i := 0 to |hs|
        invariant Valid() && fresh(table.Objects() - old(table.Objects()))
        invariant HeaderStore.SetAll(headers, hs[i..]) == HeaderStore.SetAll(old(headers), hs)
      {
        assert hs[i..][0] == hs[i] && hs[i..][1..] == hs[i + 1..];
        var _ := SetHeader(hs[i].name, hs[i].value, now);
      }
    }

    /** Stores the status code, the headers and the declared length. */
    method ReadFields(block: string, now: int) returns (ok: bool)
      requires Valid() && phase == ReceivingHeaders && |incoming| >= 9
      modifies this`phase, this`status, this`headers, this`contentLength, table, table.Objects()
      ensures Valid() && fresh(table.Objects() - old(table.Objects()))
      ensures View() == StoreHead(old(View()), incoming, block) && ok == (phase != Failed)
    {
      hide Http1Headers.Parse, Http1Headers.StrToUll, ToInt, HeaderStore.SetAll, Valid;
      status := ToInt(Http1Headers.StrToUll(incoming[9..]));
      if status < 100 || status > 599 {
        phase := Failed;
        return false;
      }
      var parsed, declared;
      ok, parsed, declared := Http1Headers.ParseHeaders(block);
      Http1Headers.ParsedNamed(block);
      StoreHeaders(parsed, now);
      if declared.Some? {
        contentLength := declared.value;
      }
      if !ok {
        phase := Failed;
      }
    }

    method ReadHead(now: int) returns (result: int)
      requires Valid() && phase == ReceivingHeaders
      modifies this, table, table.Objects()
      ensures Valid() && fresh(table.Objects() - old(table.Objects()))
      ensures (View(), result) == ProcessHeaders(old(View()))
    {
      hide StrStr, StoreHead, IsHttp1, Valid;
      if |incoming| < 9 {
        return 0;
      }
      if !IsHttp1(incoming) {
        status := 200;
        phase := ReceivingData;
        return 0;
      }
      var p := StrStr(incoming, CRLF);
      if p < 0 {
        return 0;
      }
      var block := incoming[p + 2..];
      var q := StrStr(block, BLANK);
      if q < 0 {
        return 0;
      }
      if status <= 0 {
        var ok := ReadFields(block, now);
        if !ok {
          return -1;
        }
      }
      ShiftIncoming(p + 2 + q + 4);
      phase := ReceivingData;
      return 0;
    }

    /** The checks on the next chunk: size, extent in 64 bits, and whether it is all there. */
    method Examine() returns (round: Round)
      ensures round == FindChunk(incoming)
    {
      hide StrStr, ReadNumber;
      if incoming == "" || StrChr(incoming, '\r') < 0 {
        return Wait;
      }
      var n := ReadNumber(incoming, 16);
      if n.magnitude > ULLONG_MAX {
        return Bad;
      }
      var length := Magnitude(n);
      var required := (n.end + 2 + length + 2) % (SIZE_MAX + 1);
      if |incoming| < required {
        return Wait;
      }
      if n.end + 2 + length + 2 > SIZE_MAX {
        return TooLong;
      }
      return Whole(n.end, length);
    }

    /** Appends a whole chunk to the body and removes it from the incoming data. */
    method AppendChunk(digits: nat, length: nat)
      requires Extent(digits, length) <= |incoming|
      modifies this`incoming, this`phase, this`body, this`readOffset
      ensures View() == Http1Spec.TakeChunk(old(View()), digits, length)
    {
      assert length == 0 ==> body + incoming[digits + 2..digits + 2 + length] == body;
      if length > 0 {
        body := body + incoming[digits + 2..digits + 2 + length];
      } else {
        phase := Ready;
      }
      ShiftIncoming(Extent(digits, length));
      readOffset := readOffset + Extent(digits, length);
    }

    /** The chunked branch: appends whole chunks to the body while there are any. */
    method ReadChunks() returns (result: int)
      modifies this`incoming, this`phase, this`body, this`readOffset
      ensures (View(), result) == ChunkLoop(old(View()))
    {
      hide FindChunk, Http1Spec.TakeChunk;
      var round := Examine();
      while round.Whole?
        invariant round == FindChunk(incoming)
        invariant ChunkLoop(View()) == ChunkLoop(old(View()))
        decreases |incoming|
      {
        AppendChunk(round.digits, round.length);
        round := Examine();
      }
      if round == Wait {
        return 0;
      }
      phase := if round == Bad then Failed else Overrun;
      return -1;
    }

    method ReadBody(now: int) returns (result: int)
      requires Valid()
      modifies this, table, table.Objects()
      ensures Valid() && table.Objects() <= old(table.Objects())
      ensures (View(), result) == ProcessData(old(View()), streaming)
    {
      hide ChunkLoop, HeaderStore.Lookup, CStr, Valid;
      var chunked := false;
      if contentLength == 0 {
        assert Lower("transfer-encoding") == "transfer-encoding";
        var te := GetHeader("transfer-encoding", now);
        if te.Some? {
          var v := CStr(te.value);
          chunked := |v| >= 7 && Lower(v[..7]) == "chunked";
        }
      }
      hide Lower;
      if chunked {
        result := ReadChunks();
        return;
      }
      if contentLength > 0 {
        if readOffset + |incoming| < contentLength {
          if !streaming {
            return 0;
          }
          readOffset := readOffset + |incoming|;
          body := body + incoming;
        } else {
          body := body + incoming;
          phase := Ready;
        }
        ShiftIncoming(|incoming|);
      } else {
        phase := Ready;
      }
      return 0;
    }

    /** Takes the next piece of the response. */
    method Feed(bytes: string, now: int) returns (result: int)
      requires Valid()
      modifies this, table, table.Objects()
      ensures Valid() && fresh(table.Objects() - old(table.Objects()))
      ensures (View(), result) == Ingest(old(View()), bytes, streaming)
    {
      hide ProcessHeaders, ProcessData, Valid;
      incoming := incoming + bytes;
      result := 0;
      if phase == ReceivingHeaders {
        result := ReadHead(now);
      }
      if result == 0 && phase == ReceivingData {
        result := ReadBody(now);
      }
    }
  }
}
