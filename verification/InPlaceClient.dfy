/**
  The HTTP client that decodes a chunked response inside its receive buffer: chunk headers and
  line ends are squeezed out with overlapping moves, and the owner may consume decoded bytes at
  the front of the payload between reads. Positions are offsets into the buffer.
 */
module InPlaceClient {
  import opened CString
  import opened Chunked
  import opened Lists
  import opened InPlaceSpec

  class Response {
    const data: array<char>
    var dataLen: nat
    const headersEnd: nat
    var chunkProcessedEnd: nat
    var payloadSize: nat

    /** `chunkProcessedEnd` separates decoded from raw bytes, and a NUL follows the data. */
    ghost predicate Valid()
      reads this, data
    {
      && headersEnd <= chunkProcessedEnd <= dataLen < data.Length
      && data[dataLen] == NUL
    }

    /** Nothing raw is pending and the payload is everything that was decoded. */
    ghost predicate Settled()
      reads this, data
    {
      Valid() && payloadSize == dataLen - headersEnd && chunkProcessedEnd == dataLen
    }

    ghost function Headers(): string
      requires Valid()
      reads this, data
    {
      data[..headersEnd]
    }

    ghost function Decoded(): string
      requires Valid()
      reads this, data
    {
      data[headersEnd..chunkProcessedEnd]
    }

    ghost function Raw(): string
      requires Valid()
      reads this, data
    {
      data[chunkProcessedEnd..dataLen]
    }

    /** A response whose headers have been received. */
    constructor (headers: string, capacity: nat)
      requires |headers| < capacity
      ensures Valid() && Headers() == headers && Decoded() == "" && Raw() == "" && payloadSize == 0
      ensures fresh(data) && data.Length == capacity && headersEnd == |headers|
    {
      data := new char[capacity](i => if 0 <= i < |headers| then headers[i] else NUL);
      dataLen, headersEnd, chunkProcessedEnd, payloadSize := |headers|, |headers|, |headers|, 0;
    }

    /** The overlapping move that drops `bytes` of the `length` bytes at `at`. */
    method ConsumeBytes(at: nat, bytes: nat, length: nat)
      requires bytes <= length && at + length <= data.Length
      modifies data
      ensures data[..at] == old(data[..at])
      ensures data[at..at + length - bytes] == old(data[at + bytes..at + length])
    {
      forall i | at <= i < at + length - bytes {
        data[i] := data[i + bytes];
      }
    }

    /** Drops `bytes` raw bytes at `at` and shortens the data. */
    method Drop(at: nat, bytes: nat)
      requires at + bytes <= dataLen < data.Length
      modifies data, this`dataLen
      ensures dataLen == old(dataLen) - bytes && data[dataLen] == NUL
      ensures data[..at] == old(data[..at])
      ensures data[at..dataLen] == old(data[at + bytes..dataLen])
    {
      ConsumeBytes(at, bytes, dataLen - at);
      dataLen := dataLen - bytes;
      ghost var front, back := data[..at], data[at..dataLen];
      data[dataLen] := NUL;
      assert data[..at] == front && data[at..dataLen] == back;
    }

    /** Moves one complete chunk from the raw to the decoded side. */
    method TakeChunk(header: nat, size: nat)
      requires Valid() && header + size + 2 <= |Raw()|
      modifies data, this`dataLen, this`chunkProcessedEnd, this`payloadSize
      ensures Valid() && Headers() == old(Headers())
      ensures Decoded() == old(Decoded()) + old(Raw())[header..header + size]
      ensures Raw() == old(Raw())[header + size + 2..]
      ensures payloadSize == dataLen - headersEnd
    {
      ghost var before, raw := data[..chunkProcessedEnd], Raw();
      Drop(chunkProcessedEnd, header);
      assert data[chunkProcessedEnd..dataLen] == raw[header..];
      ghost var start := chunkProcessedEnd;
      chunkProcessedEnd := chunkProcessedEnd + size;
      ghost var kept := data[..chunkProcessedEnd];
      assert kept == before + raw[header..header + size] by {
        assert kept[..start] == before;
        assert kept[start..] == raw[header..][..size];
      }
      assert data[chunkProcessedEnd + 2..dataLen] == raw[header..][size + 2..];
      Drop(chunkProcessedEnd, 2);
      payloadSize := dataLen - headersEnd;
      Sliced(before, raw[header..header + size], headersEnd);
      assert data[headersEnd..chunkProcessedEnd] == kept[headersEnd..];
      assert Headers() == kept[..headersEnd];
    }

    /** One call on the bytes received so far. */
    method ProcessChunkedData() returns (ret: Verdict)
      requires Valid()
      modifies data, this`dataLen, this`chunkProcessedEnd, this`payloadSize
      ensures Valid() && Headers() == old(Headers())
      ensures var d := Decode(old(Raw()));
              Decoded() == old(Decoded()) + d.out && Raw() == d.rest && ret == d.verdict
      ensures ret in {Ok, ChunkAvailable} ==> payloadSize == dataLen - headersEnd
      ensures ret == ChunkAvailable ==> chunkProcessedEnd == dataLen
      ensures dataLen <= old(dataLen)
    {
      hide LookAt, Decode;
      ghost var goal := After(Decoded(), Decode(Raw()));
      while true
        invariant Valid() && Headers() == old(Headers()) && dataLen <= old(dataLen)
        invariant After(Decoded(), Decode(Raw())) == goal
        decreases dataLen - chunkProcessedEnd
      {
        DecodeRound(Decoded(), Raw());
        var look := Examine();
        if look.NeedMore? {
          return More;
        }
        if look.Bad? {
          return Error;
        }
        TakeChunk(look.header, look.size);
        if look.size == 0 {
          return Ok;
        }
        if dataLen - chunkProcessedEnd == 0 {
          return ChunkAvailable;
        }
      }
    }

    /** The checks on the next chunk header, the chunk's end and the last chunk. */
    method Examine() returns (look: Look)
      requires Valid()
      ensures look == LookAt(Raw())
    {
      var raw := data[chunkProcessedEnd..dataLen];
      var p := StrStr(raw, CRLF);
      if p < 0 {
        return NeedMore;
      }
      if p > 31 || p == 0 {
        return Bad;
      }
      var n := ReadNumber(raw[..p], 16);
      if n.magnitude > LONG_MAX || (n.negative && n.magnitude > 0) {
        return Bad;
      }
      var val := n.magnitude + 2;
      var at := chunkProcessedEnd + p + 2;
      if dataLen - at < val {
        return NeedMore;
      }
      if data[at + val - 2] != '\r' || data[at + val - 1] != '\n' {
        return Bad;
      }
      if val - 2 == 0 {
        if data[chunkProcessedEnd + 3] != '\r' || data[chunkProcessedEnd + 4] != '\n' {
          return Bad;
        }
      }
      return Took(p + 2, val - 2);
    }

    /** A network read of at most the available space, followed by processing. */
    method Receive(bytes: string) returns (ret: Verdict)
      requires Valid() && dataLen + |bytes| < data.Length
      modifies data, this`dataLen, this`chunkProcessedEnd, this`payloadSize
      ensures Valid() && Headers() == old(Headers())
      ensures var d := Decode(old(Raw()) + bytes);
              Decoded() == old(Decoded()) + d.out && Raw() == d.rest && ret == d.verdict
      ensures ret in {Ok, ChunkAvailable} ==> payloadSize == dataLen - headersEnd
      ensures ret == ChunkAvailable ==> chunkProcessedEnd == dataLen
      ensures dataLen <= old(dataLen) + |bytes|
    {
      Append(bytes);
      ret := ProcessChunkedData();
    }

    method Append(bytes: string)
      requires Valid() && dataLen + |bytes| < data.Length
      modifies data, this`dataLen
      ensures Valid() && Headers() == old(Headers()) && Decoded() == old(Decoded())
      ensures Raw() == old(Raw()) + bytes && dataLen == old(dataLen) + |bytes|
    {
      ghost var was := data[..dataLen];
      var n := dataLen;
      forall i | n <= i < n + |bytes| {
        data[i] := bytes[i - n];
      }
      dataLen := n + |bytes|;
      data[dataLen] := NUL;
      assert data[..n] == was;
    }

    /** Takes consumed bytes off the front of the payload. */
    method Consume(bytes: nat)
      requires Settled()
      requires bytes <= payloadSize
      modifies data, this`dataLen, this`chunkProcessedEnd, this`payloadSize
      ensures Settled() && Headers() == old(Headers())
      ensures Decoded() == old(Decoded())[bytes..] && dataLen == old(dataLen) - bytes
    {
      payloadSize := payloadSize - bytes;
      ghost var was := data[..dataLen];
      ConsumeBytes(headersEnd, bytes, dataLen - headersEnd);
      dataLen := dataLen - bytes;
      assert data[headersEnd..dataLen] == was[headersEnd + bytes..];
      chunkProcessedEnd := headersEnd + payloadSize;
      ghost var front, back := data[..headersEnd], data[headersEnd..dataLen];
      data[dataLen] := NUL;
      assert data[..headersEnd] == front && data[headersEnd..dataLen] == back;
    }

    /** One call by the owner: consume, then read until there is something to report. `net` are
        the results of the coming reads, of which those from `from` on are still to come. */
    method GetResponseData(bytesConsumed: nat, net: seq<string>, from: nat) returns (ret: Verdict, next: nat)
      requires Settled()
      requires from <= |net| && dataLen + |Concat(net[from..])| < data.Length
      modifies data, this`dataLen, this`chunkProcessedEnd, this`payloadSize
      ensures Valid() && Headers() == old(Headers())
      ensures bytesConsumed > old(payloadSize) ==>
        ret == Error && next == from && Decoded() == old(Decoded()) && Raw() == old(Raw())
      ensures bytesConsumed <= old(payloadSize) ==>
        var s := Serve("", net, from);
        && Decoded() == old(Decoded())[bytesConsumed..] + s.out && Raw() == s.rest
        && ret == s.verdict && next == s.next
      ensures ret in {Ok, ChunkAvailable} ==> payloadSize == dataLen - headersEnd && (Raw() == "" ==> Settled())
      ensures from <= next <= |net| && dataLen + |Concat(net[next..])| <= old(dataLen) + |Concat(net[from..])|
    {
      hide Decode, Serve;
      next := from;
      if bytesConsumed > 0 {
        if bytesConsumed > payloadSize {
          return Error, next;
        }
        Consume(bytesConsumed);
      }
      ret := More;
      ghost var goal := AfterServed(Decoded(), Serve("", net, from));
      assert Decoded() == old(Decoded())[bytesConsumed..] && Raw() == "";
      while ret == More && next < |net|
        invariant Valid() && Headers() == old(Headers()) && from <= next <= |net|
        invariant dataLen + |Concat(net[next..])| <= old(dataLen) + |Concat(net[from..])|
        invariant ret in {Ok, ChunkAvailable} ==> payloadSize == dataLen - headersEnd
        invariant ret == ChunkAvailable ==> chunkProcessedEnd == dataLen
        invariant goal == if ret == More then AfterServed(Decoded(), Serve(Raw(), net, next))
                          else Served(Decoded(), Raw(), ret, next)
        decreases |net| - next
      {
        assert net[next..][1..] == net[next + 1..];
        ServeRound(Decoded(), Raw(), net, next);
        ret := Receive(net[next]);
        next := next + 1;
      }
      if ret == More {
        ServeNothing(Decoded(), Raw(), net);
      }
    }
  }

  lemma Sliced(a: string, b: string, i: nat)
    requires i <= |a|
    ensures (a + b)[i..] == a[i..] + b && (a + b)[..i] == a[..i]
  {
  }

  /** A whole run: for every list of chunks, every fragmentation of their encoding into reads and
      every sequence of legal consumptions (`takes`, each capped at what the payload holds), the
      consumed bytes followed by the final payload are the data of the chunks. */
  method ReceiveAll(headers: string, cs: seq<Chunk>, net: seq<string>, takes: seq<nat>)
      returns (ret: Verdict, consumed: string, payload: string)
    requires AllWellFormed(cs) && Concat(net) == Encode(cs)
    ensures ret == Ok && consumed + payload == Payload(cs)
  {
    hide Serve, Encode, Payload, WellFormed, Concat;
    var r := new Response(headers, |headers| + |Concat(net)| + 1);
    var next, calls := 0, 0;
    ghost var k := 0;
    ret, consumed := ChunkAvailable, "";
    assert net[0..] == net && cs[0..] == cs && cs[..0] == [];
    EmptyPayload();
    while ret != Ok
      invariant fresh(r) && fresh(r.data) && r.Settled() && r.Raw() == ""
      invariant next <= |net| && k <= |cs|
      invariant r.dataLen + |Concat(net[next..])| < r.data.Length
      invariant consumed + r.Decoded() == Payload(cs[..k])
      invariant if ret == Ok then k == |cs| else Concat(net[next..]) == Encode(cs[k..])
      decreases |net| - next, ret != Ok
    {
      var take := if calls < |takes| then Min(takes[calls], r.payloadSize) else 0;
      ghost var k' := StreamStep(cs, k, net, next);
      ghost var decoded, served := r.Decoded(), Serve("", net, next);
      Reconsumed(consumed, decoded, take, served.out);
      var taken := r.data[r.headersEnd..r.headersEnd + take];
      assert taken == decoded[..take];
      consumed := consumed + taken;
      k := k';
      ret, next := r.GetResponseData(take, net, next);
      assert r.Decoded() == decoded[take..] + served.out;
      calls := calls + 1;
    }
    payload := r.data[r.headersEnd..r.headersEnd + r.payloadSize];
    assert cs[..|cs|] == cs;
  }

  function Min(a: nat, b: nat): nat { if a < b then a else b }

  /** The next report, as seen from the whole stream: `k` chunks are out before it, `k'` after. */
  lemma StreamStep(cs: seq<Chunk>, k: nat, net: seq<string>, next: nat) returns (k': nat)
    requires AllWellFormed(cs) && k <= |cs| && next <= |net| && Concat(net[next..]) == Encode(cs[k..])
    ensures next < |net| && k <= k' <= |cs|
    ensures var s := Serve("", net, next);
      && Payload(cs[..k']) == Payload(cs[..k]) + s.out && s.rest == ""
      && match s.verdict
         case Ok => k' == |cs|
         case ChunkAvailable => Concat(net[s.next..]) == Encode(cs[k'..])
         case _ => false
  {
    hide Serve, Encode, Payload, WellFormed;
    assert |net[next..]| > 0;
    assert "" + Concat(net[next..]) == Concat(net[next..]);
    var m := ServeStream(cs[k..], "", net, next);
    k' := k + m;
    PayloadSplit(cs, k, k');
    assert cs[k..][..m] == cs[k..k'] && cs[k..][m..] == cs[k'..];
  }

  lemma Reconsumed(consumed: string, decoded: string, take: nat, out: string)
    requires take <= |decoded|
    ensures consumed + decoded[..take] + (decoded[take..] + out) == consumed + decoded + out
  {
  }

  lemma EmptyPayload()
    ensures Payload([]) == ""
  {
  }
}
