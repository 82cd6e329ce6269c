/**
  What the owner of a session sees before the end of a body, and what becomes of bytes that come behind it in
  the piece that completes it.
 */
module Http1Surplus {
  import opened CString
  import opened Options
  import opened Lists
  import opened Http1Spec
  import opened Http1Runs
  import H = Http1Headers
  import HeaderStore
  import C = Chunked

  /** While a body of a declared length arrives, a streaming session shows all of it that has come, and any other
      session nothing until it is complete. */
  lemma BodySoFar(r: Response, streaming: bool, pieces: seq<string>)
    requires WellFormed(r) && r.content.Sized? && Concat(pieces) <= Wire(r)
    ensures var p, s := Concat(pieces), IngestAll(INIT, pieces, streaming);
      s.body == if |p| < |Head(r)| || (!streaming && p != Wire(r)) then "" else p[|Head(r)|..]
  {
    hide WellFormed, IngestAll;
    assert "" + Concat(pieces) == Concat(pieces);
    assert |Head(r)| > 0;
    EveryPiece(r, streaming, "", pieces, INIT);
    var p := Concat(pieces);
    if |p| == |Wire(r)| {
      assert p == Wire(r) && Wire(r)[|Head(r)|..] == Body(r);
    }
  }

  /** Bytes behind a body of a declared length become part of it, if they come in the piece that completes it. */
  lemma SurplusTaken(r: Response, streaming: bool, pieces: seq<string>, piece: string, surplus: string)
    requires WellFormed(r) && r.content.Sized? && r.content.data != ""
    requires Concat(pieces) <= Wire(r) && Concat(pieces) != Wire(r) && Concat(pieces) + piece == Wire(r) + surplus
    ensures var s := Ingest(IngestAll(INIT, pieces, streaming), piece, streaming).0;
      s.phase == Ready && s.body == r.content.data + surplus && (s.body == r.content.data <==> surplus == "")
  {
    hide WellFormed, IngestAll, Ingest;
    assert "" + Concat(pieces) == Concat(pieces);
    assert |Head(r)| > 0;
    EveryPiece(r, streaming, "", pieces, INIT);
    var p, s := Concat(pieces), IngestAll(INIT, pieces, streaming);
    if |p| < |Head(r)| {
      HeadAndMore(r, streaming, p, piece, surplus);
    } else {
      BodyAndMore(r, streaming, p, piece, surplus, s);
    }
  }

  lemma HeadAndMore(r: Response, streaming: bool, p: string, piece: string, surplus: string)
    requires WellFormed(r) && r.content.Sized? && r.content.data != "" && p + piece == Wire(r) + surplus
    ensures var s := Ingest(INIT.(incoming := p), piece, streaming).0;
      s.phase == Ready && s.body == r.content.data + surplus
  {
    hide ProcessHeaders, Head, GoodStatusLine, GoodHeaders, AfterHead, SaysChunked, H.Declared, ChunkLoop;
    var b := r.content.data + surplus;
    assert p + piece == Head(r) + b;
    HeadComplete(r, b);
    Declares(r, AfterHead(r).(incoming := b));
    assert "" + b == b;
  }

  /** The declared length, and that the body is not chunked. */
  lemma Declares(r: Response, s: Session)
    requires WellFormed(r) && r.content.Sized? && SameHead(r, s)
    ensures s.contentLength == |r.content.data| && !SaysChunked(s)
    ensures AfterHead(r).body == "" && AfterHead(r).readOffset == 0 && AfterHead(r).phase == ReceivingData
  {
    hide SaysChunked, GoodStatusLine, GoodHeaders, H.Declared, HeaderStore.Merged, Numeral;
    SameFraming(r, s);
  }

  lemma BodyAndMore(r: Response, streaming: bool, p: string, piece: string, surplus: string, s: Session)
    requires WellFormed(r) && r.content.Sized? && r.content.data != "" && p + piece == Wire(r) + surplus
    requires |Head(r)| <= |p| < |Wire(r)| && p <= Wire(r) && Pending(r, streaming, p[|Head(r)|..], s)
    ensures var t := Ingest(s, piece, streaming).0; t.phase == Ready && t.body == r.content.data + surplus
  {
    hide Head, AfterHead, SaysChunked, H.Declared, ChunkLoop, HeaderStore.Merged, WellFormed;
    var b, data := p[|Head(r)|..], r.content.data;
    Behind(Head(r), p, piece, data, surplus);
    Declares(r, s.(incoming := s.incoming + piece));
    assert "" + (b + piece) == b + piece && b + ("" + piece) == b + piece;
  }

  /** What comes after the head, in two ways. */
  lemma Behind(h: string, p: string, piece: string, data: string, surplus: string)
    requires h <= p && p + piece == h + data + surplus
    ensures p[|h|..] + piece == data + surplus
  {
    assert (p + piece)[|h|..] == p[|h|..] + piece && (h + data + surplus)[|h|..] == data + surplus;
  }

  // ----- chunks

  /** The loop does not stop at the last chunk: what follows it in the same piece is read as chunks again. */
  lemma {:induction false} LoopGoesOn(cs: seq<C.Chunk>, s: Session, surplus: string)
    requires C.AllWellFormed(cs) && s.incoming == C.Encode(cs) + surplus
    ensures ChunkLoop(s) == ChunkLoop(s.(incoming := surplus, body := s.body + C.Payload(cs), phase := Ready,
                                         readOffset := s.readOffset + |C.Encode(cs)|))
    decreases |cs|
  {
    hide ChunkLoop, C.EncodeChunk, C.WellFormed;
    if cs == [] {
      EndTaken(s, surplus);
      assert s.body + "" == s.body;
    } else {
      assert C.WellFormed(cs[0]);
      var one, tail := C.EncodeChunk(cs[0]), C.Encode(cs[1..]);
      assert one + tail + surplus == one + (tail + surplus);
      TakeOneChunk(cs[0], s, tail + surplus);
      var t := s.(body := s.body + cs[0].data, incoming := tail + surplus, readOffset := s.readOffset + |one|);
      LoopGoesOn(cs[1..], t, surplus);
      assert s.body + cs[0].data + C.Payload(cs[1..]) == s.body + (cs[0].data + C.Payload(cs[1..]));
    }
  }

  lemma EndTaken(s: Session, surplus: string)
    requires s.incoming == "0\r\n\r\n" + surplus
    ensures ChunkLoop(s) == ChunkLoop(s.(incoming := surplus, phase := Ready, readOffset := s.readOffset + 5))
  {
    hide FindChunk, Numeral;
    var after := "\n\r\n" + surplus;
    assert s.incoming == "0" + "\r" + after;
    OneZero();
    SizeLine("0", after);
    assert s.incoming[5..] == surplus && s.body + s.incoming[3..3] == s.body;
  }

  lemma OneZero()
    ensures Numeral("0", 16, 0) == 0 && AllDigits("0", 16)
  {
  }

  /** So a second body behind the first, in the same piece, is appended to it. */
  lemma SecondBody(cs: seq<C.Chunk>, more: seq<C.Chunk>, s: Session)
    requires C.AllWellFormed(cs) && C.AllWellFormed(more) && s.incoming == C.Encode(cs) + C.Encode(more)
    ensures var (t, result) := ChunkLoop(s);
      result == 0 && t.phase == Ready && t.body == s.body + C.Payload(cs) + C.Payload(more) && t.incoming == ""
  {
    hide ChunkLoop, C.Encode, C.Payload, C.AllWellFormed;
    LoopGoesOn(cs, s, C.Encode(more));
    var t := s.(incoming := C.Encode(more), body := s.body + C.Payload(cs), phase := Ready,
                readOffset := s.readOffset + |C.Encode(cs)|);
    assert C.Encode(more) + "" == C.Encode(more) && more[..|more|] == more;
    var k := ChunkLoopPrefix(more, t, "");
  }
}
