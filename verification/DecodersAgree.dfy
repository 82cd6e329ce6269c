/** The two decoders of chunked responses give the same body. */
module DecodersAgree {
  import opened Lists
  import C = Chunked
  import H = Http1Runs
  import I = InPlaceClient

  /** Whatever the fragmentations, the streaming flag and the consumptions: the body that the
      session assembles is what the in-place decoder hands out. */
  method BothDecode(r: H.Response, streaming: bool, pieces: seq<string>, net: seq<string>, takes: seq<nat>,
      hash: string -> nat)
      returns (body: string, consumed: string, payload: string)
    requires H.WellFormed(r) && r.content.InChunks? && Concat(pieces) == H.Wire(r)
    requires Concat(net) == C.Encode(r.content.chunks)
    ensures body == consumed + payload
  {
    var _, _, b, ready := H.ReceiveResponse(r, streaming, pieces, hash, 0, []);
    body := b;
    var ret;
    ret, consumed, payload := I.ReceiveAll("", r.content.chunks, net, takes);
  }
}
