/**
  The chunked transfer coding (section 7.1 of RFC 9112), without extensions and trailers,
  as a sender produces it. Both response decoders are measured against `Encode`.
 */
module Chunked {
  import opened CString

  /** A chunk and the hexadecimal numeral its sender chose for its size. */
  datatype Chunk = Chunk(size: string, data: string)

  predicate WellFormed(c: Chunk)
  {
    && c.data != ""
    && 1 <= |c.size| <= 31
    && AllDigits(c.size, 16)
    && Numeral(c.size, 16, 0) == |c.data| <= LONG_MAX
  }

  predicate AllWellFormed(cs: seq<Chunk>) { forall c <- cs :: WellFormed(c) }

  lemma TailWellFormed(cs: seq<Chunk>, k: nat)
    requires AllWellFormed(cs) && k <= |cs|
    ensures AllWellFormed(cs[k..])
  {
  }

  function EncodeChunk(c: Chunk): string { c.size + CRLF + c.data + CRLF }

  function Encode(cs: seq<Chunk>): (s: string)
    ensures |s| >= 5
  {
    if cs == [] then "0\r\n\r\n" else EncodeChunk(cs[0]) + Encode(cs[1..])
  }

  function Payload(cs: seq<Chunk>): string
  {
    if cs == [] then "" else cs[0].data + Payload(cs[1..])
  }

  /** Two cuts of the same string. */
  lemma Overlap(a: string, b: string, c: string, d: string)
    requires a + b == c + d && |a| <= |c|
    ensures c == a + c[|a|..] && a <= c && b == c[|a|..] + d
  {
    assert (a + b)[..|a|] == (c + d)[..|a|] == c[..|a|];
    assert (a + b)[|a|..] == (c + d)[|a|..] == c[|a|..] + d;
  }

  lemma {:induction false} PayloadAppend(a: seq<Chunk>, b: seq<Chunk>)
    ensures Payload(a + b) == Payload(a) + Payload(b)
  {
    if a == [] {
      assert a + b == b;
    } else {
      assert (a + b)[1..] == a[1..] + b;
      PayloadAppend(a[1..], b);
    }
  }

  lemma PayloadSplit(cs: seq<Chunk>, i: nat, j: nat)
    requires i <= j <= |cs|
    ensures Payload(cs[..j]) == Payload(cs[..i]) + Payload(cs[i..j])
  {
    assert cs[..j] == cs[..i] + cs[i..j];
    PayloadAppend(cs[..i], cs[i..j]);
  }
}
