/** What the in-place decoder refuses: size lines that are empty, too long, negative or too large, and data that is
    not followed by a line end. What was decoded before stays. */
module InPlaceErrors {
  import opened CString
  import opened Notation
  import opened Chunked
  import opened InPlaceSpec

  /** The size line at the front, with its line end. */
  lemma SizeLineFound(line: string, after: string)
    requires '\r' !in line && NUL !in line
    ensures var raw := line + CRLF + after; StrStr(raw, CRLF) == |line| && raw[..|line|] == line
  {
    FoundAfter(line, CRLF, after);
  }

  lemma EmptyOrLong(line: string, after: string)
    requires '\r' !in line && NUL !in line && (line == "" || |line| > 31)
    ensures LookAt(line + CRLF + after) == Bad
  {
    hide StrStr, ReadNumber;
    SizeLineFound(line, after);
  }

  lemma HexPlain(size: string, n: nat)
    requires IsHex(size, n)
    ensures '\r' !in size && NUL !in size && '-' !in size && size != "" && AllDigits(size, 16)
    ensures Numeral(size, 16, 0) == n
  {
    hide Numeral, IsHex;
    HexRead(size, n);
  }

  /** A size that does not fit in a long integer. */
  lemma TooLarge(size: string, n: nat, after: string)
    requires IsHex(size, n) && n > LONG_MAX
    ensures LookAt(size + CRLF + after) == Bad
  {
    hide StrStr, ReadNumber, IsHex, Numeral;
    HexPlain(size, n);
    SizeLineFound(size, after);
    assert size + "" == size;
    ReadNumeral(size, "", 16);
  }

  /** A negative size, whatever its figures. */
  lemma Negative(size: string, n: nat, after: string)
    requires IsHex(size, n) && n > 0
    ensures LookAt("-" + size + CRLF + after) == Bad
  {
    hide StrStr, ReadNumber, IsHex, Numeral;
    HexPlain(size, n);
    SizeLineFound("-" + size, after);
    ReadAny("", "-", "", size, "", 16);
    assert "" + ("-" + ("" + (size + ""))) == "-" + size;
  }

  /** Data of the announced size is taken if and only if a line end follows it. */
  lemma MustEnd(size: string, data: string, end: string, rest: string)
    requires 0 < |data| <= LONG_MAX && IsHex(size, |data|) && |size| <= 31 && |end| == 2
    ensures LookAt(size + CRLF + (data + end + rest)) == if end == CRLF then Took(|size| + 2, |data|) else Bad
  {
    hide StrStr, ReadNumber, IsHex, Numeral;
    var after := data + end + rest;
    var raw, h := size + CRLF + after, |size| + 2;
    HexPlain(size, |data|);
    SizeLineFound(size, after);
    assert size + "" == size;
    ReadNumeral(size, "", 16);
    assert raw[h + |data|] == end[0] && raw[h + |data| + 1] == end[1];
    assert end == CRLF <==> end[0] == '\r' && end[1] == '\n';
  }

  function EncodeChunks(cs: seq<Chunk>): string
  {
    if cs == [] then "" else EncodeChunk(cs[0]) + EncodeChunks(cs[1..])
  }

  /** After whole chunks such a line is an error; the data of the chunks has been decoded. */
  lemma {:induction false} ErrorAfter(cs: seq<Chunk>, bad: string)
    requires AllWellFormed(cs) && LookAt(bad) == Bad
    ensures Decode(EncodeChunks(cs) + bad) == Decoding(Payload(cs), bad, Error)
    decreases |cs|
  {
    hide LookAt, EncodeChunk, WellFormed;
    if cs == [] {
      assert EncodeChunks(cs) + bad == bad;
    } else {
      hide Decode;
      var rest := EncodeChunks(cs[1..]) + bad;
      assert EncodeChunks(cs) + bad == EncodeChunk(cs[0]) + rest;
      assert WellFormed(cs[0]);
      DecodeChunk(cs[0], rest);
      NotEmpty(bad);
      ErrorAfter(cs[1..], bad);
    }
  }

  lemma NotEmpty(bad: string)
    requires LookAt(bad) == Bad
    ensures bad != ""
  {
  }
}
