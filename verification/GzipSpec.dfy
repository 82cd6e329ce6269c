/**
  The gzip header (section 2.3 of RFC 1952) as the stateful decompressor parses it, step by step on
  the bytes that are buffered, and as the one-shot decompressor skips it.
 */
module GzipSpec {

  newtype Byte = x: int | 0 <= x < 256

  const HEADER_SIZE: nat := 10
  const FHCRC: nat := 2
  const FEXTRA: nat := 4
  const FNAME: nat := 8
  const FCOMMENT: nat := 16

  predicate Has(flags: nat, bit: nat)
    requires bit > 0
  {
    (flags / bit) % 2 == 1
  }

  function ReadLe16(p: seq<Byte>): (r: nat)
    requires |p| >= 2
    ensures r < 0x1_0000
  {
    (p[0] as int) + 256 * (p[1] as int)
  }

  /** `strnlen`: the place of the first zero byte, or the length. */
  function StrNLen(v: seq<Byte>): (n: nat)
    ensures n <= |v| && (n < |v| ==> v[n] == 0) && forall i :: 0 <= i < n ==> v[i] != 0
  {
    if v == [] || v[0] == 0 then 0
    else
      var n := StrNLen(v[1..]);
      assert forall i :: 0 < i < n + 1 ==> v[i] == v[1..][i - 1];
      1 + n
  }

  // ----- the stateful parser

  datatype State = Failed | ExpectingHeader | ExpectingOptional | ExpectingBody | ExpectingFooter

  /** Waiting for data is not told apart from success, as in the code. */
  datatype Status = Ok | Failure | CorruptedHeader

  datatype Parser = Parser(state: State, header: seq<Byte>)

  datatype Outcome = Outcome(next: Parser, used: nat, status: Status)

  predicate GoodHeader(h: seq<Byte>)
    requires |h| == HEADER_SIZE
  {
    ReadLe16(h) == 0x8B1F && h[2] == 8 && h[3] < 32
  }

  function HeaderStep(p: Parser, v: seq<Byte>): (o: Outcome)
    ensures o.used <= |v|
  {
    if |v| < HEADER_SIZE then Outcome(p, 0, Ok)
    else if !GoodHeader(v[..HEADER_SIZE]) then Outcome(Parser(Failed, v[..HEADER_SIZE]), HEADER_SIZE, Failure)
    else Outcome(Parser(ExpectingOptional, v[..HEADER_SIZE]), HEADER_SIZE, Ok)
  }

  /** How far the optional fields have been read: the flags still set, the bytes used. */
  datatype Progress = Progress(flags: nat, used: nat, waiting: bool)

  /** The bytes a field takes, or -1 to wait; lengths are kept in 16 bits. */
  function ExtraUse(v: seq<Byte>): (n: int)
    ensures n <= |v|
  {
    if |v| <= 2 then -1
    else var xlen := (2 + ReadLe16(v)) % 0x1_0000; if |v| < xlen then -1 else xlen
  }

  function NameUse(v: seq<Byte>): (n: int)
    ensures n <= |v|
  {
    var x := StrNLen(v) % 0x1_0000;
    if x == 0 || x == |v| then -1 else (x + 1) % 0x1_0000
  }

  function CommentUse(v: seq<Byte>): (n: int)
    ensures n <= |v|
  {
    var x := StrNLen(v) % 0x1_0000;
    if x == 0 || x == |v| then -1 else x
  }

  function AfterExtra(flags: nat, v: seq<Byte>): (g: Progress)
    ensures g.used <= |v| && g.flags <= flags
  {
    if !Has(flags, FEXTRA) then Progress(flags, 0, false)
    else var n := ExtraUse(v); if n < 0 then Progress(flags, 0, true) else Progress(flags - FEXTRA, n, false)
  }

  /** Between fields: with flags left and nothing buffered the parser waits. */
  function Between(g: Progress, v: seq<Byte>): Progress
  {
    if !g.waiting && g.flags != 0 && g.used == |v| then g.(waiting := true) else g
  }

  function AfterName(g: Progress, v: seq<Byte>): (r: Progress)
    requires g.used <= |v|
    ensures g.used <= r.used <= |v| && r.flags <= g.flags
  {
    if g.waiting || !Has(g.flags, FNAME) then g
    else
      var n := NameUse(v[g.used..]);
      if n < 0 then g.(waiting := true) else Progress(g.flags - FNAME, g.used + n, false)
  }

  function AfterComment(g: Progress, v: seq<Byte>): (r: Progress)
    requires g.used <= |v|
    ensures g.used <= r.used <= |v| && r.flags <= g.flags
  {
    if g.waiting || !Has(g.flags, FCOMMENT) then g
    else
      var n := CommentUse(v[g.used..]);
      if n < 0 then g.(waiting := true) else Progress(g.flags - FCOMMENT, g.used + n, false)
  }

  /** Name and comment after the extra field. */
  function NameAndComment(g: Progress, v: seq<Byte>): (r: Progress)
    requires g.used <= |v|
    ensures r.used <= |v| && r.flags <= g.flags
  {
    Between(AfterComment(Between(AfterName(Between(g, v), v), v), v), v)
  }

  /** Extra field, name and comment, in this order, as far as the bytes go. */
  function Fields(flags: nat, v: seq<Byte>): (g: Progress)
    ensures g.used <= |v| && g.flags <= flags
  {
    NameAndComment(AfterExtra(flags, v), v)
  }

  function WithFlags(p: Parser, state: State, flags: nat): Parser
    requires |p.header| == HEADER_SIZE && flags < 256
  {
    Parser(state, p.header[3 := flags as Byte])
  }

  /** The checksum of the header, if it has one, after the other fields; `crc` is the checksum function. */
  function CheckStep(q: Parser, v: seq<Byte>, crc: seq<Byte> -> nat): (o: Outcome)
    requires |q.header| == HEADER_SIZE
    ensures o.used <= |v| && |o.next.header| == HEADER_SIZE
  {
    if !Has(q.header[3] as int, FHCRC) then Outcome(q.(state := ExpectingBody), 0, Ok)
    else if |v| <= 2 then Outcome(q, 0, Ok)
    else if ReadLe16(v) != crc(q.header) % 0x1_0000 then Outcome(q.(state := Failed), 0, CorruptedHeader)
    else Outcome(WithFlags(q, ExpectingBody, q.header[3] as int - FHCRC), 2, Ok)
  }

  /** The optional fields. */
  function OptionalStep(p: Parser, v: seq<Byte>, crc: seq<Byte> -> nat): (o: Outcome)
    requires |p.header| == HEADER_SIZE
    ensures o.used <= |v| && |o.next.header| == HEADER_SIZE
  {
    var g := Fields(p.header[3] as int, v);
    var q := WithFlags(p, p.state, g.flags);
    if g.waiting then Outcome(q, g.used, Ok)
    else var c := CheckStep(q, v[g.used..], crc); c.(used := g.used + c.used)
  }

  /** The header and the optional fields in one call. */
  function HeadStep(p: Parser, v: seq<Byte>, crc: seq<Byte> -> nat): (o: Outcome)
    requires p.state == ExpectingOptional ==> |p.header| == HEADER_SIZE
    ensures o.used <= |v| && (o.next.state == ExpectingOptional ==> |o.next.header| == HEADER_SIZE)
  {
    var h := if p.state == ExpectingHeader then HeaderStep(p, v) else Outcome(p, 0, Ok);
    if h.status == Ok && h.next.state == ExpectingOptional then
      var o := OptionalStep(h.next, v[h.used..], crc); o.(used := h.used + o.used)
    else h
  }

  /** What the inflater reports: how much input it took, and whether the stream ended. */
  datatype Inflated = Inflated(ok: bool, used: nat, ended: bool)

  /** The inflater is shown all that is buffered and takes a prefix of it. */
  function BodyStep(p: Parser, v: seq<Byte>, outputLength: nat, inflate: seq<Byte> -> Inflated): (o: Outcome)
    ensures o.used <= |v|
  {
    if outputLength == 0 then Outcome(p, 0, Ok)
    else
      var r := inflate(v);
      if !r.ok then Outcome(p.(state := Failed), 0, Failure)
      else Outcome(if r.ended then p.(state := ExpectingFooter) else p, if r.used < |v| then r.used else |v|, Ok)
  }

  /** Checksum and size of the data, which are not looked at. */
  function FooterStep(p: Parser, v: seq<Byte>): (o: Outcome)
    ensures o.used <= |v|
  {
    if |v| < 8 then Outcome(p, 0, Ok) else Outcome(p.(state := ExpectingHeader), 8, Ok)
  }

  /** The bytes taken by the inflater and by the footer. */
  datatype Tail = Tail(next: Parser, body: nat, footer: nat, status: Status)

  function TailStep(p: Parser, v: seq<Byte>, outputLength: nat, inflate: seq<Byte> -> Inflated): (t: Tail)
    ensures t.body + t.footer <= |v| && (t.next.state == ExpectingOptional ==> t.next == p)
  {
    var b := if p.state == ExpectingBody then BodyStep(p, v, outputLength, inflate) else Outcome(p, 0, Ok);
    if b.status == Ok && b.next.state == ExpectingFooter then
      var f := FooterStep(b.next, v[b.used..]); Tail(f.next, b.used, f.used, f.status)
    else Tail(b.next, b.used, 0, b.status)
  }

  /** One call: the bytes taken by the header, by the inflater and by the footer, and whether a body began. */
  datatype Call = Call(next: Parser, head: nat, body: nat, footer: nat, began: bool, status: Status)

  function CallStep(p: Parser, v: seq<Byte>, outputLength: nat,
                    crc: seq<Byte> -> nat, inflate: seq<Byte> -> Inflated): (c: Call)
    requires p.state == ExpectingOptional ==> |p.header| == HEADER_SIZE
    ensures c.head + c.body + c.footer <= |v|
    ensures c.next.state == ExpectingOptional ==> |c.next.header| == HEADER_SIZE
  {
    var h := HeadStep(p, v, crc);
    var began := h.next.state == ExpectingBody && p.state != ExpectingBody;
    if h.status != Ok then Call(h.next, h.used, 0, 0, began, h.status)
    else var t := TailStep(h.next, v[h.used..], outputLength, inflate);
         Call(t.next, h.used, t.body, t.footer, began, t.status)
  }

  // ----- the one-shot skip

  datatype Skip = Bad | At(offset: nat)

  /** Past a zero-terminated field that begins at `at`. */
  function SkipZero(p: seq<Byte>, at: nat): (r: Skip)
    ensures r.At? ==> at < r.offset <= |p|
    decreases |p| - at
  {
    if at >= |p| then Bad else if p[at] == 0 then At(at + 1) else SkipZero(p, at + 1)
  }

  /** Past the extra field, if there is one. */
  function SkipExtra(p: seq<Byte>, flags: nat): (r: Skip)
    requires |p| >= 18
    ensures r.At? ==> HEADER_SIZE <= r.offset <= |p|
  {
    if !Has(flags, FEXTRA) then At(HEADER_SIZE)
    else
      var xlen := ReadLe16(p[HEADER_SIZE..]);
      if xlen > |p| - 12 then Bad else At(HEADER_SIZE + xlen + 2)
  }

  /** Past the field of a flag, if it is set. */
  function SkipText(p: seq<Byte>, flags: nat, bit: nat, from: Skip): (r: Skip)
    requires bit > 0
  {
    if from.Bad? || !Has(flags, bit) then from else SkipZero(p, from.offset)
  }

  /** Past the checksum, if there is one and it is that of everything before it. */
  function SkipCheck(p: seq<Byte>, flags: nat, from: Skip, crc: seq<Byte> -> nat): (r: Skip)
  {
    if from.Bad? || !Has(flags, FHCRC) then from
    else if from.offset > |p| - 2 then Bad
    else if ReadLe16(p[from.offset..]) != crc(p[..from.offset]) % 0x1_0000 then Bad
    else At(from.offset + 2)
  }

  /** Where the one-shot decompressor finds the compressed data. */
  function OneShot(p: seq<Byte>, crc: seq<Byte> -> nat): (r: Skip)
  {
    if |p| < 18 || p[0] != 0x1F || p[1] != 0x8B || p[2] != 8 || p[3] >= 32 then Bad
    else
      var flags := p[3] as int;
      SkipCheck(p, flags, SkipText(p, flags, FCOMMENT, SkipText(p, flags, FNAME, SkipExtra(p, flags))), crc)
  }

  // ----- headers as they are written

  /** A header with an extra field, a name, a comment and a checksum, each there if its flag is set. */
  datatype Member = Member(fixed: seq<Byte>, extra: seq<Byte>, name: seq<Byte>, comment: seq<Byte>, check: nat)

  predicate NoZero(s: seq<Byte>) { forall i :: 0 <= i < |s| ==> s[i] != 0 }

  predicate Possible(m: Member)
  {
    && |m.fixed| == HEADER_SIZE && GoodHeader(m.fixed)
    && |m.extra| < 0x1_0000 && m.check < 0x1_0000 && NoZero(m.name) && NoZero(m.comment)
  }

  /** No comment, an extra field of at most 65533 bytes, and a non-empty name shorter than 65535 bytes. */
  predicate Readable(m: Member)
    requires |m.fixed| == HEADER_SIZE
  {
    && !Has(m.fixed[3] as int, FCOMMENT)
    && (Has(m.fixed[3] as int, FEXTRA) ==> |m.extra| <= 65533)
    && (Has(m.fixed[3] as int, FNAME) ==> 0 < |m.name| < 65535)
  }

  predicate WellFormed(m: Member) { Possible(m) && Readable(m) }

  function Le16(n: nat): seq<Byte>
    requires n < 0x1_0000
  {
    [(n % 256) as Byte, (n / 256) as Byte]
  }

  function ExtraField(m: Member): seq<Byte>
    requires Possible(m)
  {
    if Has(m.fixed[3] as int, FEXTRA) then Le16(|m.extra|) + m.extra else []
  }

  function NameField(m: Member): seq<Byte>
    requires Possible(m)
  {
    if Has(m.fixed[3] as int, FNAME) then m.name + [0] else []
  }

  function CommentField(m: Member): seq<Byte>
    requires Possible(m)
  {
    if Has(m.fixed[3] as int, FCOMMENT) then m.comment + [0] else []
  }

  function CheckField(m: Member): seq<Byte>
    requires Possible(m)
  {
    if Has(m.fixed[3] as int, FHCRC) then Le16(m.check) else []
  }

  function Optional(m: Member): seq<Byte>
    requires Possible(m)
  {
    ExtraField(m) + NameField(m)
  }

  /** Everything the checksum is about. */
  function Front(m: Member): seq<Byte>
    requires Possible(m)
  {
    m.fixed + Optional(m) + CommentField(m)
  }

  function Header(m: Member): seq<Byte>
    requires Possible(m)
  {
    Front(m) + CheckField(m)
  }

  /** The checksum is that of the bytes before it, as the one-shot skip demands. */
  predicate Sound(m: Member, crc: seq<Byte> -> nat)
    requires Possible(m)
  {
    Has(m.fixed[3] as int, FHCRC) ==> crc(Front(m)) % 0x1_0000 == m.check
  }

  /** The checksum is that of the fixed part with the flags of the fields read before it cleared, as
      the stateful parser demands. */
  predicate Accepted(m: Member, crc: seq<Byte> -> nat)
    requires Possible(m)
  {
    Has(m.fixed[3] as int, FHCRC) ==> crc(m.fixed[3 := (m.fixed[3] as int % 4) as Byte]) % 0x1_0000 == m.check
  }
}
