/** The gzip header byte by byte (section 2.3 of RFC 1952): how it is written, and which beginnings are refused. */
module GzipLayout {
  import opened GzipSpec
  import opened GzipRuns
  import opened Lists

  /** Extra field, name, comment and checksum follow the fixed part in this order, each if its bit is set: the bits
      of value 4, 8, 16 and 2. Lengths and the checksum come with the low byte first, and texts end with a zero. */
  lemma HeaderBytes(m: Member)
    requires Possible(m)
    ensures var f := m.fixed[3] as int;
      Header(m) == m.fixed
        + (if f / 4 % 2 == 1 then [(|m.extra| % 256) as Byte, (|m.extra| / 256) as Byte] + m.extra else [])
        + (if f / 8 % 2 == 1 then m.name + [0] else [])
        + (if f / 16 % 2 == 1 then m.comment + [0] else [])
        + (if f / 2 % 2 == 1 then [(m.check % 256) as Byte, (m.check / 256) as Byte] else [])
  {
    var x, n := ExtraField(m), NameField(m);
    assert m.fixed + (x + n) == m.fixed + x + n;
  }

  /** The two magic bytes, the method, and no flag above the five. */
  predicate Begins(v: seq<Byte>)
    requires |v| >= 4
  {
    v[0] == 0x1F && v[1] == 0x8B && v[2] == 8 && v[3] < 32
  }

  lemma FixedPart(v: seq<Byte>)
    requires |v| >= HEADER_SIZE
    ensures GoodHeader(v[..HEADER_SIZE]) <==> Begins(v)
  {
  }

  /** However it is cut, a text that begins otherwise makes the stateful parser fail as soon as ten bytes have come,
      and the one-shot skip refuses it. */
  lemma BeginsOtherwise(pieces: seq<seq<Byte>>, crc: seq<Byte> -> nat)
    requires |Concat(pieces)| >= HEADER_SIZE && !Begins(Concat(pieces))
    ensures FeedAll(START, pieces, crc).parser.state == Failed && OneShot(Concat(pieces), crc) == Bad
  {
    assert [] + Concat(pieces) == Concat(pieces);
    FailsAt(START, pieces, crc);
  }

  lemma {:induction false} FailsAt(r: Run, pieces: seq<seq<Byte>>, crc: seq<Byte> -> nat)
    requires r.used <= |r.received| && |r.received + Concat(pieces)| >= HEADER_SIZE
    requires !Begins(r.received + Concat(pieces))
    requires if |r.received| < HEADER_SIZE then r.parser == START.parser && r.used == 0 else r.parser.state == Failed
    ensures FeedAll(r, pieces, crc).parser.state == Failed
    decreases |pieces|
  {
    if pieces == [] {
      assert r.received + [] == r.received;
    } else {
      hide Concat, FeedAll;
      var all, t := r.received + pieces[0], Feed(r, pieces[0], crc);
      Unfolded(r, pieces, crc);
      assert r.received + Concat(pieces) == all + Concat(pieces[1..]);
      OnePiece(r, pieces[0], all + Concat(pieces[1..]), crc);
      FailsAt(t, pieces[1..], crc);
    }
  }

  lemma Unfolded(r: Run, pieces: seq<seq<Byte>>, crc: seq<Byte> -> nat)
    requires pieces != [] && r.used <= |r.received|
    requires r.parser.state == ExpectingOptional ==> |r.parser.header| == HEADER_SIZE
    ensures FeedAll(r, pieces, crc) == FeedAll(Feed(r, pieces[0], crc), pieces[1..], crc)
    ensures Concat(pieces) == pieces[0] + Concat(pieces[1..])
  {
  }

  lemma OnePiece(r: Run, piece: seq<Byte>, text: seq<Byte>, crc: seq<Byte> -> nat)
    requires r.used <= |r.received| && r.received + piece <= text && |text| >= HEADER_SIZE && !Begins(text)
    requires if |r.received| < HEADER_SIZE then r.parser == START.parser && r.used == 0 else r.parser.state == Failed
    ensures var t := Feed(r, piece, crc);
      && t.used <= |t.received| && t.received == r.received + piece
      && if |t.received| < HEADER_SIZE then t.parser == START.parser && t.used == 0 else t.parser.state == Failed
  {
    hide OptionalStep, GoodHeader;
    var all := r.received + piece;
    if |r.received| < HEADER_SIZE {
      assert all[0..] == all;
      if |all| >= HEADER_SIZE { FixedPart(all); }
    }
  }

  /** What a header step reports: a failure if and only if ten bytes are there that begin otherwise, a corrupted
      header only for a checksum that does not agree, and success in every other case; and it ends in the failed
      state if and only if it reports one of the two. */
  lemma HeadStatus(p: Parser, v: seq<Byte>, crc: seq<Byte> -> nat)
    requires (p.state == ExpectingOptional ==> |p.header| == HEADER_SIZE) && p.state != Failed
    ensures var o := HeadStep(p, v, crc);
      && (o.status == Failure <==> p.state == ExpectingHeader && |v| >= HEADER_SIZE && !Begins(v))
      && (o.status == CorruptedHeader ==>
            Has(o.next.header[3] as int, FHCRC) && o.used + 2 < |v|
            && ReadLe16(v[o.used..]) != crc(o.next.header) % 0x1_0000)
      && (o.next.state == Failed <==> o.status != Ok)
  {
    hide Has, GoodHeader, Fields;
    if p.state == ExpectingHeader && |v| >= HEADER_SIZE { FixedPart(v); }
    var h := if p.state == ExpectingHeader then HeaderStep(p, v) else Outcome(p, 0, Ok);
    if h.status == Ok && h.next.state == ExpectingOptional {
      var w := v[h.used..];
      var g := Fields(h.next.header[3] as int, w);
      assert w[g.used..] == v[h.used + g.used..];
    }
  }

  /** An inflater that fails fails the context and takes nothing; without room for output it is not asked. */
  lemma InflaterFails(p: Parser, v: seq<Byte>, room: nat, crc: seq<Byte> -> nat, inflate: seq<Byte> -> Inflated)
    requires p.state == ExpectingBody && !inflate(v).ok
    ensures CallStep(p, v, room, crc, inflate)
         == if room == 0 then Call(p, 0, 0, 0, false, Ok) else Call(p.(state := Failed), 0, 0, 0, false, Failure)
  {
    assert v[0..] == v;
  }

  /** After a failure nothing is taken any more. */
  lemma FailedForever(p: Parser, v: seq<Byte>, room: nat, crc: seq<Byte> -> nat, inflate: seq<Byte> -> Inflated)
    requires p.state == Failed
    ensures CallStep(p, v, room, crc, inflate) == Call(p, 0, 0, 0, false, Ok)
  {
  }
}
