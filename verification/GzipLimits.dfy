/**
  Exactly which headers the stateful parser gets through. Lengths are kept in 16 bits, an empty name is
  taken for a missing one, and the zero after a comment is not skipped, so that a header with a long
  extra field, a long name, an empty name or a comment sends it astray: then it never enters the body
  where the body is.
 */
module GzipLimits {
  import opened GzipSpec
  import opened GzipRuns
  import opened Lists

  /** The flags when extra field, name and comment are still to come as `e`, `n` and `c` say. */
  function FlagsLeft(m: Member, e: bool, n: bool, c: bool): (f: nat)
    requires Possible(m)
    ensures f < 32
  {
    Flags(m, e, n) + if c then FCOMMENT else 0
  }

  predicate StillDue(m: Member, e: bool, n: bool, c: bool)
    requires Possible(m)
  {
    && Due(m, e, n) && (c ==> Has(m.fixed[3] as int, FCOMMENT))
    && ((e || n) && Has(m.fixed[3] as int, FCOMMENT) ==> c)
  }

  lemma LeftBits(m: Member, e: bool, n: bool, c: bool)
    requires Possible(m)
    ensures var f := FlagsLeft(m, e, n, c);
      && (Has(f, FEXTRA) <==> e) && (Has(f, FNAME) <==> n) && (Has(f, FCOMMENT) <==> c)
      && (Has(f, FHCRC) <==> Has(m.fixed[3] as int, FHCRC))
      && (e ==> f - FEXTRA == FlagsLeft(m, false, n, c)) && (n ==> f - FNAME == FlagsLeft(m, e, false, c))
      && (c ==> f - FCOMMENT == FlagsLeft(m, e, n, false))
  {
    hide Has, Flags, GoodHeader;
    FlagBits(m, e, n);
    CommentBit(Flags(m, e, n));
  }

  /** The flag of a comment does not touch the others. */
  lemma CommentBit(f: nat)
    requires f < 16
    ensures Has(f + FCOMMENT, FCOMMENT) && (Has(f + FCOMMENT, FEXTRA) <==> Has(f, FEXTRA))
    ensures (Has(f + FCOMMENT, FNAME) <==> Has(f, FNAME)) && (Has(f + FCOMMENT, FHCRC) <==> Has(f, FHCRC))
  {
    assert (f + 16) / 4 == f / 4 + 4 && (f + 16) / 8 == f / 8 + 2 && (f + 16) / 2 == f / 2 + 8;
  }

  lemma LeftAtStart(m: Member)
    requires Possible(m)
    ensures var f := m.fixed[3] as int;
      && FlagsLeft(m, Has(f, FEXTRA), Has(f, FNAME), Has(f, FCOMMENT)) == f
      && StillDue(m, Has(f, FEXTRA), Has(f, FNAME), Has(f, FCOMMENT))
  {
    assert m.fixed[3] < 32;
  }

  /** The bytes taken for the extra field, once it is taken. */
  function ExtraTaken(m: Member): nat
    requires Possible(m)
  {
    if Has(m.fixed[3] as int, FEXTRA) then (2 + |m.extra|) % 0x1_0000 else 0
  }

  /** Where the name ends. */
  function NameEnd(m: Member): nat
    requires Possible(m)
  {
    HEADER_SIZE + |ExtraField(m)| + |NameField(m)|
  }

  /** How far the parser can have come with extra field and name passed. */
  predicate Passed(m: Member, used: nat)
    requires Possible(m)
  {
    used <= NameEnd(m) && (!Readable(m) && !Has(m.fixed[3] as int, FCOMMENT) ==> used < NameEnd(m))
  }

  /** Where the parser is once extra field and name are passed, `c` saying whether the comment is due. */
  predicate AfterNames(m: Member, c: bool, used: nat)
    requires Possible(m)
  {
    if c then Passed(m, used) else used < |Front(m)|
  }

  ghost predicate Behind(m: Member, e: bool, n: bool, c: bool, r: Run)
    requires Possible(m)
  {
    && StillDue(m, e, n, c) && r.parser.header == m.fixed[3 := FlagsLeft(m, e, n, c) as Byte]
    && (e ==> r.used == HEADER_SIZE)
    && (!e && n ==> r.used == HEADER_SIZE + ExtraTaken(m))
    && (!e && !n ==> AfterNames(m, c, r.used))
  }

  /** Where the parser is on the stream of an unreadable member. */
  ghost predicate Astray(m: Member, body: seq<Byte>, r: Run)
    requires Possible(m)
  {
    && r.used <= |r.received| && r.received <= Header(m) + body
    && (r.parser.state == ExpectingOptional ==> |r.parser.header| == HEADER_SIZE)
    && match r.parser.state
       case ExpectingHeader => r.parser == START.parser && r.used == 0
       case ExpectingOptional => exists e, n, c :: Behind(m, e, n, c, r)
       case ExpectingBody => r.used < |Header(m)|
       case Failed => true
       case _ => false
  }

  // ----- what the fields take, whatever the bytes

  /** The comment, from `from` on, is taken or, with `c'`, still to come. */
  predicate TookComment(c: bool, v: seq<Byte>, from: nat, used: nat, c': bool)
    requires from <= |v|
  {
    var x := if c then CommentUse(v[from..]) else 0;
    if c' then c && used == from else 0 <= x && used == from + x
  }

  predicate TookName(n: bool, c: bool, v: seq<Byte>, from: nat, used: nat, n': bool, c': bool)
    requires from <= |v|
  {
    var w := if n then NameUse(v[from..]) else 0;
    if n' then n && c' == c && used == from else 0 <= w && TookComment(c, v, from + w, used, c')
  }

  /** Fields that are taken one after the other, with what is still to come. */
  predicate Took(e: bool, n: bool, c: bool, v: seq<Byte>, used: nat, e': bool, n': bool, c': bool)
  {
    var u := if e then ExtraUse(v) else 0;
    if e' then e && n' == n && c' == c && used == 0 else 0 <= u && TookName(n, c, v, u, used, n', c')
  }

  lemma CommentOutcome(m: Member, c: bool, b: Progress, v: seq<Byte>) returns (c': bool)
    requires Possible(m) && b.used <= |v| && !b.waiting && b.flags == FlagsLeft(m, false, false, c)
    ensures var g := Between(AfterComment(Between(b, v), v), v);
      && g.flags == FlagsLeft(m, false, false, c') && (!g.waiting ==> !c') && TookComment(c, v, b.used, g.used, c')
  {
    hide Has, CommentUse, FlagsLeft, Possible;
    LeftBits(m, false, false, c);
    c' := c && AfterComment(Between(b, v), v).waiting;
  }

  lemma NameOutcome(m: Member, n: bool, c: bool, a: Progress, v: seq<Byte>) returns (n': bool, c': bool)
    requires Possible(m) && a.used <= |v| && !a.waiting && a.flags == FlagsLeft(m, false, n, c)
    ensures var g := NameAndComment(a, v);
      && g.flags == FlagsLeft(m, false, n', c') && (!g.waiting ==> !n' && !c')
      && TookName(n, c, v, a.used, g.used, n', c')
  {
    hide Has, NameUse, FlagsLeft, Possible, AfterComment, TookComment;
    LeftBits(m, false, n, c);
    var b := AfterName(Between(a, v), v);
    if n && b.waiting {
      StaysWaiting(b, v);
      return n, c;
    }
    n' := false;
    var d := b.(waiting := false);
    c' := CommentOutcome(m, c, d, v);
    WaitsAnyway(b, v);
  }

  lemma StaysWaiting(b: Progress, v: seq<Byte>)
    requires b.waiting && b.used <= |v|
    ensures Between(AfterComment(Between(b, v), v), v) == b
  {
  }

  /** Waiting for want of bytes is found out again. */
  lemma WaitsAnyway(b: Progress, v: seq<Byte>)
    requires b.used <= |v| && (b.waiting ==> b.flags != 0 && b.used == |v|)
    ensures AfterComment(Between(b, v), v) == AfterComment(Between(b.(waiting := false), v), v)
  {
    hide Has;
  }

  lemma FieldsOutcome(m: Member, e: bool, n: bool, c: bool, v: seq<Byte>) returns (e': bool, n': bool, c': bool)
    requires Possible(m)
    ensures var g := Fields(FlagsLeft(m, e, n, c), v);
      g.flags == FlagsLeft(m, e', n', c') && (!g.waiting ==> !e' && !n' && !c') && Took(e, n, c, v, g.used, e', n', c')
  {
    hide Has, ExtraUse, FlagsLeft, Possible, NameAndComment, TookName;
    LeftBits(m, e, n, c);
    var a := AfterExtra(FlagsLeft(m, e, n, c), v);
    if a.waiting {
      Waits(a, v);
      return e, n, c;
    }
    e' := false;
    n', c' := NameOutcome(m, n, c, a, v);
  }

  // ----- what they take of a header

  /** An extra field of any length: it is waited for, or its length in 16 bits is taken. */
  lemma ExtraCut(m: Member, body: seq<Byte>, received: seq<Byte>)
    requires Possible(m) && Has(m.fixed[3] as int, FEXTRA)
    requires HEADER_SIZE <= |received| && received <= Header(m) + body
    ensures var u := ExtraUse(received[HEADER_SIZE..]); u == -1 || u == ExtraTaken(m)
  {
    hide Has, GoodHeader, NameField, CommentField, CheckField;
    var v, x := received[HEADER_SIZE..], ExtraField(m);
    if |v| > 2 {
      assert v[0] == received[HEADER_SIZE] == (Header(m) + body)[HEADER_SIZE] == x[0];
      assert v[1] == received[HEADER_SIZE + 1] == (Header(m) + body)[HEADER_SIZE + 1] == x[1];
      assert ReadLe16(v) == |m.extra|;
    }
  }

  /** The bytes after the extra field. */
  lemma AfterExtraField(m: Member, body: seq<Byte>, received: seq<Byte>, k: nat)
    requires Possible(m) && received <= Header(m) + body
    ensures var a := HEADER_SIZE + |ExtraField(m)|;
      && (k < |NameField(m)| && a + k < |received| ==> received[a + k] == NameField(m)[k])
      && (k < |CommentField(m)| && NameEnd(m) + k < |received| ==> received[NameEnd(m) + k] == CommentField(m)[k])
      && |Front(m)| == NameEnd(m) + |CommentField(m)|
  {
    hide Has, GoodHeader, ExtraField, NameField, CommentField, CheckField;
    var all := Header(m) + body;
    assert all == m.fixed + ExtraField(m) + NameField(m) + CommentField(m) + (CheckField(m) + body);
  }

  /** A name that is taken, from where the parser believes it to be, does not lead past its end, and on an
      unreadable header without a comment not even to it. */
  lemma NameBehind(m: Member, body: seq<Byte>, received: seq<Byte>, at: nat)
    requires Possible(m) && Has(m.fixed[3] as int, FNAME) && at <= |received| && received <= Header(m) + body
    requires at == HEADER_SIZE + ExtraTaken(m) && NameUse(received[at..]) >= 0
    ensures Passed(m, at + NameUse(received[at..]))
  {
    hide Has, NameUse, CommentUse, GoodHeader, Header, CommentField;
    var w := received[at..];
    NameShort(w);
    if ExtraTaken(m) == |ExtraField(m)| {
      AfterExtraField(m, body, received, |m.name|);
      if |w| > |m.name| {
        assert w[|m.name|] == 0;
        ZeroStops(w, |m.name|);
      }
    }
  }

  /** No text leads past a zero, and none that is empty is taken. */
  lemma ZeroStops(w: seq<Byte>, i: nat)
    requires i < |w| && w[i] == 0
    ensures NameUse(w) <= i + 1 && CommentUse(w) <= i && (i == 0 ==> NameUse(w) == -1)
  {
    hide StrNLen;
    assert StrNLen(w) <= i;
  }

  lemma NameShort(w: seq<Byte>)
    ensures NameUse(w) <= 65535 && NameUse(w) <= StrNLen(w) + 1 && (NameUse(w) >= 0 ==> w != [])
  {
  }

  /** Without a name the parser is at most where the name would be. */
  lemma NoNameBehind(m: Member)
    requires Possible(m) && !Has(m.fixed[3] as int, FNAME)
    ensures Passed(m, HEADER_SIZE + ExtraTaken(m))
  {
    hide Has, GoodHeader;
  }

  /** A comment that is taken leads at most to its zero. */
  lemma CommentBehind(m: Member, body: seq<Byte>, received: seq<Byte>, at: nat)
    requires Possible(m) && Has(m.fixed[3] as int, FCOMMENT) && at <= |received| && received <= Header(m) + body
    requires at <= NameEnd(m) && CommentUse(received[at..]) >= 0
    ensures at + CommentUse(received[at..]) < |Front(m)|
  {
    hide Has, NameUse, CommentUse, GoodHeader, Header, Front, NameEnd;
    var w, z := received[at..], NameEnd(m) + |m.comment|;
    AfterExtraField(m, body, received, |m.comment|);
    if |received| > z {
      assert w[z - at] == received[z] == 0;
      ZeroStops(w, z - at);
    }
  }

  /** Without a comment, what passes the name of an unreadable header stays before the end. */
  lemma NoCommentBehind(m: Member, used: nat)
    requires Possible(m) && !Readable(m) && !Has(m.fixed[3] as int, FCOMMENT) && Passed(m, used)
    ensures used < |Front(m)|
  {
    hide Has, GoodHeader, Readable;
  }

  lemma TookCommentBehind(m: Member, body: seq<Byte>, received: seq<Byte>, at: nat, c: bool, from: nat, used: nat,
                          c': bool)
    requires Possible(m) && !Readable(m) && received <= Header(m) + body && at + from <= |received|
    requires (c ==> Has(m.fixed[3] as int, FCOMMENT)) && AfterNames(m, c, at + from)
    requires TookComment(c, received[at..], from, used, c')
    ensures AfterNames(m, c', at + used)
  {
    hide CommentUse, Has, Possible, Readable, Header, Passed, Front;
    Later(received, at, from);
    if c && !c' {
      PassedEnd(m, at + from);
      CommentBehind(m, body, received, at + from);
    }
  }

  /** Where the name is taken or was not due. */
  lemma NamesPassed(m: Member, c: bool, used: nat)
    requires Possible(m) && !Readable(m) && Passed(m, used) && (!c ==> !Has(m.fixed[3] as int, FCOMMENT))
    ensures AfterNames(m, c, used)
  {
    hide Has, Possible, Readable, Passed, Front;
    if !c { NoCommentBehind(m, used); }
  }

  lemma TookNameBehind(m: Member, body: seq<Byte>, received: seq<Byte>, at: nat, n: bool, c: bool, from: nat, used: nat,
                       n': bool, c': bool)
    requires Possible(m) && !Readable(m) && received <= Header(m) + body && at + from <= |received|
    requires StillDue(m, false, n, c) && TookName(n, c, received[at..], from, used, n', c')
    requires if n then at + from == HEADER_SIZE + ExtraTaken(m) else AfterNames(m, c, at + from)
    ensures n' ==> at + used == HEADER_SIZE + ExtraTaken(m)
    ensures !n' ==> AfterNames(m, c', at + used)
  {
    hide NameUse, Has, Possible, Readable, Header, AfterNames, TookComment, ExtraTaken, Passed;
    Later(received, at, from);
    if !n' {
      var w := if n then NameUse(received[at..][from..]) else 0;
      if n {
        NameBehind(m, body, received, at + from);
        NamesPassed(m, c, at + from + w);
      }
      TookCommentBehind(m, body, received, at, c, from + w, used, c');
    }
  }

  /** What was taken leaves the parser behind. */
  lemma TookBehind(m: Member, body: seq<Byte>, r: Run, e: bool, n: bool, c: bool, t: Run, e': bool, n': bool, c': bool)
    requires Possible(m) && !Readable(m) && r.used <= |r.received| && r.received <= Header(m) + body
    requires Behind(m, e, n, c, r) && t.parser.header == m.fixed[3 := FlagsLeft(m, e', n', c') as Byte]
    requires r.used <= t.used && Took(e, n, c, r.received[r.used..], t.used - r.used, e', n', c')
    ensures Behind(m, e', n', c', t)
  {
    if e { ExtraCut(m, body, r.received); }
    LeftDue(m, e, n, c, r.received[r.used..], t.used - r.used, e', n', c');
    hide ExtraUse, Has, Possible, Readable, FlagsLeft, ExtraTaken, Header, TookName, AfterNames;
    if !e' {
      var u := if e then ExtraUse(r.received[r.used..]) else 0;
      if e && !n {
        NoNameBehind(m);
        NamesPassed(m, c, r.used + u);
      }
      TookNameBehind(m, body, r.received, r.used, n, c, u, t.used - r.used, n', c');
    }
  }

  lemma LeftDue(m: Member, e: bool, n: bool, c: bool, v: seq<Byte>, used: nat, e': bool, n': bool, c': bool)
    requires Possible(m) && StillDue(m, e, n, c) && Took(e, n, c, v, used, e', n', c')
    ensures StillDue(m, e', n', c')
    ensures !e' ==> StillDue(m, false, n, c)
    ensures e && !n ==> !Has(m.fixed[3] as int, FNAME)
    ensures (e || n) && !c ==> !Has(m.fixed[3] as int, FCOMMENT)
  {
    hide Has, ExtraUse, NameUse, CommentUse, Possible;
  }

  lemma PassedEnd(m: Member, used: nat)
    requires Possible(m) && Passed(m, used)
    ensures used <= NameEnd(m)
  {
  }

  /** The fields keep the parser behind. */
  lemma FieldsBehind(m: Member, body: seq<Byte>, r: Run, e: bool, n: bool, c: bool)
      returns (e': bool, n': bool, c': bool)
    requires Possible(m) && !Readable(m) && r.used <= |r.received| && r.received <= Header(m) + body
    requires r.parser.state == ExpectingOptional && Behind(m, e, n, c, r)
    ensures |r.parser.header| == HEADER_SIZE
    ensures var g := Fields(r.parser.header[3] as int, r.received[r.used..]);
      var q := WithFlags(r.parser, r.parser.state, g.flags);
      Behind(m, e', n', c', Run(q, r.received, r.used + g.used)) && (!g.waiting ==> !e' && !n' && !c')
  {
    assert |m.fixed| == HEADER_SIZE;
    var v := r.received[r.used..];
    e', n', c' := FieldsOutcome(m, e, n, c, v);
    assert r.parser.header[3] as int == FlagsLeft(m, e, n, c);
    hide Fields, Took, Has, Possible, Readable, FlagsLeft, ExtraTaken, Header, Passed, Front, StillDue;
    var g := Fields(r.parser.header[3] as int, v);
    assert r.parser.header[3 := g.flags as Byte] == m.fixed[3 := g.flags as Byte];
    var t := Run(WithFlags(r.parser, r.parser.state, g.flags), r.received, r.used + g.used);
    TookBehind(m, body, r, e, n, c, t, e', n', c');
  }

  lemma BehindIsAstray(m: Member, body: seq<Byte>, e: bool, n: bool, c: bool, t: Run)
    requires Possible(m) && t.used <= |t.received| && t.received <= Header(m) + body
    requires t.parser.state == ExpectingOptional && |t.parser.header| == HEADER_SIZE && Behind(m, e, n, c, t)
    ensures Astray(m, body, t)
  {
    hide Possible, Header, Behind;
  }

  /** The checksum, read from the wrong place or waited for. */
  lemma CheckAstray(m: Member, body: seq<Byte>, q: Run, crc: seq<Byte> -> nat)
    requires Possible(m) && q.used <= |q.received| && q.received <= Header(m) + body
    requires q.parser.state == ExpectingOptional && |q.parser.header| == HEADER_SIZE
    requires Behind(m, false, false, false, q)
    ensures var o := CheckStep(q.parser, q.received[q.used..], crc);
      Astray(m, body, Run(o.next, q.received, q.used + o.used))
  {
    LeftBits(m, false, false, false);
    assert q.parser.header[3] as int == FlagsLeft(m, false, false, false) && q.used < |Front(m)|;
    assert |Header(m)| == |Front(m)| + if Has(m.fixed[3] as int, FHCRC) then 2 else 0;
    hide Behind, Header, Front, Has, FlagsLeft, Possible;
    if CheckStep(q.parser, q.received[q.used..], crc).next.state == ExpectingOptional {
      BehindIsAstray(m, body, false, false, false, q);
    }
  }

  lemma OptionalAstray(m: Member, body: seq<Byte>, r: Run, e: bool, n: bool, c: bool, crc: seq<Byte> -> nat)
    requires Possible(m) && !Readable(m) && r.used <= |r.received| && r.received <= Header(m) + body
    requires r.parser.state == ExpectingOptional && Behind(m, e, n, c, r)
    ensures |r.parser.header| == HEADER_SIZE
    ensures var o := OptionalStep(r.parser, r.received[r.used..], crc);
      Astray(m, body, Run(o.next, r.received, r.used + o.used))
  {
    hide Fields, Has, Possible, Readable, Behind, Header, CheckStep;
    var e', n', c' := FieldsBehind(m, body, r, e, n, c);
    var v := r.received[r.used..];
    var g := Fields(r.parser.header[3] as int, v);
    var q := Run(WithFlags(r.parser, r.parser.state, g.flags), r.received, r.used + g.used);
    if g.waiting {
      BehindIsAstray(m, body, e', n', c', q);
    } else {
      Later(r.received, r.used, g.used);
      CheckAstray(m, body, q, crc);
    }
  }

  lemma HeaderAstray(m: Member, body: seq<Byte>, all: seq<Byte>)
    requires Possible(m) && !Readable(m) && HEADER_SIZE <= |all| && all <= Header(m) + body
    ensures var h, f := HeaderStep(START.parser, all), m.fixed[3] as int;
      && h == Outcome(Parser(ExpectingOptional, m.fixed), HEADER_SIZE, Ok)
      && Behind(m, Has(f, FEXTRA), Has(f, FNAME), Has(f, FCOMMENT), Run(h.next, all, HEADER_SIZE))
  {
    assert all[..HEADER_SIZE] == (Header(m) + body)[..HEADER_SIZE] == m.fixed by {
      hide Has, Optional, CommentField, CheckField;
    }
    LeftAtStart(m);
    hide Has, Optional, FlagsLeft, CommentField, CheckField, StillDue;
    if !Has(m.fixed[3] as int, FNAME) { NoNameBehind(m); }
    assert m.fixed[3 := m.fixed[3]] == m.fixed;
  }

  lemma FirstCall(m: Member, body: seq<Byte>, all: seq<Byte>, crc: seq<Byte> -> nat)
    requires Possible(m) && !Readable(m) && all <= Header(m) + body
    ensures var o := HeadStep(START.parser, all, crc); Astray(m, body, Run(o.next, all, o.used))
  {
    assert |m.fixed| == HEADER_SIZE;
    hide OptionalStep, Possible, Readable, Has, HeaderStep, HeadStep, Header, Behind;
    if |all| >= HEADER_SIZE {
      HeaderAstray(m, body, all);
      WholeHeader(START.parser, all, m.fixed, crc);
      var f := m.fixed[3] as int;
      OptionalAstray(m, body, Run(Parser(ExpectingOptional, m.fixed), all, HEADER_SIZE),
                     Has(f, FEXTRA), Has(f, FNAME), Has(f, FCOMMENT), crc);
    } else {
      ShortHeader(START.parser, all, crc);
    }
  }

  lemma LaterAstray(m: Member, body: seq<Byte>, r: Run, crc: seq<Byte> -> nat)
    requires Possible(m) && !Readable(m) && Astray(m, body, r) && r.parser.state == ExpectingOptional
    ensures var o := HeadStep(r.parser, r.received[r.used..], crc);
      Astray(m, body, Run(o.next, r.received, r.used + o.used))
  {
    hide OptionalStep, Possible, Readable, HeadStep, Header, Behind;
    var e, n, c :| Behind(m, e, n, c, r);
    OptionalAstray(m, body, r, e, n, c, crc);
    LaterCall(r.parser, r.received[r.used..], crc);
  }

  lemma FeedAstray(m: Member, body: seq<Byte>, r: Run, piece: seq<Byte>, crc: seq<Byte> -> nat)
    requires Possible(m) && !Readable(m) && Astray(m, body, r) && r.received + piece <= Header(m) + body
    ensures Astray(m, body, Feed(r, piece, crc)) && Feed(r, piece, crc).received == r.received + piece
  {
    hide Possible, Readable, HeadStep, Header, Astray;
    var all := r.received + piece;
    AstrayShape(m, body, r);
    MoreReceived(m, body, r, all);
    if r.parser.state == ExpectingHeader {
      assert all[0..] == all;
      FirstCall(m, body, all, crc);
    } else if r.parser.state == ExpectingOptional {
      LaterAstray(m, body, r.(received := all), crc);
    } else {
      NoCall(r.parser, all[r.used..], crc);
    }
  }

  lemma AstrayShape(m: Member, body: seq<Byte>, r: Run)
    requires Possible(m) && Astray(m, body, r)
    ensures r.used <= |r.received| && (r.parser.state == ExpectingHeader ==> r.parser == START.parser && r.used == 0)
    ensures r.parser.state == ExpectingOptional ==> |r.parser.header| == HEADER_SIZE
  {
  }

  lemma MoreReceived(m: Member, body: seq<Byte>, r: Run, all: seq<Byte>)
    requires Possible(m) && Astray(m, body, r) && r.received <= all <= Header(m) + body
    ensures Astray(m, body, r.(received := all))
  {
    hide Possible, Header, Behind;
    if r.parser.state == ExpectingOptional {
      var e, n, c :| Behind(m, e, n, c, r);
      StillBehind(m, e, n, c, r, all);
    }
  }

  lemma StillBehind(m: Member, e: bool, n: bool, c: bool, r: Run, all: seq<Byte>)
    requires Possible(m) && Behind(m, e, n, c, r)
    ensures Behind(m, e, n, c, r.(received := all))
  {
  }

  lemma {:induction false} AllAstray(m: Member, body: seq<Byte>, r: Run, pieces: seq<seq<Byte>>, crc: seq<Byte> -> nat)
    requires Possible(m) && !Readable(m) && Astray(m, body, r) && r.received + Concat(pieces) <= Header(m) + body
    ensures Astray(m, body, FeedAll(r, pieces, crc))
    decreases |pieces|
  {
    hide Feed, Possible, Readable, Header;
    if pieces != [] {
      assert r.received + Concat(pieces) == r.received + pieces[0] + Concat(pieces[1..]);
      assert r.received + pieces[0] <= Header(m) + body;
      FeedAstray(m, body, r, pieces[0], crc);
      AllAstray(m, body, Feed(r, pieces[0], crc), pieces[1..], crc);
    }
  }

  /** For every header and every fragmentation that brings a body byte: the stateful parser is in the body
      where the one-shot skip is if and only if there is no comment, the extra field has at most 65533
      bytes, the name is not empty and shorter than 65535 bytes, and both parsers accept the checksum. */
  lemma ExactlyWhen(m: Member, body: seq<Byte>, pieces: seq<seq<Byte>>, crc: seq<Byte> -> nat)
    requires Possible(m) && |body| >= 8 && Concat(pieces) <= Header(m) + body && |Concat(pieces)| > |Header(m)|
    ensures var r := FeedAll(START, pieces, crc);
      r.parser.state == ExpectingBody && OneShot(Header(m) + body, crc) == At(r.used)
      <==> Readable(m) && Accepted(m, crc) && Sound(m, crc)
  {
    assert |m.fixed| == HEADER_SIZE;
    hide FeedAll, OneShot, Possible, Readable, Header, Accepted, Sound;
    if Readable(m) {
      ResumableAgrees(m, body, pieces, crc);
    } else {
      assert [] + Concat(pieces) == Concat(pieces);
      OneShotFinds(m, body, crc);
      AllAstray(m, body, START, pieces, crc);
    }
  }

  // ----- comments

  /** With a comment as the only optional field the stateful parser never agrees with the one-shot skip,
      whatever the comment: it is held up, or it enters the body at the comment's final zero or, with
      a length of more than 16 bits, even earlier. */
  lemma CommentMissed(fixed: seq<Byte>, comment: seq<Byte>, body: seq<Byte>, crc: seq<Byte> -> nat)
    requires |fixed| == HEADER_SIZE && GoodHeader(fixed) && fixed[3] as int == FCOMMENT && |body| >= 8
    requires forall i :: 0 <= i < |comment| ==> comment[i] != 0
    ensures var o := OptionalStep(Parser(ExpectingOptional, fixed), comment + [0] + body, crc);
      && (o.next.state == ExpectingBody <==> |comment| % 0x1_0000 != 0)
      && o.used == |comment| % 0x1_0000 <= |comment|
      && OneShot(fixed + comment + [0] + body, crc) == At(HEADER_SIZE + |comment| + 1)
  {
    hide Fields, OneShot, OptionalStep;
    var v := comment + [0] + body;
    CommentPassedBy(v, |comment|);
    WithoutCheck(Parser(ExpectingOptional, fixed), v, crc);
    CommentSkipped(fixed, comment, body, crc);
  }

  lemma CommentPassedBy(v: seq<Byte>, n: nat)
    requires n + 1 < |v| && v[n] == 0 && forall i :: 0 <= i < n ==> v[i] != 0
    ensures Fields(FCOMMENT, v)
         == var x := n % 0x1_0000; if x == 0 then Progress(FCOMMENT, 0, true) else Progress(0, x, false)
  {
    assert v[0..] == v && StrNLen(v) == n;
    assert CommentUse(v) == if n % 0x1_0000 == 0 then -1 else n % 0x1_0000;
    hide CommentUse, NameUse, ExtraUse;
    var g := AfterExtra(FCOMMENT, v);
    assert g == Progress(FCOMMENT, 0, false) == Between(AfterName(Between(g, v), v), v);
  }

  lemma WithoutCheck(p: Parser, v: seq<Byte>, crc: seq<Byte> -> nat)
    requires |p.header| == HEADER_SIZE && !Has(Fields(p.header[3] as int, v).flags, FHCRC)
    ensures var g := Fields(p.header[3] as int, v);
      OptionalStep(p, v, crc)
      == Outcome(WithFlags(p, if g.waiting then p.state else ExpectingBody, g.flags), g.used, Ok)
  {
    hide Fields, Has;
  }

  lemma CommentSkipped(fixed: seq<Byte>, comment: seq<Byte>, body: seq<Byte>, crc: seq<Byte> -> nat)
    requires |fixed| == HEADER_SIZE && GoodHeader(fixed) && |body| >= 8 && fixed[3] as int == FCOMMENT
    requires forall i :: 0 <= i < |comment| ==> comment[i] != 0
    ensures OneShot(fixed + comment + [0] + body, crc) == At(HEADER_SIZE + |comment| + 1)
  {
    hide SkipZero;
    var p := fixed + comment + [0] + body;
    NameSkipped(fixed, comment, body);
    assert p[0] == fixed[0] && p[1] == fixed[1] && p[2] == fixed[2] && p[3] == fixed[3];
  }
}
