/** The stateful header parser, resumed at any points, finds the body where the one-shot skip does. */
module GzipRuns {
  import opened GzipSpec
  import opened Lists

  /** The flags when the extra field (`e`) and the name (`n`) are still to come. */
  function Flags(m: Member, e: bool, n: bool): (f: nat)
    requires Possible(m)
    ensures f < 16
  {
    m.fixed[3] as int % 4 + (if e then FEXTRA else 0) + (if n then FNAME else 0)
  }

  predicate Due(m: Member, e: bool, n: bool)
    requires Possible(m)
  {
    && (e ==> Has(m.fixed[3] as int, FEXTRA)) && (n ==> Has(m.fixed[3] as int, FNAME))
    && (e && Has(m.fixed[3] as int, FNAME) ==> n)
  }

  /** The optional fields still to come. */
  function Rest(m: Member, e: bool, n: bool): seq<Byte>
    requires Possible(m)
  {
    (if e then ExtraField(m) else []) + (if n then NameField(m) else [])
  }

  lemma FlagsAtStart(m: Member)
    requires WellFormed(m)
    ensures var e, n := Has(m.fixed[3] as int, FEXTRA), Has(m.fixed[3] as int, FNAME);
      Flags(m, e, n) == m.fixed[3] as int && Rest(m, e, n) == Optional(m) && Due(m, e, n)
  {
    assert m.fixed[3] < 32;
  }

  lemma FlagBits(m: Member, e: bool, n: bool)
    requires Possible(m)
    ensures var f := Flags(m, e, n);
      && (Has(f, FEXTRA) <==> e) && (Has(f, FNAME) <==> n) && !Has(f, FCOMMENT)
      && (Has(f, FHCRC) <==> Has(m.fixed[3] as int, FHCRC))
      && (f == 0 ==> !e && !n)
      && (e ==> f - FEXTRA == Flags(m, false, n)) && (n ==> f - FNAME == Flags(m, e, false))
  {
    var t := m.fixed[3] as int % 4;
    assert t == 0 || t == 1 || t == 2 || t == 3;
  }

  /** An extra field at the front is taken when it is complete, and there is a third byte. */
  lemma ExtraFound(m: Member, v: seq<Byte>, future: seq<Byte>, after: seq<Byte>)
    requires WellFormed(m) && Has(m.fixed[3] as int, FEXTRA) && v + future == ExtraField(m) + after
    ensures ExtraUse(v) == if |v| <= 2 || |v| < |ExtraField(m)| then -1 else |ExtraField(m)|
  {
    if |v| > 2 {
      var x := ExtraField(m);
      assert (v + future)[0] == v[0] && (v + future)[1] == v[1];
      assert (x + after)[0] == x[0] && (x + after)[1] == x[1];
      assert ReadLe16(v) == |m.extra|;
    }
  }

  /** A name at the front is taken when its final zero is there. */
  lemma NameFound(m: Member, v: seq<Byte>, future: seq<Byte>, after: seq<Byte>)
    requires WellFormed(m) && Has(m.fixed[3] as int, FNAME) && v + future == NameField(m) + after
    ensures NameUse(v) == if |v| < |NameField(m)| then -1 else |NameField(m)|
  {
    hide Has, StrNLen, GoodHeader;
    var all, n := NameField(m) + after, |m.name|;
    assert forall i :: 0 <= i < |v| ==> v[i] == (v + future)[i] == all[i];
    assert forall i :: 0 <= i < n ==> all[i] == m.name[i];
    assert all[n] == 0;
    if |v| <= n {
      assert StrNLen(v) == |v|;
    } else {
      assert StrNLen(v) == n;
    }
  }

  /** What the parser makes of the optional fields that are due, when `v` of them and of the body
      is buffered: it stops at a field boundary, and passes all fields once a body byte is there. */
  ghost predicate Advanced(m: Member, e: bool, n: bool, v: seq<Byte>, g: Progress, e': bool, n': bool)
    requires WellFormed(m)
  {
    && Due(m, e', n') && (e' ==> e) && (n' ==> n)
    && g.flags == Flags(m, e', n')
    && |Rest(m, e', n')| <= |Rest(m, e, n)| && g.used == |Rest(m, e, n)| - |Rest(m, e', n')| <= |v|
    && (!g.waiting ==> !e' && !n')
    && (|v| > |Rest(m, e, n)| ==> !g.waiting)
  }

  lemma NameOnly(m: Member, n: bool, g: Progress, v: seq<Byte>, future: seq<Byte>, body: seq<Byte>) returns (n': bool)
    requires WellFormed(m) && Due(m, false, n) && g.used <= |v| && !g.waiting && g.flags == Flags(m, false, n)
    requires v[g.used..] + future == Rest(m, false, n) + body
    ensures var r := NameAndComment(g, v);
      && (n' ==> n) && r.flags == Flags(m, false, n')
      && r.used == g.used + |Rest(m, false, n)| - |Rest(m, false, n')| <= |v|
      && (!r.waiting ==> !n') && (|v| - g.used > |Rest(m, false, n)| ==> !r.waiting)
  {
    hide Has, NameUse, Flags, Possible, Readable, AfterComment;
    FlagBits(m, false, n);
    FlagBits(m, false, false);
    n' := n;
    var w := v[g.used..];
    if n {
      assert Rest(m, false, true) == NameField(m);
      NameFound(m, w, future, body);
      if |w| >= |NameField(m)| && w != [] { n' := false; }
      assert Rest(m, false, false) == [];
    }
    NoComment(AfterName(Between(g, v), v), v);
  }

  /** Without a comment the last two parts change nothing. */
  lemma NoComment(g: Progress, v: seq<Byte>)
    requires g.used <= |v| && !Has(g.flags, FCOMMENT)
    ensures Between(AfterComment(Between(g, v), v), v) == Between(g, v)
  {
    hide Has;
  }

  /** With an extra field due: it is waited for, or taken. */
  lemma ExtraFirst(m: Member, n: bool, v: seq<Byte>, future: seq<Byte>, after: seq<Byte>)
    requires WellFormed(m) && Has(m.fixed[3] as int, FEXTRA) && v + future == ExtraField(m) + after
    ensures AfterExtra(Flags(m, true, n), v)
         == if |v| <= 2 || |v| < |ExtraField(m)| then Progress(Flags(m, true, n), 0, true)
            else Progress(Flags(m, false, n), |ExtraField(m)|, false)
  {
    FlagBits(m, true, n);
    ExtraFound(m, v, future, after);
    hide Has, ExtraUse, Flags, Possible, Readable, ExtraField;
  }

  lemma RestSplit(m: Member, n: bool)
    requires WellFormed(m)
    ensures Rest(m, true, n) == ExtraField(m) + Rest(m, false, n)
  {
  }

  lemma Peel(v: seq<Byte>, future: seq<Byte>, x: seq<Byte>, after: seq<Byte>)
    requires v + future == x + after
    ensures |x| <= |v| ==> v[|x|..] + future == after
  {
    if |x| <= |v| {
      assert v[|x|..] + future == (v + future)[|x|..];
      assert (x + after)[|x|..] == after;
    }
  }

  lemma FieldsAdvance(m: Member, e: bool, n: bool, v: seq<Byte>, future: seq<Byte>, body: seq<Byte>)
      returns (e': bool, n': bool)
    requires WellFormed(m) && Due(m, e, n) && v + future == Rest(m, e, n) + body
    ensures Advanced(m, e, n, v, Fields(Flags(m, e, n), v), e', n')
  {
    FlagBits(m, e, n);
    hide Has, ExtraUse, Flags, Possible, Readable, NameAndComment, Rest, ExtraField, NameField;
    var g := AfterExtra(Flags(m, e, n), v);
    if e {
      RestSplit(m, n);
      var x, after := ExtraField(m), Rest(m, false, n) + body;
      assert Rest(m, true, n) + body == x + after;
      ExtraFirst(m, n, v, future, after);
      ExtraSize(m);
      Peel(v, future, x, after);
      if g.waiting {
        Waits(g, v);
        return e, n;
      }
    } else {
      assert v[0..] == v;
    }
    e' := false;
    n' := NameOnly(m, n, g, v, future, body);
    RestShrinks(m, n, n');
  }

  lemma RestShrinks(m: Member, n: bool, n': bool)
    requires WellFormed(m) && (n' ==> n)
    ensures |Rest(m, false, n')| <= |Rest(m, false, n)|
  {
  }

  lemma Waits(g: Progress, v: seq<Byte>)
    requires g.waiting && g.used <= |v|
    ensures NameAndComment(g, v) == g
  {
  }

  lemma ExtraSize(m: Member)
    requires WellFormed(m) && Has(m.fixed[3] as int, FEXTRA)
    ensures |ExtraField(m)| >= 2
  {
  }

  // ----- runs

  /** The parser after the bytes `received`, of which `used` have been consumed. */
  datatype Run = Run(parser: Parser, received: seq<Byte>, used: nat)

  const START := Run(Parser(ExpectingHeader, []), [], 0)

  /** One more piece, then the header and the optional fields as far as they go. */
  function Feed(r: Run, piece: seq<Byte>, crc: seq<Byte> -> nat): (t: Run)
    requires r.used <= |r.received| && (r.parser.state == ExpectingOptional ==> |r.parser.header| == HEADER_SIZE)
    ensures t.used <= |t.received| && (t.parser.state == ExpectingOptional ==> |t.parser.header| == HEADER_SIZE)
  {
    var all := r.received + piece;
    var o := HeadStep(r.parser, all[r.used..], crc);
    Run(o.next, all, r.used + o.used)
  }

  /** Where the parser is on the stream of `m` followed by `body`. */
  ghost predicate OnTrack(m: Member, body: seq<Byte>, r: Run, crc: seq<Byte> -> nat)
    requires WellFormed(m)
  {
    && r.used <= |r.received| && r.received <= Header(m) + body
    && (r.parser.state == ExpectingOptional ==> |r.parser.header| == HEADER_SIZE)
    && match r.parser.state
       case ExpectingHeader => r.used == 0
       case ExpectingOptional => exists e, n :: Waiting(m, e, n, r)
       case ExpectingBody => r.used == |Header(m)| && Accepted(m, crc)
       case Failed => !Accepted(m, crc)
       case _ => false
  }

  ghost predicate Waiting(m: Member, e: bool, n: bool, r: Run)
    requires WellFormed(m)
  {
    Due(m, e, n) && r.parser.header == m.fixed[3 := Flags(m, e, n) as Byte]
    && r.used + |Rest(m, e, n)| == |Front(m)| && Rest(m, e, n) == Front(m)[r.used..]
  }

  /** What comes before the fields that are still due. */
  lemma Prefix(m: Member, e: bool, n: bool) returns (pre: seq<Byte>)
    requires WellFormed(m) && Due(m, e, n)
    ensures Optional(m) == pre + Rest(m, e, n)
  {
    hide Has;
    if e {
      pre := [];
      assert !Has(m.fixed[3] as int, FNAME) ==> NameField(m) == [];
      assert Optional(m) == [] + Rest(m, e, n);
    } else if n {
      pre := ExtraField(m);
      assert Rest(m, e, n) == NameField(m);
    } else {
      pre := Optional(m);
      assert Optional(m) + [] == Optional(m);
    }
  }

  lemma NoCommentField(m: Member)
    requires WellFormed(m)
    ensures Front(m) == m.fixed + Optional(m)
  {
    hide Has, Optional;
  }

  /** Fields that are still due are the end of what comes before the checksum. */
  lemma RestIsSuffix(m: Member, e: bool, n: bool)
    requires WellFormed(m) && Due(m, e, n)
    ensures |Rest(m, e, n)| <= |Optional(m)|
    ensures Rest(m, e, n) == Front(m)[|Front(m)| - |Rest(m, e, n)|..]
  {
    hide Has, Possible, Readable, Optional, Rest, Due;
    var pre := Prefix(m, e, n);
    NoCommentField(m);
    assert Front(m) == m.fixed + pre + Rest(m, e, n);
  }

  lemma DueFields(m: Member, after: seq<Byte>, r: Run, e: bool, n: bool) returns (e': bool, n': bool)
    requires WellFormed(m) && r.used <= |r.received| && r.received <= Front(m) + after && Waiting(m, e, n, r)
    ensures |r.parser.header| == HEADER_SIZE
    ensures Advanced(m, e, n, r.received[r.used..], Fields(r.parser.header[3] as int, r.received[r.used..]), e', n')
  {
    assert |m.fixed| == HEADER_SIZE;
    hide Fields, Has, Possible, Readable, Flags, Front, Rest, Advanced;
    var v, future := r.received[r.used..], (Front(m) + after)[|r.received|..];
    Split(Front(m), after, r.received, r.used);
    e', n' := FieldsAdvance(m, e, n, v, future, after);
  }

  /** The parser once extra field, name and comment have been looked at, and what is left to be done. */
  lemma FieldsDone(m: Member, after: seq<Byte>, r: Run, e: bool, n: bool) returns (e': bool, n': bool)
    requires WellFormed(m) && r.used <= |r.received| && r.received <= Front(m) + after
    requires r.parser.state == ExpectingOptional && Waiting(m, e, n, r)
    ensures |r.parser.header| == HEADER_SIZE
    ensures var g := Fields(r.parser.header[3] as int, r.received[r.used..]);
      var q := WithFlags(r.parser, r.parser.state, g.flags);
      && Waiting(m, e', n', Run(q, r.received, r.used + g.used)) && (!g.waiting ==> !e' && !n')
      && g.flags == Flags(m, e', n')
      && (|r.received| > |Front(m)| ==> !g.waiting)
  {
    e', n' := DueFields(m, after, r, e, n);
    RestIsSuffix(m, e', n');
    FlagBits(m, e', n');
    assert |m.fixed| == HEADER_SIZE;
    hide Fields, Has, Possible, Readable, Flags, Front, Rest, Due;
    assert r.parser.header[3 := Flags(m, e', n') as Byte] == m.fixed[3 := Flags(m, e', n') as Byte];
  }

  /** With all fields passed the parser stands before the checksum. */
  lemma AllPassed(m: Member, r: Run)
    requires WellFormed(m) && Waiting(m, false, false, r)
    ensures r.used == |Front(m)| && r.parser.header == m.fixed[3 := (m.fixed[3] as int % 4) as Byte]
  {
    EmptyRest(m);
  }

  /** The checksum is read as it was written. */
  lemma CheckRead(m: Member, body: seq<Byte>, received: seq<Byte>)
    requires WellFormed(m) && Has(m.fixed[3] as int, FHCRC)
    requires received <= Header(m) + body && |received| > |Front(m)| + 2
    ensures ReadLe16(received[|Front(m)|..]) == m.check && |Header(m)| == |Front(m)| + 2
  {
    hide Has, Possible, Readable, Front;
    var c, k := CheckField(m), |Front(m)|;
    assert received[k] == (Header(m) + body)[k] == c[0];
    assert received[k + 1] == (Header(m) + body)[k + 1] == c[1];
    assert received[k..][0] == c[0] && received[k..][1] == c[1];
  }

  /** The optional fields, from a waiting parser, keep it on the track; with a body byte it is through. */
  lemma OptionalOnTrack(m: Member, body: seq<Byte>, r: Run, e: bool, n: bool, crc: seq<Byte> -> nat)
    requires WellFormed(m) && r.used <= |r.received| && r.received <= Header(m) + body
    requires r.parser.state == ExpectingOptional && Waiting(m, e, n, r)
    ensures |r.parser.header| == HEADER_SIZE
    ensures var o := OptionalStep(r.parser, r.received[r.used..], crc);
      && OnTrack(m, body, Run(o.next, r.received, r.used + o.used), crc)
      && (|r.received| > |Header(m)| ==> o.next.state != ExpectingOptional)
  {
    hide Fields, Has, Possible, Readable, Flags, Waiting, Accepted, Front, Header, CheckField, CheckStep;
    HeaderSplit(m, body);
    var e', n' := FieldsDone(m, CheckField(m) + body, r, e, n);
    var v := r.received[r.used..];
    var g := Fields(r.parser.header[3] as int, v);
    var q := Run(WithFlags(r.parser, r.parser.state, g.flags), r.received, r.used + g.used);
    if g.waiting {
      WaitingOnTrack(m, body, e', n', q, crc);
    } else {
      Later(r.received, r.used, g.used);
      CheckOnTrack(m, body, q, crc);
    }
  }

  lemma HeaderSplit(m: Member, body: seq<Byte>)
    requires Possible(m)
    ensures Header(m) + body == Front(m) + (CheckField(m) + body) && |Header(m)| >= |Front(m)|
  {
    hide Front, CheckField;
  }

  /** The checksum, with all other fields passed. */
  lemma CheckOnTrack(m: Member, body: seq<Byte>, q: Run, crc: seq<Byte> -> nat)
    requires WellFormed(m) && q.used <= |q.received| && q.received <= Header(m) + body
    requires q.parser.state == ExpectingOptional && |q.parser.header| == HEADER_SIZE && Waiting(m, false, false, q)
    ensures var o := CheckStep(q.parser, q.received[q.used..], crc);
      && OnTrack(m, body, Run(o.next, q.received, q.used + o.used), crc)
      && (|q.received| > |Header(m)| ==> o.next.state != ExpectingOptional)
  {
    AllPassed(m, q);
    FlagBits(m, false, false);
    if !Has(m.fixed[3] as int, FHCRC) {
      assert Header(m) == Front(m);
    } else if |q.received| <= |Front(m)| + 2 {
      WaitingOnTrack(m, body, false, false, q, crc);
    } else {
      CheckRead(m, body, q.received);
    }
  }

  lemma WaitingOnTrack(m: Member, body: seq<Byte>, e: bool, n: bool, t: Run, crc: seq<Byte> -> nat)
    requires WellFormed(m) && t.used <= |t.received| && t.received <= Header(m) + body
    requires t.parser.state == ExpectingOptional && |t.parser.header| == HEADER_SIZE && Waiting(m, e, n, t)
    ensures OnTrack(m, body, t, crc)
  {
    hide Possible, Readable, Header, Waiting;
  }

  lemma EmptyRest(m: Member)
    requires Possible(m)
    ensures Rest(m, false, false) == []
  {
  }

  lemma Split(head: seq<Byte>, body: seq<Byte>, received: seq<Byte>, used: nat)
    requires received <= head + body && used <= |received| && used <= |head|
    ensures received[used..] + (head + body)[|received|..] == head[used..] + body
  {
    assert (head + body)[used..] == head[used..] + body;
    assert received + (head + body)[|received|..] == head + body;
    assert (received + (head + body)[|received|..])[used..] == received[used..] + (head + body)[|received|..];
  }

  /** The fixed part, complete at the front of what was received. */
  lemma HeaderOnTrack(m: Member, body: seq<Byte>, p: Parser, all: seq<Byte>)
    requires WellFormed(m) && HEADER_SIZE <= |all| && all <= Header(m) + body
    ensures var h := HeaderStep(p, all);
      var e, n := Has(m.fixed[3] as int, FEXTRA), Has(m.fixed[3] as int, FNAME);
      && h == Outcome(Parser(ExpectingOptional, m.fixed), HEADER_SIZE, Ok)
      && Waiting(m, e, n, Run(h.next, all, HEADER_SIZE))
  {
    hide Has, Optional, Rest, Flags, CheckField;
    assert all[..HEADER_SIZE] == (Header(m) + body)[..HEADER_SIZE] == m.fixed;
    FlagsAtStart(m);
    NoCommentField(m);
    assert Front(m)[HEADER_SIZE..] == Optional(m);
    assert m.fixed[3 := m.fixed[3]] == m.fixed;
  }

  /** One more piece keeps the parser on the track, and a body byte gets it through the header. */
  lemma FeedOnTrack(m: Member, body: seq<Byte>, r: Run, piece: seq<Byte>, crc: seq<Byte> -> nat)
    requires WellFormed(m) && OnTrack(m, body, r, crc) && r.received + piece <= Header(m) + body
    ensures var t := Feed(r, piece, crc);
      && OnTrack(m, body, t, crc) && t.received == r.received + piece
      && (|t.received| > |Header(m)| ==> t.parser.state == if Accepted(m, crc) then ExpectingBody else Failed)
  {
    hide OptionalStep, Possible, Readable, Rest, Has, Flags, HeaderStep, HeadStep, Header, Accepted, Waiting;
    var all := r.received + piece;
    HeaderLonger(m);
    match r.parser.state
    case ExpectingHeader =>
      assert all[0..] == all;
      if |all| >= HEADER_SIZE {
        HeaderOnTrack(m, body, r.parser, all);
        WholeHeader(r.parser, all, m.fixed, crc);
        OptionalStates(Parser(ExpectingOptional, m.fixed), all[HEADER_SIZE..], crc);
        OptionalOnTrack(m, body, Run(Parser(ExpectingOptional, m.fixed), all, HEADER_SIZE),
                        Has(m.fixed[3] as int, FEXTRA), Has(m.fixed[3] as int, FNAME), crc);
      } else {
        ShortHeader(r.parser, all, crc);
      }
    case ExpectingOptional =>
      var e, n :| Waiting(m, e, n, r);
      StillDue(m, e, n, r, all);
      OptionalOnTrack(m, body, r.(received := all), e, n, crc);
      OptionalStates(r.parser, all[r.used..], crc);
      LaterCall(r.parser, all[r.used..], crc);
    case ExpectingBody => NoCall(r.parser, all[r.used..], crc);
    case Failed => NoCall(r.parser, all[r.used..], crc);
    case ExpectingFooter =>
  }

  lemma OptionalStates(p: Parser, v: seq<Byte>, crc: seq<Byte> -> nat)
    requires p.state == ExpectingOptional && |p.header| == HEADER_SIZE
    ensures OptionalStep(p, v, crc).next.state in {ExpectingOptional, ExpectingBody, Failed}
  {
    hide Fields, Has;
  }

  lemma ShortHeader(p: Parser, all: seq<Byte>, crc: seq<Byte> -> nat)
    requires p.state == ExpectingHeader && |all| < HEADER_SIZE
    ensures HeadStep(p, all, crc) == Outcome(p, 0, Ok)
  {
  }

  lemma WholeHeader(p: Parser, all: seq<Byte>, fixed: seq<Byte>, crc: seq<Byte> -> nat)
    requires p.state == ExpectingHeader && |fixed| == HEADER_SIZE <= |all|
    requires HeaderStep(p, all) == Outcome(Parser(ExpectingOptional, fixed), HEADER_SIZE, Ok)
    ensures HeadStep(p, all, crc)
         == var o := OptionalStep(Parser(ExpectingOptional, fixed), all[HEADER_SIZE..], crc);
            o.(used := HEADER_SIZE + o.used)
  {
    hide HeaderStep, OptionalStep;
  }

  lemma LaterCall(p: Parser, v: seq<Byte>, crc: seq<Byte> -> nat)
    requires p.state == ExpectingOptional && |p.header| == HEADER_SIZE
    ensures HeadStep(p, v, crc) == OptionalStep(p, v, crc)
  {
    hide HeaderStep, OptionalStep;
    assert v[0..] == v;
  }

  lemma NoCall(p: Parser, v: seq<Byte>, crc: seq<Byte> -> nat)
    requires p.state != ExpectingHeader && p.state != ExpectingOptional
    ensures HeadStep(p, v, crc) == Outcome(p, 0, Ok)
  {
  }

  lemma StillDue(m: Member, e: bool, n: bool, r: Run, all: seq<Byte>)
    requires WellFormed(m) && Waiting(m, e, n, r)
    ensures Waiting(m, e, n, r.(received := all))
  {
  }

  lemma HeaderLonger(m: Member)
    requires WellFormed(m)
    ensures |Header(m)| >= HEADER_SIZE && |m.fixed| == HEADER_SIZE
  {
  }

  function FeedAll(r: Run, pieces: seq<seq<Byte>>, crc: seq<Byte> -> nat): (t: Run)
    requires r.used <= |r.received| && (r.parser.state == ExpectingOptional ==> |r.parser.header| == HEADER_SIZE)
    ensures t.used <= |t.received| && (t.parser.state == ExpectingOptional ==> |t.parser.header| == HEADER_SIZE)
    decreases |pieces|
  {
    if pieces == [] then r else FeedAll(Feed(r, pieces[0], crc), pieces[1..], crc)
  }

  lemma {:induction false} AllOnTrack(m: Member, body: seq<Byte>, r: Run, pieces: seq<seq<Byte>>, crc: seq<Byte> -> nat)
    requires WellFormed(m) && OnTrack(m, body, r, crc) && r.received + Concat(pieces) <= Header(m) + body
    requires |r.received| > |Header(m)| ==> r.parser.state == if Accepted(m, crc) then ExpectingBody else Failed
    ensures var t := FeedAll(r, pieces, crc);
      && OnTrack(m, body, t, crc) && t.received == r.received + Concat(pieces)
      && (|t.received| > |Header(m)| ==> t.parser.state == if Accepted(m, crc) then ExpectingBody else Failed)
    decreases |pieces|
  {
    hide Feed, Possible, Readable, Header, Accepted;
    if pieces == [] {
      assert r.received + [] == r.received;
    } else {
      assert r.received + Concat(pieces) == r.received + pieces[0] + Concat(pieces[1..]);
      assert r.received + pieces[0] <= Header(m) + body;
      FeedOnTrack(m, body, r, pieces[0], crc);
      AllOnTrack(m, body, Feed(r, pieces[0], crc), pieces[1..], crc);
    }
  }

  lemma {:induction false} SkipName(p: seq<Byte>, at: nat, n: nat)
    requires at + n < |p| && p[at + n] == 0 && forall i :: at <= i < at + n ==> p[i] != 0
    ensures SkipZero(p, at) == At(at + n + 1)
    decreases n
  {
    if n > 0 { SkipName(p, at + 1, n - 1); }
  }

  lemma ExtraSkipped(m: Member, after: seq<Byte>)
    requires Possible(m) && |m.fixed + ExtraField(m) + after| >= 18
    ensures SkipExtra(m.fixed + ExtraField(m) + after, m.fixed[3] as int) == At(HEADER_SIZE + |ExtraField(m)|)
  {
    hide Has, GoodHeader;
    var p, x := m.fixed + ExtraField(m) + after, ExtraField(m);
    if Has(m.fixed[3] as int, FEXTRA) {
      assert p[HEADER_SIZE..][0] == x[0] && p[HEADER_SIZE..][1] == x[1];
    }
  }

  /** The one-shot skip up to the checksum. */
  lemma OneShotFront(m: Member, after: seq<Byte>, crc: seq<Byte> -> nat)
    requires Possible(m) && |Front(m) + after| >= 18
    ensures var p := Front(m) + after; OneShot(p, crc) == SkipCheck(p, m.fixed[3] as int, At(|Front(m)|), crc)
  {
    hide Has, SkipZero, SkipCheck, SkipExtra, SkipText, GoodHeader, ExtraField;
    MagicBytes(m);
    var p, f := Front(m) + after, m.fixed[3] as int;
    var x, n, c := ExtraField(m), NameField(m), CommentField(m);
    assert p[0] == m.fixed[0] && p[1] == m.fixed[1] && p[2] == m.fixed[2] && p[3] == m.fixed[3];
    FrontCut(m.fixed, x, n, c, after);
    ExtraSkipped(m, n + c + after);
    TextSkipped(m.fixed + x, m.name, n, f, FNAME, c + after);
    TextSkipped(m.fixed + x + n, m.comment, c, f, FCOMMENT, after);
  }

  lemma FrontCut(fixed: seq<Byte>, x: seq<Byte>, n: seq<Byte>, c: seq<Byte>, after: seq<Byte>)
    ensures var p := fixed + (x + n) + c + after;
      && p == fixed + x + (n + c + after) && p == fixed + x + n + (c + after) && p == fixed + x + n + c + after
  {
  }

  /** A field of text, if its flag is set, is skipped with its final zero. */
  lemma TextSkipped(pre: seq<Byte>, text: seq<Byte>, field: seq<Byte>, flags: nat, bit: nat, after: seq<Byte>)
    requires bit > 0 && NoZero(text) && field == if Has(flags, bit) then text + [0] else []
    ensures SkipText(pre + field + after, flags, bit, At(|pre|)) == At(|pre| + |field|)
  {
    hide Has, SkipZero;
    if Has(flags, bit) {
      assert pre + field + after == pre + text + [0] + after;
      NameSkipped(pre, text, after);
    }
  }

  lemma NameSkipped(pre: seq<Byte>, name: seq<Byte>, after: seq<Byte>)
    requires NoZero(name)
    ensures SkipZero(pre + name + [0] + after, |pre|) == At(|pre| + |name| + 1)
  {
    hide SkipZero;
    var p, a := pre + name + [0] + after, |pre|;
    forall i | a <= i < a + |name| ensures p[i] != 0 {
      assert p[i] == name[i - a];
    }
    SkipName(p, a, |name|);
  }

  /** The one-shot skip finds the end of the header of a whole member, if its checksum is sound. */
  lemma OneShotFinds(m: Member, body: seq<Byte>, crc: seq<Byte> -> nat)
    requires Possible(m) && |body| >= 8
    ensures OneShot(Header(m) + body, crc) == if Sound(m, crc) then At(|Header(m)|) else Bad
  {
    hide Has, OneShot, Front;
    var after, k := CheckField(m) + body, |Front(m)|;
    var p := Front(m) + after;
    assert Header(m) + body == p && p[..k] == Front(m) && p[k..] == after;
    assert k >= HEADER_SIZE by { FrontLonger(m); }
    OneShotFront(m, after, crc);
    assert |p| >= k + 2;
    if Has(m.fixed[3] as int, FHCRC) {
      assert after[0] == CheckField(m)[0] && after[1] == CheckField(m)[1];
    }
  }

  lemma FrontLonger(m: Member)
    requires Possible(m)
    ensures |Front(m)| >= HEADER_SIZE
  {
  }

  lemma MagicBytes(m: Member)
    requires Possible(m)
    ensures m.fixed[0] == 0x1F && m.fixed[1] == 0x8B && m.fixed[2] == 8 && m.fixed[3] < 32
  {
  }

  /** For every readable header and every fragmentation: the resumable parser enters the body exactly at
      the end of the header, fails only on a checksum it does not accept, and has done one of the two
      once a body byte is there. The one-shot skip finds the same place if the checksum is sound. */
  lemma ResumableAgrees(m: Member, body: seq<Byte>, pieces: seq<seq<Byte>>, crc: seq<Byte> -> nat)
    requires WellFormed(m) && |body| >= 8 && Concat(pieces) <= Header(m) + body
    ensures var r := FeedAll(START, pieces, crc);
      && r.received == Concat(pieces)
      && (r.parser.state == ExpectingBody ==> Accepted(m, crc) && r.used == |Header(m)|)
      && (r.parser.state == Failed ==> !Accepted(m, crc))
      && (|Concat(pieces)| > |Header(m)| ==> r.parser.state == if Accepted(m, crc) then ExpectingBody else Failed)
    ensures OneShot(Header(m) + body, crc) == if Sound(m, crc) then At(|Header(m)|) else Bad
  {
    hide FeedAll, OneShot, Possible, Readable, Header, Accepted, Sound;
    assert [] + Concat(pieces) == Concat(pieces);
    assert |Header(m)| > 0 by { HeaderLonger(m); }
    AllOnTrack(m, body, START, pieces, crc);
    OneShotFinds(m, body, crc);
  }

  /** The two checksums are the same when there is no other optional field. */
  lemma CheckAlone(m: Member, crc: seq<Byte> -> nat)
    requires Possible(m) && !Has(m.fixed[3] as int, FEXTRA) && !Has(m.fixed[3] as int, FNAME)
    requires !Has(m.fixed[3] as int, FCOMMENT)
    ensures Accepted(m, crc) <==> Sound(m, crc)
  {
    var f := m.fixed[3] as int;
    assert f < 32 && f % 4 == f by { hide Possible; SmallFlags(f); }
    assert m.fixed[3 := m.fixed[3]] == m.fixed && Front(m) == m.fixed;
  }

  lemma SmallFlags(f: nat)
    requires f < 32 && !Has(f, FEXTRA) && !Has(f, FNAME) && !Has(f, FCOMMENT)
    ensures f < 4
  {
  }
}
