/**
  Whole gzip streams: members one after the other, each a header, a compressed body and eight bytes of footer.
  The inflater knows where a body ends, because compressed data tells; it takes the body in any number of calls
  and then reports the end. However the stream is cut, the inflater is given the bodies and nothing else, the
  footer step the eight bytes of each member, and at the end the context expects a header again.
 */
module GzipMembers {
  import opened GzipSpec
  import opened Lists
  import R = GzipRuns
  import opened Decompression

  datatype Item = Item(m: Member, body: seq<Byte>, footer: seq<Byte>)

  ghost predicate Good(x: Item, crc: seq<Byte> -> nat)
  {
    WellFormed(x.m) && Accepted(x.m, crc) && |x.footer| == 8
  }

  ghost predicate AllGood(xs: seq<Item>, crc: seq<Byte> -> nat) { forall x <- xs :: Good(x, crc) }

  ghost predicate Whole(xs: seq<Item>) { forall x <- xs :: Possible(x.m) }

  ghost function Bytes(x: Item): seq<Byte>
    requires Possible(x.m)
  {
    Header(x.m) + (x.body + x.footer)
  }

  ghost function Stream(xs: seq<Item>): seq<Byte>
    requires Whole(xs)
  {
    if xs == [] then [] else Bytes(xs[0]) + Stream(xs[1..])
  }

  /** The headers, the bodies and the footers of the members, each put together. */
  ghost function Heads(xs: seq<Item>): seq<Byte>
    requires Whole(xs)
  {
    if xs == [] then [] else Heads(xs[..|xs| - 1]) + Header(xs[|xs| - 1].m)
  }

  function Bodies(xs: seq<Item>): seq<Byte>
  {
    if xs == [] then [] else Bodies(xs[..|xs| - 1]) + xs[|xs| - 1].body
  }

  function Footers(xs: seq<Item>): seq<Byte>
  {
    if xs == [] then [] else Footers(xs[..|xs| - 1]) + xs[|xs| - 1].footer
  }

  // ----- the inflater

  /** How much of the body is left decides what the inflater may take of what it is shown. */
  type Inflater = (nat, seq<Byte>) -> Inflated

  ghost predicate HonestAnswer(left: nat, v: seq<Byte>, r: Inflated)
  {
    r.ok && r.used <= left && r.used <= |v| && (r.ended ==> r.used == left)
  }

  /** It takes at most what is left of the body, and reports the end only when nothing is left. */
  ghost predicate Honest(f: Inflater) { forall left: nat, v :: HonestAnswer(left, v, f(left, v)) }

  /** An inflater that is told what is left. */
  function Told(f: Inflater, left: nat): seq<Byte> -> Inflated { v => f(left, v) }

  function Eagerly(left: nat, v: seq<Byte>): Inflated
  {
    Inflated(true, if left < |v| then left else |v|, left <= |v|)
  }

  /** One that takes as much as it can. */
  const EAGER: Inflater := (left: nat, v: seq<Byte>) => Eagerly(left, v)

  lemma EagerHonest()
    ensures Honest(EAGER)
  {
  }

  /** What is left of the current body, when so much has been given to the inflater and to the footer step. */
  function Left(xs: seq<Item>, bodies: seq<Byte>, footers: seq<Byte>): nat
  {
    var k := |footers| / 8;
    if k < |xs| && |bodies| <= |Bodies(xs[..k + 1])| then |Bodies(xs[..k + 1])| - |bodies| else 0
  }

  // ----- runs

  /** The queue, and what was given to header, inflater and footer so far. */
  datatype World = World(queue: Queue, heads: seq<Byte>, bodies: seq<Byte>, footers: seq<Byte>)

  const FRESH := World(EMPTY, [], [], [])

  datatype Event = Arrive(bytes: seq<Byte>) | Ask(room: nat, inflater: Inflater)

  function Advance(xs: seq<Item>, w: World, e: Event, crc: seq<Byte> -> nat): (r: World)
    requires WellKept(w.queue)
    ensures WellKept(r.queue)
  {
    match e
    case Arrive(bytes) => w.(queue := w.queue.(pending := w.queue.pending + bytes))
    case Ask(room, inflater) =>
      var left := Left(xs, w.bodies, w.footers);
      var (q, parts) := OpStep(w.queue, OpCall(room, Told(inflater, left)), true, crc);
      World(q, w.heads + parts[0], w.bodies + parts[1], w.footers + parts[2])
  }

  function AdvanceAll(xs: seq<Item>, w: World, events: seq<Event>, crc: seq<Byte> -> nat): (r: World)
    requires WellKept(w.queue)
    ensures WellKept(r.queue)
    decreases |events|
  {
    if events == [] then w else AdvanceAll(xs, Advance(xs, w, events[0], crc), events[1..], crc)
  }

  function Arrived(events: seq<Event>): seq<Byte>
  {
    if events == [] then [] else (if events[0].Arrive? then events[0].bytes else []) + Arrived(events[1..])
  }

  // ----- where a run is

  /** The members in `done` have been read; of the others `received` has come and the first `used` bytes of it
      have been taken. */
  datatype Place = Place(done: seq<Item>, rest: seq<Item>, received: seq<Byte>, used: nat)

  ghost predicate At(xs: seq<Item>, crc: seq<Byte> -> nat, w: World, p: Place)
  {
    && xs == p.done + p.rest && AllGood(xs, crc) && Whole(p.done) && Whole(p.rest)
    && p.used <= |p.received| && p.received <= Stream(p.rest)
    && w.queue.pending == p.received[p.used..] && w.footers == Footers(p.done)
    && if p.rest == [] then
         w.queue.parser.state == ExpectingHeader && w.bodies == Bodies(p.done) && w.heads == Heads(p.done)
       else InMember(crc, w, p)
  }

  ghost predicate InMember(crc: seq<Byte> -> nat, w: World, p: Place)
    requires p.rest != [] && Whole(p.done) && Whole(p.rest) && p.used <= |p.received|
  {
    var x, h := p.rest[0], |Header(p.rest[0].m)|;
    Good(x, crc) &&
    match w.queue.parser.state
    case ExpectingHeader => InHead(crc, w, p)
    case ExpectingOptional => InHead(crc, w, p)
    case ExpectingBody =>
      && w.heads == Heads(p.done) + Header(x.m) && h <= p.used <= h + |x.body|
      && w.bodies == Bodies(p.done) + x.body[..p.used - h]
    case ExpectingFooter =>
      w.heads == Heads(p.done) + Header(x.m) && p.used == h + |x.body| && w.bodies == Bodies(p.done) + x.body
    case Failed => false
  }

  ghost predicate InHead(crc: seq<Byte> -> nat, w: World, p: Place)
    requires p.rest != [] && Whole(p.done) && Whole(p.rest) && p.used <= |p.received|
    requires WellFormed(p.rest[0].m)
  {
    && R.OnTrack(p.rest[0].m, Beyond(p.rest), R.Run(w.queue.parser, p.received, p.used), crc)
    && w.heads == Heads(p.done) + p.received[..p.used] && w.bodies == Bodies(p.done)
  }

  /** Everything after the header of the first member. */
  ghost function Beyond(xs: seq<Item>): seq<Byte>
    requires xs != [] && Whole(xs)
  {
    xs[0].body + xs[0].footer + Stream(xs[1..])
  }

  lemma StreamSplit(xs: seq<Item>)
    requires xs != [] && Whole(xs)
    ensures Whole(xs[1..]) && Stream(xs) == Header(xs[0].m) + Beyond(xs)
  {
    hide Possible, Header;
    var h, b, f, t := Header(xs[0].m), xs[0].body, xs[0].footer, Stream(xs[1..]);
    assert h + (b + f) + t == h + (b + f + t);
  }

  lemma Joined(done: seq<Item>, x: Item)
    requires Whole(done) && Possible(x.m)
    ensures Whole(done + [x]) && Heads(done + [x]) == Heads(done) + Header(x.m)
    ensures Bodies(done + [x]) == Bodies(done) + x.body && Footers(done + [x]) == Footers(done) + x.footer
  {
    hide Possible, Header;
    assert (done + [x])[..|done|] == done;
  }

  lemma {:induction false} EightEach(xs: seq<Item>)
    requires forall x <- xs :: |x.footer| == 8
    ensures |Footers(xs)| == 8 * |xs|
  {
    if xs != [] { EightEach(xs[..|xs| - 1]); }
  }

  /** What the inflater is told: what is left of the body it is in. */
  lemma LeftIs(xs: seq<Item>, crc: seq<Byte> -> nat, p: Place, taken: nat, bodies: seq<Byte>)
    requires xs == p.done + p.rest && AllGood(xs, crc) && p.rest != [] && taken <= |p.rest[0].body|
    requires bodies == Bodies(p.done) + p.rest[0].body[..taken]
    ensures Left(xs, bodies, Footers(p.done)) == |p.rest[0].body| - taken
  {
    hide Possible, Readable, Accepted, Bodies, Footers;
    forall x | x in p.done ensures |x.footer| == 8 { assert x in xs; }
    EightEach(p.done);
    NextBody(p.done, p.rest);
  }

  lemma NextBody(done: seq<Item>, rest: seq<Item>)
    requires rest != []
    ensures Bodies((done + rest)[..|done| + 1]) == Bodies(done) + rest[0].body
  {
    hide Bodies;
    OneMore(done, rest);
    BodiesSnoc(done, rest[0]);
  }

  lemma OneMore(done: seq<Item>, rest: seq<Item>)
    requires rest != []
    ensures (done + rest)[..|done| + 1] == done + [rest[0]]
  {
  }

  lemma BodiesSnoc(done: seq<Item>, x: Item)
    ensures Bodies(done + [x]) == Bodies(done) + x.body
  {
    assert (done + [x])[..|done|] == done;
  }

  // ----- one call

  /** The world after the header step, and after the tail step. */
  function HeadWorld(w: World, o: Outcome): World
    requires o.used <= |w.queue.pending|
  {
    var v := w.queue.pending;
    World(Queue(o.next, v[o.used..]), w.heads + v[..o.used], w.bodies, w.footers)
  }

  function TailWorld(w: World, t: Tail): World
    requires t.body + t.footer <= |w.queue.pending|
  {
    var v, e := w.queue.pending, t.body + t.footer;
    World(Queue(t.next, v[e..]), w.heads, w.bodies + v[..t.body], w.footers + v[t.body..e])
  }

  lemma AskSplits(xs: seq<Item>, w: World, room: nat, inflater: Inflater, crc: seq<Byte> -> nat)
    requires WellKept(w.queue)
    ensures var o := HeadStep(w.queue.parser, w.queue.pending, crc);
      var left := Left(xs, w.bodies, w.footers);
      o.status == Ok ==>
        var t := TailStep(o.next, w.queue.pending[o.used..], room, Told(inflater, left));
        Advance(xs, w, Ask(room, inflater), crc) == TailWorld(HeadWorld(w, o), t)
  {
    hide HeadStep, TailStep, CallStep, Left;
    var v, left := w.queue.pending, Left(xs, w.bodies, w.footers);
    var f := Told(inflater, left);
    var o := HeadStep(w.queue.parser, v, crc);
    if o.status == Ok {
      var t := TailStep(o.next, v[o.used..], room, f);
      CallIs(w.queue.parser, v, room, crc, f);
      Cuts(v, o.used, t.body, t.footer);
    }
  }

  lemma Cuts(v: seq<Byte>, a: nat, b: nat, c: nat)
    requires a + b + c <= |v|
    ensures v[a..][..b] == v[a..a + b] && v[a..][b..b + c] == v[a + b..a + b + c]
    ensures v[a..][b + c..] == v[a + b + c..]
  {
  }

  // ----- the tail

  lemma TailIs(p: Parser, v: seq<Byte>, room: nat, inflater: Inflater, left: nat)
    requires Honest(inflater) && (p.state == ExpectingBody || (p.state == ExpectingFooter && left == 0))
    ensures var t := TailStep(p, v, room, Told(inflater, left));
      && t.status == Ok && t.body <= left
      && match t.next.state
         case ExpectingBody => t.footer == 0
         case ExpectingFooter => t.body == left && t.footer == 0
         case ExpectingHeader => t.body == left && t.footer == 8
         case _ => false
  {
    assert HonestAnswer(left, v, inflater(left, v));
  }

  /** With room, all of a member there, and an eager inflater, the member is read to its end. */
  lemma EagerTail(p: Parser, v: seq<Byte>, room: nat, left: nat)
    requires p.state == ExpectingBody || (p.state == ExpectingFooter && left == 0)
    requires room > 0 && |v| >= left + 8
    ensures TailStep(p, v, room, Told(EAGER, left)).next.state == ExpectingHeader
  {
    var f := Told(EAGER, left);
    assert EAGER(left, v) == Eagerly(left, v) == Inflated(true, left, true);
    assert f(v) == EAGER(left, v);
    assert |v[left..]| >= 8 && v[0..] == v;
    assert p.state == ExpectingBody ==> BodyStep(p, v, room, f) == Outcome(p.(state := ExpectingFooter), left, Ok);
  }

  lemma BodySlice(h: seq<Byte>, b: seq<Byte>, more: seq<Byte>, received: seq<Byte>, i: nat, j: nat)
    requires received <= h + (b + more) && |h| <= i <= j <= |received| && j <= |h| + |b|
    ensures b[..i - |h|] + received[i..j] == b[..j - |h|]
  {
    var s, k, l := h + (b + more), i - |h|, j - |h|;
    assert received[i..j] == s[i..j] == (b + more)[k..l] == b[k..l];
  }

  lemma FooterSlice(h: seq<Byte>, b: seq<Byte>, f: seq<Byte>, t: seq<Byte>, received: seq<Byte>)
    requires received <= h + (b + f + t) && |received| >= |h| + |b| + |f|
    ensures var i, j := |h| + |b|, |h| + |b| + |f|; received[i..j] == f && received[j..] <= t
  {
    var s, i, j := h + (b + f + t), |h| + |b|, |h| + |b| + |f|;
    assert s[i..j] == f && s[j..] == t;
    assert received[i..j] == s[i..j] && received[j..] <= s[j..];
  }

  /** Where a tail step leads. */
  ghost function AfterTail(p: Place, t: Tail): Place
    requires p.rest != [] && p.used + t.body + t.footer <= |p.received|
  {
    var n := p.used + t.body + t.footer;
    if t.next.state != ExpectingHeader then p.(used := n)
    else Place(p.done + [p.rest[0]], p.rest[1..], p.received[n..], 0)
  }

  /** The footer ends a member, and the next one begins. */
  lemma TailDone(xs: seq<Item>, crc: seq<Byte> -> nat, w: World, p: Place, t: Tail)
    requires At(xs, crc, w, p) && p.rest != []
    requires w.queue.parser.state == ExpectingBody || w.queue.parser.state == ExpectingFooter
    requires t.next.state == ExpectingHeader && t.footer == 8 && t.body + 8 <= |w.queue.pending|
    requires p.used + t.body == |Header(p.rest[0].m)| + |p.rest[0].body|
    ensures At(xs, crc, TailWorld(w, t), AfterTail(p, t))
    ensures p.received == Bytes(p.rest[0]) + AfterTail(p, t).received
  {
    hide Possible, Readable, Accepted, Left, R.OnTrack, Header, Stream, Bodies, Footers, Heads;
    var x, q, u := p.rest[0], AfterTail(p, t), TailWorld(w, t);
    var taken := p.used - |Header(x.m)|;
    StreamSplit(p.rest);
    LastParts(Header(x.m), x.body, x.footer, Stream(p.rest[1..]), p.received, p.used, t.body);
    FirstBytes(Header(x.m), x.body + x.footer, Stream(p.rest[1..]), p.received);
    Joined(p.done, x);
    assert x.body[..|x.body|] == x.body;
    Regrouped(Bodies(p.done), x.body[..taken], w.queue.pending[..t.body]);
    assert p.rest == [x] + p.rest[1..];
    Regrouped(p.done, [x], p.rest[1..]);
    assert q.received[0..] == q.received;
    if q.rest != [] {
      assert q.rest[0] in xs;
      StreamSplit(q.rest);
      Begins(crc, u, q);
    }
  }

  lemma FirstBytes(h: seq<Byte>, b: seq<Byte>, t: seq<Byte>, received: seq<Byte>)
    requires received <= h + (b + t) && |received| >= |h| + |b|
    ensures received == h + b + received[|h| + |b|..]
  {
    assert h + (b + t) == h + b + t;
    assert received[..|h| + |b|] == (h + b + t)[..|h| + |b|] == h + b;
  }

  /** The end of a body and the footer behind it. */
  lemma LastParts(h: seq<Byte>, b: seq<Byte>, f: seq<Byte>, t: seq<Byte>, received: seq<Byte>, used: nat, n: nat)
    requires received <= h + (b + f + t) && |h| <= used && used + n == |h| + |b| && used + n + |f| <= |received|
    ensures var v := received[used..];
      && b[..used - |h|] + v[..n] == b && v[n..n + |f|] == f
      && v[n + |f|..] == received[used + n + |f|..] <= t
  {
    assert b + f + t == b + (f + t);
    Cuts(received, used, n, |f|);
    BodySlice(h, b, f + t, received, used, used + n);
    FooterSlice(h, b, f, t, received);
  }

  /** The start of a member. */
  lemma Begins(crc: seq<Byte> -> nat, w: World, p: Place)
    requires p.rest != [] && Whole(p.done) && Whole(p.rest) && Good(p.rest[0], crc)
    requires p.used == 0 && p.received <= Header(p.rest[0].m) + Beyond(p.rest)
    requires w.queue.parser.state == ExpectingHeader && w.bodies == Bodies(p.done) && w.heads == Heads(p.done)
    ensures InMember(crc, w, p)
  {
    hide Possible, Readable, Accepted, Header, Beyond;
    assert Heads(p.done) + p.received[..0] == Heads(p.done);
  }

  lemma TailAt(xs: seq<Item>, crc: seq<Byte> -> nat, w: World, p: Place, room: nat, inflater: Inflater)
    requires At(xs, crc, w, p) && p.rest != [] && Honest(inflater)
    requires w.queue.parser.state == ExpectingBody || w.queue.parser.state == ExpectingFooter
    ensures var left := Left(xs, w.bodies, w.footers);
      var t := TailStep(w.queue.parser, w.queue.pending, room, Told(inflater, left));
      && At(xs, crc, TailWorld(w, t), AfterTail(p, t))
      && (t.next.state == ExpectingHeader ==>
            Possible(p.rest[0].m) && p.received == Bytes(p.rest[0]) + AfterTail(p, t).received)
  {
    hide Possible, Readable, Accepted, TailStep, Honest, Left, R.OnTrack, Header, Stream, Bodies, Footers, Heads;
    var x := p.rest[0];
    var taken := p.used - |Header(x.m)|;
    assert x.body[..|x.body|] == x.body;
    LeftIs(xs, crc, p, taken, w.bodies);
    assert WellFormed(x.m);
    var left := |x.body| - taken;
    TailIs(w.queue.parser, w.queue.pending, room, inflater, left);
    var t := TailStep(w.queue.parser, w.queue.pending, room, Told(inflater, left));
    if t.next.state == ExpectingHeader {
      TailDone(xs, crc, w, p, t);
    } else {
      TailOn(xs, crc, w, p, t);
    }
  }

  /** The body goes on, or is complete and the footer is waited for. */
  lemma TailOn(xs: seq<Item>, crc: seq<Byte> -> nat, w: World, p: Place, t: Tail)
    requires At(xs, crc, w, p) && p.rest != []
    requires w.queue.parser.state == ExpectingBody || w.queue.parser.state == ExpectingFooter
    requires t.footer == 0 && t.body <= |w.queue.pending|
    requires p.used + t.body <= |Header(p.rest[0].m)| + |p.rest[0].body|
    requires t.next.state == ExpectingBody
      || (t.next.state == ExpectingFooter && p.used + t.body == |Header(p.rest[0].m)| + |p.rest[0].body|)
    ensures At(xs, crc, TailWorld(w, t), AfterTail(p, t))
  {
    hide Possible, Readable, Accepted, R.OnTrack, Header, Stream, Bodies, Footers, Heads;
    var x := p.rest[0];
    StreamSplit(p.rest);
    NextPart(Bodies(p.done), Header(x.m), x.body, x.footer, Stream(p.rest[1..]), p.received, p.used, t.body);
    assert x.body[..|x.body|] == x.body;
    assert w.footers + [] == w.footers;
  }

  /** The next part of a body, after what came before it. */
  lemma NextPart(before: seq<Byte>, h: seq<Byte>, b: seq<Byte>, f: seq<Byte>, t: seq<Byte>,
                 received: seq<Byte>, used: nat, n: nat)
    requires received <= h + (b + f + t) && |h| <= used && used + n <= |h| + |b| && used + n <= |received|
    ensures var v := received[used..];
      && before + b[..used - |h|] + v[..n] == before + b[..used + n - |h|]
      && v[n..n] == [] && v[n..] == received[used + n..]
  {
    assert b + f + t == b + (f + t);
    Cuts(received, used, n, 0);
    BodySlice(h, b, f + t, received, used, used + n);
    Regrouped(before, b[..used - |h|], received[used..][..n]);
  }

  // ----- the head

  /** The header step of a member that can be read: it does not fail, and with a byte beyond the header it is
      through. */
  lemma HeadIs(m: Member, beyond: seq<Byte>, r: R.Run, crc: seq<Byte> -> nat)
    requires WellFormed(m) && Accepted(m, crc) && R.OnTrack(m, beyond, r, crc)
    ensures r.used <= |r.received| && (r.parser.state == ExpectingOptional ==> |r.parser.header| == HEADER_SIZE)
    ensures var o := HeadStep(r.parser, r.received[r.used..], crc);
      && o.status == Ok && R.OnTrack(m, beyond, R.Run(o.next, r.received, r.used + o.used), crc)
      && o.next.state in {ExpectingHeader, ExpectingOptional, ExpectingBody}
      && (|r.received| > |Header(m)| ==> o.next.state == ExpectingBody)
  {
    hide HeadStep, Possible, Readable, Header, Accepted, R.Waiting;
    assert r.received + [] == r.received;
    R.FeedOnTrack(m, beyond, r, [], crc);
    FailsAlone(r.parser, r.received[r.used..], crc);
  }

  /** A header step reports an error if and only if it ends in the failed state. */
  lemma FailsAlone(p: Parser, v: seq<Byte>, crc: seq<Byte> -> nat)
    requires p.state == ExpectingOptional ==> |p.header| == HEADER_SIZE
    ensures HeadStep(p, v, crc).next.state != Failed ==> HeadStep(p, v, crc).status == Ok
  {
    hide Fields, Has, GoodHeader;
  }

  /** The header step of a run that is in a header. */
  lemma HeadAt(xs: seq<Item>, crc: seq<Byte> -> nat, w: World, p: Place)
    requires At(xs, crc, w, p) && p.rest != [] && WellKept(w.queue)
    requires w.queue.parser.state == ExpectingHeader || w.queue.parser.state == ExpectingOptional
    ensures var o := HeadStep(w.queue.parser, w.queue.pending, crc);
      && o.status == Ok && p.used + o.used <= |p.received|
      && At(xs, crc, HeadWorld(w, o), p.(used := p.used + o.used))
      && (|p.received| > |Header(p.rest[0].m)| ==> o.next.state == ExpectingBody)
  {
    hide Possible, Readable, Accepted, HeadStep, R.OnTrack, Header, Stream, Bodies, Footers, Heads, Beyond;
    var x, r := p.rest[0], R.Run(w.queue.parser, p.received, p.used);
    HeadIs(x.m, Beyond(p.rest), r, crc);
    var o := HeadStep(w.queue.parser, w.queue.pending, crc);
    var n := p.used + o.used;
    Cuts(p.received, p.used, o.used, 0);
    assert p.received[..p.used] + p.received[p.used..n] == p.received[..n];
    Regrouped(Heads(p.done), p.received[..p.used], w.queue.pending[..o.used]);
    if o.next.state == ExpectingBody {
      Through(x.m, Beyond(p.rest), R.Run(o.next, p.received, n), crc);
      assert x.body[..0] == [] && Bodies(p.done) + [] == Bodies(p.done);
    }
  }

  lemma Through(m: Member, beyond: seq<Byte>, r: R.Run, crc: seq<Byte> -> nat)
    requires WellFormed(m) && R.OnTrack(m, beyond, r, crc) && r.parser.state == ExpectingBody
    ensures r.used == |Header(m)| && r.received[..r.used] == Header(m)
  {
    hide Possible, Readable, Accepted, Header;
  }

  // ----- a whole call

  /** A call stays in a member or ends it. */
  ghost predicate Moved(p: Place, q: Place)
  {
    || (q.done == p.done && q.rest == p.rest && q.received == p.received)
    || (p.rest != [] && q.done == p.done + [p.rest[0]] && q.rest == p.rest[1..]
        && Possible(p.rest[0].m) && p.received == Bytes(p.rest[0]) + q.received)
  }

  /** Where a call leads. */
  lemma AskAt(xs: seq<Item>, crc: seq<Byte> -> nat, w: World, p: Place, room: nat, inflater: Inflater)
      returns (q: Place)
    requires At(xs, crc, w, p) && WellKept(w.queue) && Honest(inflater)
    ensures At(xs, crc, Advance(xs, w, Ask(room, inflater), crc), q)
    ensures Whole(p.rest) && Moved(p, q)
    ensures p.rest != [] && p.received == Stream(p.rest) && room > 0 && inflater == EAGER ==> q.rest == p.rest[1..]
  {
    hide At, HeadStep, TailStep, Left, Honest, Advance, Stream, Bytes, Told, TailWorld, Whole;
    AskSplits(xs, w, room, inflater, crc);
    Allocated(xs, crc, w, p);
    var o := HeadStep(w.queue.parser, w.queue.pending, crc);
    var left := Left(xs, w.bodies, w.footers);
    if p.rest == [] {
      q := p;
      Idle(xs, crc, w, p, room, Told(inflater, left));
    } else {
      hide Moved;
      AskHead(xs, crc, w, p);
      var mid := p.(used := p.used + o.used);
      q := AskTail(xs, crc, HeadWorld(w, o), mid, room, inflater);
      MovedFrom(p, mid, q);
    }
  }

  /** How much of what has come was taken plays no part in it. */
  lemma MovedFrom(p: Place, mid: Place, q: Place)
    requires mid == p.(used := mid.used) && Moved(mid, q)
    ensures Moved(p, q)
  {
  }

  predicate PastHead(w: World) { w.queue.parser.state == ExpectingBody || w.queue.parser.state == ExpectingFooter }

  /** The header step of a call; with all of the member there it is past the header. */
  lemma AskHead(xs: seq<Item>, crc: seq<Byte> -> nat, w: World, p: Place)
    requires At(xs, crc, w, p) && p.rest != [] && WellKept(w.queue)
    ensures var o := HeadStep(w.queue.parser, w.queue.pending, crc);
      && o.status == Ok && p.used + o.used <= |p.received|
      && At(xs, crc, HeadWorld(w, o), p.(used := p.used + o.used))
      && Whole(p.rest) && (p.received == Stream(p.rest) ==> PastHead(HeadWorld(w, o)))
  {
    hide At, HeadStep, Stream, Possible, Header;
    Allocated(xs, crc, w, p);
    LongerThanHeader(xs, crc, w, p);
    if PastHead(w) {
      NoHead(w, crc);
    } else {
      HeadAt(xs, crc, w, p);
    }
  }

  /** The tail of a call, once the header step is done. */
  lemma AskTail(xs: seq<Item>, crc: seq<Byte> -> nat, w: World, p: Place, room: nat, inflater: Inflater)
      returns (q: Place)
    requires At(xs, crc, w, p) && p.rest != [] && Honest(inflater)
    ensures var left := Left(xs, w.bodies, w.footers);
      At(xs, crc, TailWorld(w, TailStep(w.queue.parser, w.queue.pending, room, Told(inflater, left))), q)
    ensures Whole(p.rest) && Moved(p, q)
    ensures p.received == Stream(p.rest) && room > 0 && inflater == EAGER && PastHead(w) ==> q.rest == p.rest[1..]
  {
    hide At, TailStep, Left, Honest, Stream, Possible, Bytes;
    Allocated(xs, crc, w, p);
    var left := Left(xs, w.bodies, w.footers);
    q := p;
    if w.queue.parser.state == ExpectingBody || w.queue.parser.state == ExpectingFooter {
      TailAt(xs, crc, w, p, room, inflater);
      q := AfterTail(p, TailStep(w.queue.parser, w.queue.pending, room, Told(inflater, left)));
      if p.received == Stream(p.rest) && room > 0 && inflater == EAGER { EagerDone(xs, crc, w, p, room); }
    } else {
      NoTail(w, room, Told(inflater, left));
    }
  }

  lemma Allocated(xs: seq<Item>, crc: seq<Byte> -> nat, w: World, p: Place)
    requires At(xs, crc, w, p)
    ensures Whole(p.rest) && p.used <= |p.received| && w.queue.pending == p.received[p.used..]
    ensures p.rest != [] ==> w.queue.parser.state != Failed && Whole(p.rest[1..])
    ensures p.rest == [] ==> w.queue.parser.state == ExpectingHeader && w.queue.pending == []
  {
    hide Possible, Readable, Accepted, R.OnTrack, Header, Bodies, Footers, Heads;
  }

  lemma NoHead(w: World, crc: seq<Byte> -> nat)
    requires w.queue.parser.state == ExpectingBody || w.queue.parser.state == ExpectingFooter
    ensures HeadStep(w.queue.parser, w.queue.pending, crc) == Outcome(w.queue.parser, 0, Ok)
    ensures HeadWorld(w, Outcome(w.queue.parser, 0, Ok)) == w
  {
    assert w.queue.pending[0..] == w.queue.pending && w.heads + [] == w.heads;
  }

  lemma NoTail(w: World, room: nat, f: seq<Byte> -> Inflated)
    requires w.queue.parser.state != ExpectingBody && w.queue.parser.state != ExpectingFooter
    ensures TailWorld(w, TailStep(w.queue.parser, w.queue.pending, room, f)) == w
  {
    assert w.queue.pending[0..] == w.queue.pending && w.bodies + [] == w.bodies && w.footers + [] == w.footers;
  }

  /** After the last member nothing happens. */
  lemma Idle(xs: seq<Item>, crc: seq<Byte> -> nat, w: World, p: Place, room: nat, f: seq<Byte> -> Inflated)
    requires w.queue.parser.state == ExpectingHeader && w.queue.pending == []
    ensures var o := HeadStep(w.queue.parser, w.queue.pending, crc);
      o.status == Ok && TailWorld(HeadWorld(w, o), TailStep(o.next, w.queue.pending[o.used..], room, f)) == w
  {
    assert w.heads + [] == w.heads && w.bodies + [] == w.bodies && w.footers + [] == w.footers;
  }

  lemma LongerThanHeader(xs: seq<Item>, crc: seq<Byte> -> nat, w: World, p: Place)
    requires At(xs, crc, w, p) && p.rest != []
    ensures Whole(p.rest) && |Stream(p.rest)| >= |Header(p.rest[0].m)| + |p.rest[0].body| + 8
  {
    hide Possible, Readable, Accepted, R.OnTrack, Header, Bodies, Footers, Heads;
    StreamSplit(p.rest);
  }

  /** With everything there an eager inflater ends the member. */
  lemma EagerDone(xs: seq<Item>, crc: seq<Byte> -> nat, w: World, p: Place, room: nat)
    requires At(xs, crc, w, p) && p.rest != [] && p.received == Stream(p.rest) && room > 0
    requires w.queue.parser.state == ExpectingBody || w.queue.parser.state == ExpectingFooter
    ensures var left := Left(xs, w.bodies, w.footers);
      TailStep(w.queue.parser, w.queue.pending, room, Told(EAGER, left)).next.state == ExpectingHeader
  {
    hide Possible, Readable, Accepted, TailStep, Left, R.OnTrack, Header, Stream, Bodies, Footers, Heads;
    var x := p.rest[0];
    var taken := p.used - |Header(x.m)|;
    assert x.body[..|x.body|] == x.body;
    LongerThanHeader(xs, crc, w, p);
    LeftIs(xs, crc, p, taken, w.bodies);
    EagerTail(w.queue.parser, w.queue.pending, room, |x.body| - taken);
  }

  // ----- whole runs

  lemma ArriveAt(xs: seq<Item>, crc: seq<Byte> -> nat, w: World, p: Place, bytes: seq<Byte>)
    requires At(xs, crc, w, p) && WellKept(w.queue) && p.received + bytes <= Stream(p.rest)
    ensures At(xs, crc, Advance(xs, w, Arrive(bytes), crc), p.(received := p.received + bytes))
  {
    hide Possible, Readable, Accepted, Header, Bodies, Footers, Heads, R.Waiting;
    var q := p.(received := p.received + bytes);
    assert p.received[p.used..] + bytes == q.received[p.used..];
    assert q.received[..p.used] == p.received[..p.used];
    if p.rest != [] {
      var x := p.rest[0];
      StreamSplit(p.rest);
      var r := R.Run(w.queue.parser, p.received, p.used);
      if w.queue.parser.state == ExpectingOptional { Prolonged(x.m, r, q.received); }
    }
  }

  lemma Prolonged(m: Member, r: R.Run, more: seq<Byte>)
    requires WellFormed(m)
    ensures forall e, n :: R.Waiting(m, e, n, r) ==> R.Waiting(m, e, n, r.(received := more))
  {
    forall e, n | R.Waiting(m, e, n, r) ensures R.Waiting(m, e, n, r.(received := more)) {
      R.StillDue(m, e, n, r, more);
    }
  }

  lemma FreshAt(xs: seq<Item>, crc: seq<Byte> -> nat)
    requires AllGood(xs, crc)
    ensures At(xs, crc, FRESH, Place([], xs, [], 0))
  {
    hide Readable, Accepted, Header, Possible;
    var p := Place([], xs, [], 0);
    assert Whole(xs);
    if xs != [] {
      assert xs[0] in xs;
      Begins(crc, FRESH, p);
    }
  }

  lemma {:induction false} StreamConcat(a: seq<Item>, b: seq<Item>)
    requires Whole(a) && Whole(b)
    ensures Whole(a + b) && Stream(a + b) == Stream(a) + Stream(b)
  {
    hide Possible, Bytes;
    if a == [] {
      assert a + b == b && [] + Stream(b) == Stream(b);
    } else {
      assert (a + b)[1..] == a[1..] + b && (a + b)[0] == a[0];
      StreamConcat(a[1..], b);
      Regrouped(Bytes(a[0]), Stream(a[1..]), Stream(b));
    }
  }

  /** A call changes nothing of what has come. */
  lemma SameGiven(p: Place, q: Place)
    requires Whole(p.done) && Whole(p.rest) && Moved(p, q)
    ensures Whole(q.done) && Whole(q.rest) && Stream(q.done) + q.received == Stream(p.done) + p.received
    ensures p.received == Stream(p.rest) ==> q.received == Stream(q.rest)
  {
    hide Possible, Bytes;
    if q.done != p.done {
      var x := p.rest[0];
      StreamConcat(p.done, [x]);
      assert [x][1..] == [] && Bytes(x) + [] == Bytes(x);
      Regrouped(Stream(p.done), Bytes(x), q.received);
      if p.received == Stream(p.rest) { SameTail(Bytes(x), q.received, Stream(p.rest[1..])); }
    }
  }

  lemma SameTail(a: seq<Byte>, b: seq<Byte>, c: seq<Byte>)
    requires a + b == a + c
    ensures b == c
  {
    assert (a + b)[|a|..] == b && (a + c)[|a|..] == c;
  }

  lemma Prefixes(a: seq<Byte>, b: seq<Byte>, c: seq<Byte>, d: seq<Byte>)
    requires a + c + d <= a + b
    ensures c <= b
  {
    assert a + c + d == a + (c + d);
    assert (a + (c + d))[|a|..] == c + d && (a + b)[|a|..] == b;
  }

  lemma Places(xs: seq<Item>, crc: seq<Byte> -> nat, w: World, p: Place)
    requires At(xs, crc, w, p)
    ensures Whole(p.done) && Whole(p.rest) && xs == p.done + p.rest && Whole(xs)
    ensures Stream(xs) == Stream(p.done) + Stream(p.rest)
  {
    hide Possible, Readable, Accepted, R.OnTrack, Header, Bodies, Footers, Heads, Stream;
    StreamConcat(p.done, p.rest);
  }

  lemma {:induction false} RunAt(xs: seq<Item>, crc: seq<Byte> -> nat, w: World, p: Place, events: seq<Event>)
      returns (q: Place)
    requires At(xs, crc, w, p) && WellKept(w.queue) && Whole(p.done) && Whole(xs)
    requires Stream(p.done) + p.received + Arrived(events) <= Stream(xs)
    requires forall e <- events :: e.Ask? ==> Honest(e.inflater)
    ensures At(xs, crc, AdvanceAll(xs, w, events, crc), q) && Whole(q.done)
    ensures Stream(q.done) + q.received == Stream(p.done) + p.received + Arrived(events)
    decreases |events|
  {
    hide At, Advance, Stream, Honest, Possible, Moved;
    q := p;
    if events == [] {
      assert Stream(p.done) + p.received + [] == Stream(p.done) + p.received;
    } else {
      var e, later := events[0], Arrived(events[1..]);
      var u := Advance(xs, w, e, crc);
      Places(xs, crc, w, p);
      if e.Arrive? {
        Regrouped(Stream(p.done), p.received, e.bytes);
        Regrouped(Stream(p.done) + p.received, e.bytes, later);
        Prefixes(Stream(p.done), Stream(p.rest), p.received + e.bytes, later);
        ArriveAt(xs, crc, w, p, e.bytes);
        q := RunAt(xs, crc, u, p.(received := p.received + e.bytes), events[1..]);
      } else {
        assert [] + later == later && e in events;
        var mid := AskAt(xs, crc, w, p, e.room, e.inflater);
        SameGiven(p, mid);
        q := RunAt(xs, crc, u, mid, events[1..]);
      }
    }
  }

  /** In every run on a stream of members, however it is cut and whatever an honest inflater does: nothing fails;
      the inflater has been given the bodies of the members that are done and the beginning of the next one, and
      the footer step the footers of those that are done. When everything has come and has been taken, these
      are all members, and the context expects a header again. */
  lemma MembersRead(xs: seq<Item>, crc: seq<Byte> -> nat, events: seq<Event>) returns (p: Place)
    requires AllGood(xs, crc) && Whole(xs) && Arrived(events) <= Stream(xs)
    requires forall e <- events :: e.Ask? ==> Honest(e.inflater)
    ensures var w := AdvanceAll(xs, FRESH, events, crc);
      && w.queue.parser.state != Failed && p.done <= xs && w.footers == Footers(p.done)
      && Bodies(p.done) <= w.bodies
      && (p.done == xs ==> w.bodies == Bodies(xs))
      && (p.done != xs ==> w.bodies <= Bodies(p.done) + xs[|p.done|].body)
      && (Arrived(events) == Stream(xs) && w.queue.pending == [] ==>
            && p.done == xs && w.queue.parser.state == ExpectingHeader
            && w.heads == Heads(xs) && w.bodies == Bodies(xs) && w.footers == Footers(xs))
  {
    hide At, Advance, AdvanceAll, Stream, Honest, Readable, Accepted;
    FreshAt(xs, crc);
    NoStream();
    assert [] + [] + Arrived(events) == Arrived(events);
    p := RunAt(xs, crc, FRESH, Place([], xs, [], 0), events);
    var w := AdvanceAll(xs, FRESH, events, crc);
    Places(xs, crc, w, p);
    Read(xs, crc, w, p);
    if Arrived(events) == Stream(xs) { SameTail(Stream(p.done), p.received, Stream(p.rest)); }
  }

  lemma NoStream()
    ensures Whole([]) && Stream([]) == []
  {
  }

  /** What a place says of what has been given. */
  lemma Read(xs: seq<Item>, crc: seq<Byte> -> nat, w: World, p: Place)
    requires At(xs, crc, w, p) && Whole(xs)
    ensures w.queue.parser.state != Failed && p.done <= xs && w.footers == Footers(p.done) && Bodies(p.done) <= w.bodies
    ensures p.done == xs ==> p.rest == [] && w.bodies == Bodies(xs) && w.heads == Heads(xs)
    ensures p.rest == [] ==> p.done == xs && w.queue.parser.state == ExpectingHeader
    ensures p.done != xs ==> w.bodies <= Bodies(p.done) + xs[|p.done|].body
    ensures Whole(p.rest) && (p.received == Stream(p.rest) && w.queue.pending == [] ==> p.rest == [])
  {
    hide Possible, Readable, Accepted, Header, Bodies, Footers, Heads, Stream, R.OnTrack;
    if p.rest == [] {
      assert p.done + [] == p.done;
    } else {
      var x := p.rest[0];
      assert xs[|p.done|] == x;
      LongerThanHeader(xs, crc, w, p);
      NotAllTaken(xs, crc, w, p);
      assert x.body[..|x.body|] == x.body;
    }
  }

  /** In a member something is left of it. */
  lemma NotAllTaken(xs: seq<Item>, crc: seq<Byte> -> nat, w: World, p: Place)
    requires At(xs, crc, w, p) && p.rest != []
    ensures p.used <= |Header(p.rest[0].m)| + |p.rest[0].body|
  {
    hide Readable, Accepted, Bodies, Footers, Heads, Stream;
    var x := p.rest[0];
    if w.queue.parser.state == ExpectingOptional {
      var e, n :| R.Waiting(x.m, e, n, R.Run(w.queue.parser, p.received, p.used));
    }
  }

  // ----- the context

  /** What was given to header, inflater and footer so far. */
  ghost function Seen(c: Context, heads: seq<Byte>, bodies: seq<Byte>, footers: seq<Byte>): World
    requires c.Valid()
    reads c, c.input
  {
    World(Queue(Parser(c.state, c.header), c.Visible()), heads, bodies, footers)
  }

  /** One call of the context. */
  method AskContext(c: Context, xs: seq<Item>, heads: seq<Byte>, bodies: seq<Byte>, footers: seq<Byte>,
                    room: nat, inflater: Inflater, crc: seq<Byte> -> nat, ghost p: Place)
      returns (h: seq<Byte>, b: seq<Byte>, f: seq<Byte>, ghost q: Place)
    requires c.Valid() && At(xs, crc, Seen(c, heads, bodies, footers), p) && Honest(inflater)
    modifies c`readAt, c`length, c`appended, c`consumed, c`state, c`header, c.input
    ensures c.Valid() && At(xs, crc, Seen(c, h, b, f), q) && Moved(p, q) && Whole(p.rest)
    ensures p.rest != [] && p.received == Stream(p.rest) && room > 0 && inflater == EAGER ==> q.rest == p.rest[1..]
    ensures c.length <= old(c.length)
  {
    hide At, Honest, Moved, Stream, Left, CallStep, Possible;
    ghost var w := Seen(c, heads, bodies, footers);
    q := AskAt(xs, crc, w, p, room, inflater);
    var left := Left(xs, bodies, footers);
    var _, parts := Perform(c, OpCall(room, Told(inflater, left)), crc);
    h, b, f := heads + parts[0], bodies + parts[1], footers + parts[2];
    assert Seen(c, h, b, f) == Advance(xs, w, Ask(room, inflater), crc);
  }

  /** The context, fed any pieces of a stream of members with a call after each, whatever an honest inflater does
      in them, and then called once for each member with an inflater that takes what it can: the inflater is
      given the bodies, the footer step the footers, and the context expects a header again. */
  method ReadMembers(xs: seq<Item>, pieces: seq<seq<Byte>>, rooms: nat -> nat, inflaters: nat -> Inflater,
                     crc: seq<Byte> -> nat)
      returns (heads: seq<Byte>, bodies: seq<Byte>, footers: seq<Byte>, state: State)
    requires AllGood(xs, crc) && Whole(xs) && Concat(pieces) == Stream(xs)
    requires forall i {:trigger inflaters(i)} :: Honest(inflaters(i))
    ensures heads == Heads(xs) && bodies == Bodies(xs) && footers == Footers(xs) && state == ExpectingHeader
  {
    hide At, Stream, Honest, Heads, Bodies, Footers, Good, Possible, Concat;
    var c := new Context(2 * Size(pieces) + 1);
    heads, bodies, footers := [], [], [];
    FreshAt(xs, crc);
    NoStream();
    Nothing();
    ghost var p := Place([], xs, [], 0);
    assert Seen(c, heads, bodies, footers) == FRESH;
    assert pieces[..0] == [];
    for i := 0 to |pieces|
      invariant fresh(c) && fresh(c.input) && c.Valid() && c.input.Length == 2 * Size(pieces) + 1
      invariant At(xs, crc, Seen(c, heads, bodies, footers), p) && Whole(p.done)
      invariant Stream(p.done) + p.received == Concat(pieces[..i]) && c.length <= |Concat(pieces[..i])|
    {
      ConcatPrefix(pieces, i);
      ghost var w := Seen(c, heads, bodies, footers);
      Places(xs, crc, w, p);
      Fits(pieces, i, Stream(p.done), Stream(p.rest), p.received);
      ArriveAt(xs, crc, w, p, pieces[i]);
      var ok := c.Append(pieces[i]);
      p := p.(received := p.received + pieces[i]);
      assert Seen(c, heads, bodies, footers) == Advance(xs, w, Arrive(pieces[i]), crc);
      ghost var q;
      heads, bodies, footers, q := AskContext(c, xs, heads, bodies, footers, rooms(i), inflaters(i), crc, p);
      SameGiven(p, q);
      p := q;
    }
    assert pieces[..|pieces|] == pieces;
    Places(xs, crc, Seen(c, heads, bodies, footers), p);
    SameTail(Stream(p.done), p.received, Stream(p.rest));
    EagerHonest();
    for i := 0 to |xs|
      invariant fresh(c) && fresh(c.input) && c.Valid() && At(xs, crc, Seen(c, heads, bodies, footers), p)
      invariant Whole(p.done) && Whole(p.rest) && p.received == Stream(p.rest) && |p.rest| <= |xs| - i
    {
      ghost var q;
      heads, bodies, footers, q := AskContext(c, xs, heads, bodies, footers, 1, EAGER, crc, p);
      SameGiven(p, q);
      Shorter(p, q);
      p := q;
    }
    Read(xs, crc, Seen(c, heads, bodies, footers), p);
    state := c.state;
  }

  lemma Nothing()
    ensures Concat<Byte>([]) == []
  {
  }

  lemma Shorter(p: Place, q: Place)
    requires Moved(p, q) && (p.rest != [] ==> q.rest == p.rest[1..])
    ensures |q.rest| <= if p.rest == [] then 0 else |p.rest| - 1
  {
  }

  /** The next piece is part of the stream, and there is room for it. */
  lemma Fits(pieces: seq<seq<Byte>>, i: nat, a: seq<Byte>, b: seq<Byte>, received: seq<Byte>)
    requires i < |pieces| && Concat(pieces) == a + b && a + received == Concat(pieces[..i])
    ensures received + pieces[i] <= b
    ensures |Concat(pieces[..i])| + |pieces[i]| <= |Concat(pieces)|
    ensures a + (received + pieces[i]) == Concat(pieces[..i + 1])
  {
    hide Concat;
    ConcatPrefix(pieces, i);
    Regrouped(a, received, pieces[i]);
    Prefixes(a, b, received + pieces[i], []);
  }
}
