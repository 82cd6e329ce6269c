/**
  The decompression context: a fixed input buffer that is compacted now and then, read from the
  front by the gzip steps and appended to at the end by the owner. Whatever the order of appends
  and steps, it behaves as a queue: `appended` is everything put in, `consumed` counts what was
  taken out, and what is visible is the rest.
 */
module Decompression {
  import opened GzipSpec
  import opened Lists
  import R = GzipRuns
  import L = GzipLimits

  const DEFAULT_SIZE: nat := 1024 * 1000

  function Capacity(size: nat): nat { if size == 0 then DEFAULT_SIZE else size }

  class Context {
    const input: array<Byte>
    var readAt: nat
    var length: nat
    var state: State
    var header: seq<Byte>
    ghost var appended: seq<Byte>
    ghost var consumed: nat

    ghost predicate Valid()
      reads this, input
    {
      && readAt + length <= input.Length
      && consumed + length == |appended|
      && Visible() == appended[consumed..]
      && (state == ExpectingOptional ==> |header| == HEADER_SIZE)
    }

    lemma Shape()
      requires Valid()
      ensures readAt + length <= input.Length && (state == ExpectingOptional ==> |header| == HEADER_SIZE)
    {
    }

    ghost function Visible(): (v: seq<Byte>)
      requires readAt + length <= input.Length
      reads this, input
      ensures |v| == length
    {
      input[readAt..readAt + length]
    }

    ghost function AsRun(): R.Run
      reads this
    {
      R.Run(Parser(state, header), appended, consumed)
    }

    constructor (size: nat)
      ensures Valid() && fresh(input) && input.Length == Capacity(size) && AsRun() == R.START
    {
      input := new Byte[Capacity(size)](_ => 0);
      readAt, length, state, header := 0, 0, ExpectingHeader, [];
      appended, consumed := [], 0;
    }

    /** Moves the unread bytes to the front once the read position is in the second half. */
    method AdjustBuffer()
      requires Valid()
      modifies this`readAt, input
      ensures Valid() && Visible() == old(Visible())
      ensures readAt == if old(readAt) >= input.Length / 2 then 0 else old(readAt)
      ensures readAt == 0 || readAt < input.Length / 2
    {
      if readAt >= input.Length / 2 {
        forall i | 0 <= i < length {
          input[i] := input[readAt + i];
        }
        readAt := 0;
      }
    }

    method AvailableSpace() returns (n: nat)
      requires Valid()
      modifies this`readAt, input
      ensures Valid() && n == input.Length - readAt - length && Visible() == old(Visible())
      ensures readAt == if old(readAt) >= input.Length / 2 then 0 else old(readAt)
    {
      AdjustBuffer();
      n := input.Length - readAt - length;
    }

    /** Where the owner may write, right after the unread bytes. */
    method AppendBuffer() returns (at: nat)
      requires Valid()
      modifies this`readAt, input
      ensures Valid() && at == readAt + length && Visible() == old(Visible())
      ensures readAt == if old(readAt) >= input.Length / 2 then 0 else old(readAt)
    {
      AdjustBuffer();
      at := readAt + length;
    }

    /** Writes after the unread bytes. */
    method Write(at: nat, bytes: seq<Byte>)
      requires Valid() && at == readAt + length && at + |bytes| <= input.Length
      modifies this`length, this`appended, input
      ensures Valid() && appended == old(appended) + bytes && Visible() == old(Visible()) + bytes
    {
      forall i | at <= i < at + |bytes| {
        input[i] := bytes[i - at];
      }
      length := length + |bytes|;
      appended := appended + bytes;
      assert Visible() == old(Visible()) + bytes;
    }

    /** An append by the owner, who asks for the space first. */
    method Append(bytes: seq<Byte>) returns (ok: bool)
      requires Valid()
      modifies this`readAt, this`length, this`appended, input
      ensures Valid()
      ensures var at := if old(readAt) >= input.Length / 2 then 0 else old(readAt);
        ok <==> |bytes| <= input.Length - at - old(length)
      ensures !ok ==> |bytes| + old(length) > input.Length / 2
      ensures var more := if ok then bytes else [];
        appended == old(appended) + more && Visible() == old(Visible()) + more
    {
      var space := AvailableSpace();
      hide Valid;
      if |bytes| > space {
        assert appended + [] == appended && Visible() + [] == Visible();
        return false;
      }
      var at := AppendBuffer();
      Write(at, bytes);
      ok := true;
    }

    method Take(n: nat)
      requires Valid() && n <= length
      modifies this`readAt, this`length, this`consumed
      ensures Valid() && readAt == old(readAt) + n && length == old(length) - n && consumed == old(consumed) + n
      ensures Visible() == old(Visible())[n..]
    {
      readAt := readAt + n;
      length := length - n;
      consumed := consumed + n;
      assert Visible() == old(Visible())[n..];
    }

    method ProcessHeader() returns (status: Status)
      requires Valid()
      modifies this`readAt, this`length, this`consumed, this`state, this`header
      ensures Valid()
      ensures var o := HeaderStep(Parser(old(state), old(header)), old(Visible()));
        && Parser(state, header) == o.next && consumed == old(consumed) + o.used
        && status == o.status && Visible() == old(Visible())[o.used..]
    {
      if length < HEADER_SIZE {
        return Ok;
      }
      var h := input[readAt..readAt + HEADER_SIZE];
      assert h == Visible()[..HEADER_SIZE];
      header := h;
      Take(HEADER_SIZE);
      if ReadLe16(header) != 0x8B1F {
        state := Failed;
        return Failure;
      }
      if header[2] != 8 {
        state := Failed;
        return Failure;
      }
      if header[3] >= 32 {
        state := Failed;
        return Failure;
      }
      state := ExpectingOptional;
      return Ok;
    }

    /** The parser stands where `g` says, counted from the bytes `v` and the header `h`. */
    ghost predicate StandsAt(g: Progress, v: seq<Byte>, h: seq<Byte>, start: nat)
      reads this, input
    {
      && Valid() && state == ExpectingOptional && |h| == HEADER_SIZE && g.flags < 256 && g.used <= |v|
      && header == h[3 := g.flags as Byte] && consumed == start + g.used && Visible() == v[g.used..]
    }

    /** Takes the bytes of a field and clears its flag. */
    method SkipField(n: nat, flag: nat, ghost p: Progress, ghost v: seq<Byte>, ghost h: seq<Byte>, ghost start: nat)
      requires StandsAt(p, v, h, start) && n <= length && flag <= p.flags
      modifies this`readAt, this`length, this`consumed, this`header
      ensures StandsAt(Progress(p.flags - flag, p.used + n, false), v, h, start)
    {
      header := header[3 := (header[3] as int - flag) as Byte];
      assert Valid() && Visible() == v[p.used..];
      assert header == h[3 := (p.flags - flag) as Byte] && length == |v| - p.used;
      hide Visible, Valid;
      Take(n);
      assert v[p.used..][n..] == v[p.used + n..];
    }

    method SkipExtra(ghost v: seq<Byte>, ghost h: seq<Byte>, ghost start: nat)
        returns (waiting: bool, ghost g: Progress)
      requires |h| == HEADER_SIZE && StandsAt(Progress(h[3] as int, 0, false), v, h, start)
      modifies this`readAt, this`length, this`consumed, this`header
      ensures g == AfterExtra(h[3] as int, v) && StandsAt(g, v, h, start) && waiting == g.waiting
    {
      g := AfterExtra(h[3] as int, v);
      if Has(header[3] as int, FEXTRA) {
        assert v[0..] == v;
        if length <= 2 {
          return true, g;
        }
        var xlen := (2 + ReadLe16(input[readAt..readAt + length])) % 0x1_0000;
        if length < xlen {
          return true, g;
        }
        SkipField(xlen, FEXTRA, Progress(h[3] as int, 0, false), v, h, start);
      }
      return false, g;
    }

    method SkipName(ghost p: Progress, ghost v: seq<Byte>, ghost h: seq<Byte>, ghost start: nat)
        returns (waiting: bool, ghost g: Progress)
      requires StandsAt(p, v, h, start) && !p.waiting
      modifies this`readAt, this`length, this`consumed, this`header
      ensures g == AfterName(Between(p, v), v) && StandsAt(g, v, h, start) && waiting == g.waiting
    {
      hide StrNLen;
      g := AfterName(Between(p, v), v);
      if header[3] != 0 && length == 0 {
        return true, g;
      }
      if Has(header[3] as int, FNAME) {
        var xlen := StrNLen(input[readAt..readAt + length]) % 0x1_0000;
        if xlen == 0 || xlen == length {
          return true, g;
        }
        SkipField((xlen + 1) % 0x1_0000, FNAME, p, v, h, start);
      }
      return false, g;
    }

    method SkipComment(ghost p: Progress, ghost v: seq<Byte>, ghost h: seq<Byte>, ghost start: nat)
        returns (waiting: bool, ghost g: Progress)
      requires StandsAt(p, v, h, start) && !p.waiting
      modifies this`readAt, this`length, this`consumed, this`header
      ensures g == AfterComment(Between(p, v), v) && StandsAt(g, v, h, start) && waiting == g.waiting
    {
      hide StrNLen;
      g := AfterComment(Between(p, v), v);
      if header[3] != 0 && length == 0 {
        return true, g;
      }
      if Has(header[3] as int, FCOMMENT) {
        var xlen := StrNLen(input[readAt..readAt + length]) % 0x1_0000;
        if xlen == 0 || xlen == length {
          return true, g;
        }
        SkipField(xlen, FCOMMENT, p, v, h, start);
      }
      return false, g;
    }

    /** Whether flags are left and nothing is buffered. */
    method AtEnd(ghost p: Progress, ghost v: seq<Byte>, ghost h: seq<Byte>, ghost start: nat) returns (waiting: bool)
      requires StandsAt(p, v, h, start) && !p.waiting
      ensures waiting == Between(p, v).waiting && StandsAt(Between(p, v), v, h, start)
    {
      waiting := header[3] != 0 && length == 0;
    }

    /** Extra field, name and comment; a return for want of data leaves the parser at a field boundary. */
    method SkipFields() returns (waiting: bool, ghost g: Progress)
      requires Valid() && state == ExpectingOptional
      modifies this`readAt, this`length, this`consumed, this`header
      ensures g == Fields(old(header)[3] as int, old(Visible())) && waiting == g.waiting
      ensures StandsAt(g, old(Visible()), old(header), old(consumed))
    {
      hide AfterExtra, AfterName, AfterComment;
      ghost var v, h, start := Visible(), header, consumed;
      assert h[3 := h[3]] == h && v[0..] == v;
      assert StandsAt(Progress(h[3] as int, 0, false), v, h, start);
      hide Visible, Between;
      waiting, g := SkipExtra(v, h, start);
      if waiting {
        StillWaiting(g, v);
        return;
      }
      waiting, g := SkipName(g, v, h, start);
      if waiting {
        StillWaiting(g, v);
        return;
      }
      waiting, g := SkipComment(g, v, h, start);
      if !waiting {
        waiting := AtEnd(g, v, h, start);
        g := Between(g, v);
      }
    }

    /** The checksum, if there is one, and then the body. */
    method CheckHeaderCrc(crc: seq<Byte> -> nat) returns (status: Status)
      requires Valid() && state == ExpectingOptional
      modifies this`readAt, this`length, this`consumed, this`state, this`header
      ensures Valid()
      ensures var o := CheckStep(Parser(old(state), old(header)), old(Visible()), crc);
        && Parser(state, header) == o.next && consumed == old(consumed) + o.used
        && status == o.status && Visible() == old(Visible())[o.used..]
    {
      if Has(header[3] as int, FHCRC) {
        CrcFlag(header[3] as int);
        hide Has;
        if length <= 2 {
          return Ok;
        }
        var hcrc := ReadLe16(input[readAt..readAt + length]);
        if hcrc != crc(header) % 0x1_0000 {
          state := Failed;
          return CorruptedHeader;
        }
        Take(2);
        header := header[3 := (header[3] as int - FHCRC) as Byte];
      }
      state := ExpectingBody;
      return Ok;
    }

    method ProcessOptionalHeaders(crc: seq<Byte> -> nat) returns (status: Status)
      requires Valid() && state == ExpectingOptional
      modifies this`readAt, this`length, this`consumed, this`state, this`header
      ensures Valid()
      ensures var o := OptionalStep(Parser(old(state), old(header)), old(Visible()), crc);
        && Parser(state, header) == o.next && consumed == old(consumed) + o.used
        && status == o.status && Visible() == old(Visible())[o.used..]
    {
      hide Fields, CheckStep;
      ghost var g;
      var waiting;
      waiting, g := SkipFields();
      if waiting {
        return Ok;
      }
      status := CheckHeaderCrc(crc);
    }

    /** The inflater is shown what is buffered; exactly what it takes of that leaves the queue. */
    method ProcessBodyChunk(outputLength: nat, inflate: seq<Byte> -> Inflated) returns (status: Status)
      requires Valid() && state == ExpectingBody
      modifies this`readAt, this`length, this`consumed, this`state
      ensures Valid()
      ensures var o := BodyStep(Parser(old(state), header), old(Visible()), outputLength, inflate);
        && Parser(state, header) == o.next && consumed == old(consumed) + o.used
        && status == o.status && Visible() == old(Visible())[o.used..]
    {
      if outputLength == 0 {
        return Ok;
      }
      var r := inflate(input[readAt..readAt + length]);
      if !r.ok {
        state := Failed;
        return Failure;
      }
      Take(if r.used < length then r.used else length);
      if r.ended {
        state := ExpectingFooter;
      }
      return Ok;
    }

    /** The checksum and the size; when nothing is left the buffer starts over at its beginning. */
    method ProcessFooter() returns (status: Status)
      requires Valid() && state == ExpectingFooter
      modifies this`readAt, this`length, this`consumed, this`state
      ensures Valid()
      ensures var o := FooterStep(Parser(old(state), header), old(Visible()));
        && Parser(state, header) == o.next && consumed == old(consumed) + o.used
        && status == o.status && Visible() == old(Visible())[o.used..]
      ensures old(length) >= 8 ==> readAt == if old(length) == 8 then 0 else old(readAt) + 8
    {
      if length < 8 {
        return Ok;
      }
      length := length - 8;
      consumed := consumed + 8;
      if length > 0 {
        readAt := readAt + 8;
      } else {
        readAt := 0;
      }
      assert Visible() == appended[consumed..];
      state := ExpectingHeader;
      return Ok;
    }

    /** The header and the optional fields: one step of the resumable parser. */
    method ProcessHead(crc: seq<Byte> -> nat) returns (status: Status)
      requires Valid()
      modifies this`readAt, this`length, this`consumed, this`state, this`header
      ensures Valid()
      ensures var o := HeadStep(Parser(old(state), old(header)), old(Visible()), crc);
        && Parser(state, header) == o.next && consumed == old(consumed) + o.used
        && status == o.status && Visible() == old(Visible())[o.used..]
    {
      hide HeaderStep, OptionalStep, Valid, Visible;
      Shape();
      status := Ok;
      ghost var v := Visible();
      assert v[0..] == v;
      if state == ExpectingHeader {
        status := ProcessHeader();
      }
      if status == Ok && state == ExpectingOptional {
        ghost var used := consumed - old(consumed);
        status := ProcessOptionalHeaders(crc);
        Later(v, used, consumed - old(consumed) - used);
      }
    }

    /** The body and the footer. */
    method ProcessTail(outputLength: nat, inflate: seq<Byte> -> Inflated)
        returns (body: nat, footer: nat, status: Status)
      requires Valid()
      modifies this`readAt, this`length, this`consumed, this`state
      ensures Valid()
      ensures var t := TailStep(Parser(old(state), header), old(Visible()), outputLength, inflate);
        && Tail(Parser(state, header), body, footer, status) == t && consumed == old(consumed) + body + footer
        && Visible() == old(Visible())[body + footer..]
    {
      hide BodyStep, FooterStep, Valid, Visible;
      Shape();
      var size := length;
      ghost var v, p := Visible(), Parser(state, header);
      ghost var b := if state == ExpectingBody then BodyStep(p, v, outputLength, inflate) else Outcome(p, 0, Ok);
      assert v[0..] == v;
      body, footer, status := 0, 0, Ok;
      if state == ExpectingBody {
        status := ProcessBodyChunk(outputLength, inflate);
        body := size - length;
      }
      assert Outcome(Parser(state, header), body, status) == b && Visible() == v[body..];
      if status == Ok && state == ExpectingFooter {
        status := ProcessFooter();
        footer := size - body - length;
        Later(v, body, footer);
      }
    }

    /** One call: header, optional fields, body and footer as far as the data goes. What each of them
        takes is the next part of the queue. */
    method Dispatch(outputLength: nat, crc: seq<Byte> -> nat, inflate: seq<Byte> -> Inflated) returns (call: Call)
      requires Valid()
      modifies this`readAt, this`length, this`consumed, this`state, this`header
      ensures Valid() && call == CallStep(Parser(old(state), old(header)), old(Visible()), outputLength, crc, inflate)
      ensures Parser(state, header) == call.next && consumed == old(consumed) + call.head + call.body + call.footer
      ensures Visible() == old(Visible())[call.head + call.body + call.footer..]
    {
      hide *;
      Shape();
      var before, size := state, length;
      CallIs(Parser(state, header), Visible(), outputLength, crc, inflate);
      var status := ProcessHead(crc);
      var head, body, footer := size - length, 0, 0;
      var began := state == ExpectingBody && before != ExpectingBody;
      if status == Ok {
        body, footer, status := ProcessTail(outputLength, inflate);
      }
      call := Call(Parser(state, header), head, body, footer, began, status);
    }
  }

  lemma CallIs(p: Parser, v: seq<Byte>, outputLength: nat, crc: seq<Byte> -> nat, inflate: seq<Byte> -> Inflated)
    requires p.state == ExpectingOptional ==> |p.header| == HEADER_SIZE
    ensures var h := HeadStep(p, v, crc);
      var t := if h.status == Ok then TailStep(h.next, v[h.used..], outputLength, inflate)
               else Tail(h.next, 0, 0, h.status);
      var began := h.next.state == ExpectingBody && p.state != ExpectingBody;
      && CallStep(p, v, outputLength, crc, inflate) == Call(t.next, h.used, t.body, t.footer, began, t.status)
      && v[h.used..][t.body + t.footer..] == v[h.used + t.body + t.footer..]
  {
    hide HeadStep, TailStep;
  }

  lemma CrcFlag(flags: nat)
    requires Has(flags, FHCRC)
    ensures flags >= FHCRC
  {
  }

  lemma StillWaiting(g: Progress, v: seq<Byte>)
    requires g.waiting && g.used <= |v|
    ensures AfterName(Between(g, v), v) == g && AfterComment(Between(g, v), v) == g && Between(g, v) == g
  {
  }

  // ----- the queue as its users see it

  datatype Op = OpAppend(bytes: seq<Byte>) | OpCall(outputLength: nat, inflate: seq<Byte> -> Inflated)

  /** A queue without bounds, and the parser that reads it. */
  datatype Queue = Queue(parser: Parser, pending: seq<Byte>)

  const EMPTY := Queue(Parser(ExpectingHeader, []), [])

  predicate WellKept(q: Queue) { q.parser.state == ExpectingOptional ==> |q.parser.header| == HEADER_SIZE }

  /** An operation on the queue, and what it gives to header, inflater and footer. */
  function OpStep(q: Queue, op: Op, kept: bool, crc: seq<Byte> -> nat): (r: (Queue, seq<seq<Byte>>))
    requires WellKept(q)
    ensures WellKept(r.0)
  {
    match op
    case OpAppend(bytes) => (if kept then q.(pending := q.pending + bytes) else q, [])
    case OpCall(outputLength, inflate) =>
      var c := CallStep(q.parser, q.pending, outputLength, crc, inflate);
      var b, f := c.head + c.body, c.head + c.body + c.footer;
      (Queue(c.next, q.pending[f..]), [q.pending[..c.head], q.pending[c.head..b], q.pending[b..f]])
  }

  /** A run in which the appends with `kept` are accepted. */
  function RunOps(q: Queue, ops: seq<Op>, kept: seq<bool>, crc: seq<Byte> -> nat): (r: (Queue, seq<seq<Byte>>))
    requires WellKept(q) && |ops| == |kept|
    ensures WellKept(r.0)
    decreases |ops|
  {
    if ops == [] then (q, [])
    else
      var last := |ops| - 1;
      var (p, given) := RunOps(q, ops[..last], kept[..last], crc);
      var (r, more) := OpStep(p, ops[last], kept[last], crc);
      (r, given + more)
  }

  /** The bytes of the appends that were accepted. */
  function Accepting(ops: seq<Op>, kept: seq<bool>): seq<Byte>
    requires |ops| == |kept|
    decreases |ops|
  {
    if ops == [] then []
    else
      var last := |ops| - 1;
      Accepting(ops[..last], kept[..last]) + if ops[last].OpAppend? && kept[last] then ops[last].bytes else []
  }

  /** Appends are refused only if they would fill more than half of the buffer. */
  ghost predicate OnlyWhenFull(capacity: nat, ops: seq<Op>, kept: seq<bool>, crc: seq<Byte> -> nat)
    requires |ops| == |kept|
    decreases |ops|
  {
    ops == [] ||
    var last := |ops| - 1;
    && OnlyWhenFull(capacity, ops[..last], kept[..last], crc)
    && (ops[last].OpAppend? && !kept[last] ==>
          |ops[last].bytes| + |RunOps(EMPTY, ops[..last], kept[..last], crc).0.pending| > capacity / 2)
  }

  lemma {:induction false} ConcatSplit(a: seq<seq<Byte>>, b: seq<seq<Byte>>)
    ensures Concat(a + b) == Concat(a) + Concat(b)
  {
    if a == [] {
      assert a + b == b;
    } else {
      assert (a + b)[1..] == a[1..] + b;
      ConcatSplit(a[1..], b);
    }
  }

  lemma StepConserves(q: Queue, op: Op, kept: bool, crc: seq<Byte> -> nat)
    requires WellKept(q)
    ensures var (r, given) := OpStep(q, op, kept, crc);
      Concat(given) + r.pending == q.pending + if op.OpAppend? && kept then op.bytes else []
  {
    hide CallStep;
    var (r, given) := OpStep(q, op, kept, crc);
    if op.OpCall? {
      var c := CallStep(q.parser, q.pending, op.outputLength, crc, op.inflate);
      ThreeParts(q.pending, c.head, c.head + c.body, c.head + c.body + c.footer);
      assert q.pending + [] == q.pending;
    } else {
      assert Concat(given) == [];
    }
  }

  lemma ThreeParts(v: seq<Byte>, a: nat, b: nat, c: nat)
    requires a <= b <= c <= |v|
    ensures Concat([v[..a], v[a..b], v[b..c]]) + v[c..] == v
  {
    var x, y, z := v[..a], v[a..b], v[b..c];
    assert [x, y, z][1..] == [y, z] && [y, z][1..] == [z] && [z][1..] == [];
    assert Concat([z]) == z + [] == z;
    assert Concat([x, y, z]) == x + (y + z);
  }

  /** Nothing is lost, repeated or put out of order: what was given away, in the order in which it was
      given, followed by what is pending is what was accepted. */
  lemma {:induction false} Conserved(ops: seq<Op>, kept: seq<bool>, crc: seq<Byte> -> nat)
    requires |ops| == |kept|
    ensures var (q, given) := RunOps(EMPTY, ops, kept, crc); Concat(given) + q.pending == Accepting(ops, kept)
    decreases |ops|
  {
    hide OpStep;
    if ops != [] {
      var last := |ops| - 1;
      Conserved(ops[..last], kept[..last], crc);
      var (p, given) := RunOps(EMPTY, ops[..last], kept[..last], crc);
      var (r, more) := OpStep(p, ops[last], kept[last], crc);
      StepConserves(p, ops[last], kept[last], crc);
      ConcatSplit(given, more);
      hide Concat;
      Regrouped(Concat(given), Concat(more), r.pending);
      Regrouped(Concat(given), p.pending, if ops[last].OpAppend? && kept[last] then ops[last].bytes else []);
    }
  }

  /** Every run of appends and calls, whatever the inflater does, is a run of the queue: the same parts of
      what was accepted go to header, inflater and footer, and the rest is visible. An append is refused
      only if it would fill more than half of the buffer. */
  method RunQueue(size: nat, crc: seq<Byte> -> nat, ops: seq<Op>)
      returns (visible: seq<Byte>, kept: seq<bool>, given: seq<seq<Byte>>)
    ensures |kept| == |ops| && |visible| <= Capacity(size)
    ensures var (q, g) := RunOps(EMPTY, ops, kept, crc); visible == q.pending && given == g
    ensures Concat(given) + visible == Accepting(ops, kept)
    ensures OnlyWhenFull(Capacity(size), ops, kept, crc)
  {
    hide OpStep;
    var c := new Context(size);
    kept, given := [], [];
    for i := 0 to |ops|
      invariant fresh(c) && fresh(c.input) && c.input.Length == Capacity(size) && c.Valid() && |kept| == i
      invariant RunOps(EMPTY, ops[..i], kept, crc) == (Queue(Parser(c.state, c.header), c.Visible()), given)
      invariant OnlyWhenFull(Capacity(size), ops[..i], kept, crc)
    {
      var ok, more := Perform(c, ops[i], crc);
      assert ops[..i + 1][..i] == ops[..i] && (kept + [ok])[..i] == kept;
      kept, given := kept + [ok], given + more;
    }
    visible := c.input[c.readAt..c.readAt + c.length];
    assert ops[..|ops|] == ops;
    Conserved(ops, kept, crc);
  }

  /** One operation on the context is one on the queue. */
  method Perform(c: Context, op: Op, crc: seq<Byte> -> nat) returns (ok: bool, more: seq<seq<Byte>>)
    requires c.Valid()
    modifies c`readAt, c`length, c`appended, c`consumed, c`state, c`header, c.input
    ensures c.Valid()
    ensures (Queue(Parser(c.state, c.header), c.Visible()), more)
         == OpStep(old(Queue(Parser(c.state, c.header), c.Visible())), op, ok, crc)
    ensures op.OpAppend? && !ok ==> |op.bytes| + old(|c.Visible()|) > c.input.Length / 2
  {
    hide CallStep;
    match op
    case OpAppend(bytes) =>
      more := [];
      assert c.Visible() + [] == c.Visible();
      ok := c.Append(bytes);
    case OpCall(outputLength, inflate) =>
      ok := true;
      var v := c.input[c.readAt..c.readAt + c.length];
      var call := c.Dispatch(outputLength, crc, inflate);
      var b, f := call.head + call.body, call.head + call.body + call.footer;
      more := [v[..call.head], v[call.head..b], v[b..f]];
  }

  // ----- where the body begins

  function Size(pieces: seq<seq<Byte>>): nat { |Concat(pieces)| }

  /** A parser in the body is not moved by more pieces. */
  lemma {:induction false} BodyStays(r: R.Run, pieces: seq<seq<Byte>>, crc: seq<Byte> -> nat)
    requires r.used <= |r.received| && r.parser.state == ExpectingBody
    ensures R.FeedAll(r, pieces, crc).parser == r.parser && R.FeedAll(r, pieces, crc).used == r.used
    decreases |pieces|
  {
    if pieces != [] {
      R.NoCall(r.parser, (r.received + pieces[0])[r.used..], crc);
      hide HeadStep;
      BodyStays(R.Feed(r, pieces[0], crc), pieces[1..], crc);
    }
  }

  /** One piece appended and one call, before the body: one step of the resumable parser. */
  method FeedPiece(c: Context, piece: seq<Byte>, outputLength: nat,
                   crc: seq<Byte> -> nat, inflate: seq<Byte> -> Inflated) returns (call: Call)
    requires c.Valid() && c.state != ExpectingBody && c.state != ExpectingFooter
    requires c.length + |piece| <= c.input.Length / 2
    modifies c`readAt, c`length, c`appended, c`consumed, c`state, c`header, c.input
    ensures c.Valid() && c.appended == old(c.appended) + piece
    ensures var t := R.Feed(old(c.AsRun()), piece, crc);
      && (call.began <==> t.parser.state == ExpectingBody) && t.used == old(c.consumed) + call.head
      && (!call.began ==> c.AsRun() == t && c.state != ExpectingBody && c.state != ExpectingFooter)
  {
    var ok := c.Append(piece);
    HeadStates(Parser(c.state, c.header), c.Visible(), crc);
    hide HeadStep, BodyStep, FooterStep;
    call := c.Dispatch(outputLength, crc, inflate);
  }

  lemma HeadStates(p: Parser, v: seq<Byte>, crc: seq<Byte> -> nat)
    requires p.state != ExpectingBody && p.state != ExpectingFooter
    requires p.state == ExpectingOptional ==> |p.header| == HEADER_SIZE
    ensures HeadStep(p, v, crc).next.state != ExpectingFooter
  {
    hide Fields, GoodHeader, Has;
  }

  /** The context fed any pieces enters the first body exactly when the resumable parser does, and at the
      same place. */
  method FindBody(pieces: seq<seq<Byte>>, outputLength: nat, crc: seq<Byte> -> nat, inflate: seq<Byte> -> Inflated)
      returns (found: bool, offset: nat)
    ensures var r := R.FeedAll(R.START, pieces, crc);
      (found <==> r.parser.state == ExpectingBody) && (found ==> offset == r.used)
  {
    assert Concat<Byte>([]) == [] && pieces[..0] == [];
    hide R.Feed, Concat;
    var c := new Context(2 * Size(pieces) + 1);
    offset, found := 0, false;
    for i := 0 to |pieces|
      invariant fresh(c) && fresh(c.input) && c.Valid() && c.input.Length == 2 * Size(pieces) + 1
      invariant c.appended == Concat(pieces[..i]) && offset == c.consumed
      invariant c.AsRun() == R.FeedAll(R.START, pieces[..i], crc)
      invariant c.state != ExpectingBody && c.state != ExpectingFooter
    {
      ConcatPrefix(pieces, i);
      FedSoFar(pieces, i, crc);
      var call := FeedPiece(c, pieces[i], outputLength, crc, inflate);
      offset := offset + call.head;
      if call.began {
        return true, offset;
      }
    }
    assert pieces[..|pieces|] == pieces;
  }

  /** The first `i + 1` pieces, and all of them if they end in the body. */
  lemma FedSoFar(pieces: seq<seq<Byte>>, i: nat, crc: seq<Byte> -> nat)
    requires i < |pieces|
    ensures var t := R.FeedAll(R.START, pieces[..i + 1], crc);
      && t == R.Feed(R.FeedAll(R.START, pieces[..i], crc), pieces[i], crc)
      && (t.parser.state == ExpectingBody ==>
            var r := R.FeedAll(R.START, pieces, crc); r.parser == t.parser && r.used == t.used)
  {
    hide R.Feed, R.FeedAll;
    assert pieces[..i + 1] == pieces[..i] + [pieces[i]];
    FeedTwice(R.START, pieces[..i], [pieces[i]], crc);
    FeedOne(R.FeedAll(R.START, pieces[..i], crc), pieces[i], crc);
    assert pieces == pieces[..i + 1] + pieces[i + 1..];
    FeedTwice(R.START, pieces[..i + 1], pieces[i + 1..], crc);
    var t := R.FeedAll(R.START, pieces[..i + 1], crc);
    if t.parser.state == ExpectingBody { BodyStays(t, pieces[i + 1..], crc); }
  }

  lemma FeedOne(r: R.Run, piece: seq<Byte>, crc: seq<Byte> -> nat)
    requires r.used <= |r.received| && (r.parser.state == ExpectingOptional ==> |r.parser.header| == HEADER_SIZE)
    ensures R.FeedAll(r, [piece], crc) == R.Feed(r, piece, crc)
  {
    hide R.Feed;
    assert [piece][1..] == [];
  }

  lemma {:induction false} FeedTwice(r: R.Run, a: seq<seq<Byte>>, b: seq<seq<Byte>>, crc: seq<Byte> -> nat)
    requires r.used <= |r.received| && (r.parser.state == ExpectingOptional ==> |r.parser.header| == HEADER_SIZE)
    ensures R.FeedAll(r, a + b, crc) == R.FeedAll(R.FeedAll(r, a, crc), b, crc)
    decreases |a|
  {
    hide R.Feed;
    if a == [] {
      assert a + b == b;
    } else {
      assert (a + b)[1..] == a[1..] + b && (a + b)[0] == a[0];
      FeedTwice(R.Feed(r, a[0], crc), a[1..], b, crc);
    }
  }

  /** The context fed any pieces of a member, with at least one byte of the body: it is in
      the body where the one-shot skip is if and only if the member is readable and its checksum is one
      that both accept. */
  method EnterMember(m: Member, body: seq<Byte>, pieces: seq<seq<Byte>>, outputLength: nat,
                     crc: seq<Byte> -> nat, inflate: seq<Byte> -> Inflated) returns (found: bool, offset: nat)
    requires Possible(m) && |body| >= 8 && Concat(pieces) <= Header(m) + body && |Concat(pieces)| > |Header(m)|
    ensures found && OneShot(Header(m) + body, crc) == At(offset) <==> Readable(m) && Accepted(m, crc) && Sound(m, crc)
  {
    hide OneShot, Header, Readable, Accepted, Sound;
    found, offset := FindBody(pieces, outputLength, crc, inflate);
    L.ExactlyWhen(m, body, pieces, crc);
  }
}
