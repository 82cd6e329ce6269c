/**
  Reference semantics of the streaming CSV reader: an automaton that looks at one
  character at a time and keeps no buffer and no offset (section 2 of RFC 4180,
  with the leniencies of the reader: a lone line feed or a lone carriage return
  also ends a record). What the buffering reader does is measured against `Trace`.
 */
module CsvSpec {

  /** The five states of the reader. */
  datatype Mode = Initial | StartedSimple | StartedDquote | FoundDquote | FoundCr

  /** What an observer sees: a field handed to the callback, or the end of a record
      together with the number of fields it had. */
  datatype Event = Field(text: string) | Record(count: nat)

  /** `raw` is the text of the field being read, still escaped, after its opening quote. */
  datatype Scan = Scan(mode: Mode, raw: string, parsed: bool, count: nat) {
    predicate MidField() { mode == StartedSimple || IsQuoted(mode) }
  }

  predicate IsQuoted(m: Mode) { m == StartedDquote || m == FoundDquote }

  datatype Outcome = Outcome(events: seq<Event>, last: Scan)

  const INIT := Scan(Initial, "", false, 0)

  predicate IsTerminator(c: char) { c == ',' || c == '\n' || c == '\r' }

  function Prepend(es: seq<Event>, o: Outcome): Outcome { Outcome(es + o.events, o.last) }

  /** Every quote is followed by another one. */
  predicate Paired(s: string)
  {
    s == "" || (if s[0] == '"' then |s| >= 2 && s[1] == '"' && Paired(s[2..]) else Paired(s[1..]))
  }

  /** Collapses each doubled quote. */
  function Unescape(s: string): (r: string)
    requires Paired(s)
    ensures |r| <= |s|
  {
    if s == "" then ""
    else if s[0] == '"' then ['"'] + Unescape(s[2..])
    else [s[0]] + Unescape(s[1..])
  }

  function EmptyField(s: Scan): (r: (Scan, seq<Event>))
  {
    if s.parsed then (s, []) else (s.(count := s.count + 1), [Field("")])
  }

  function EndRecord(s: Scan): (r: (Scan, seq<Event>))
  {
    var (t, es) := EmptyField(s);
    (INIT, es + [Record(t.count)])
  }

  /** A character seen between fields. */
  function FeedInitial(s: Scan, c: char): (r: (Scan, seq<Event>))
  {
    if c == '\r' then (s.(mode := FoundCr), [])
    else if c == '\n' then EndRecord(s)
    else if c == ',' then var (t, es) := EmptyField(s); (t.(parsed := false), es)
    else if c == '"' then (s.(mode := StartedDquote, raw := ""), [])
    else (s.(mode := StartedSimple, raw := [c]), [])
  }

  /** The text of a field that ends where it stands now. */
  function FieldText(s: Scan): string
  {
    if s.mode == FoundDquote && |s.raw| > 0 && Paired(s.raw[..|s.raw| - 1])
    then Unescape(s.raw[..|s.raw| - 1]) else s.raw
  }

  function Completed(s: Scan): Scan { Scan(Initial, "", true, s.count + 1) }

  /** Whether character `c` ends the field being read. */
  predicate Ends(s: Scan, c: char)
  {
    (s.mode == StartedSimple && IsTerminator(c)) || (s.mode == FoundDquote && c != '"')
  }

  /** A character that belongs to the field being read. */
  function Continued(s: Scan, c: char): Scan
  {
    var m := if s.mode == StartedDquote && c == '"' then FoundDquote
             else if s.mode == FoundDquote then StartedDquote else s.mode;
    s.(mode := m, raw := s.raw + [c])
  }

  function Feed(s: Scan, c: char): (r: (Scan, seq<Event>))
  {
    match s.mode
    case Initial => FeedInitial(s, c)
    case FoundCr =>
      var (t, es) := EndRecord(s);
      if c == '\n' then (t, es) else var (u, fs) := FeedInitial(t, c); (u, es + fs)
    case _ =>
      if Ends(s, c) then
        var (u, fs) := FeedInitial(Completed(s), c);
        (u, [Field(FieldText(s))] + fs)
      else (Continued(s, c), [])
  }

  /** Everything observed while reading `input` from state `s`, and the state reached. */
  function Trace(s: Scan, input: string): (o: Outcome)
    decreases |input|
  {
    if input == "" then Outcome([], s)
    else var (t, es) := Feed(s, input[0]); Prepend(es, Trace(t, input[1..]))
  }

  /** The input may be cut anywhere: the second part continues from the state of the first. */
  lemma {:induction false} TraceConcat(s: Scan, a: string, b: string)
    ensures Trace(s, a + b) == Prepend(Trace(s, a).events, Trace(Trace(s, a).last, b))
    decreases |a|
  {
    if a == "" {
      assert a + b == b;
    } else {
      var (t, es) := Feed(s, a[0]);
      assert (a + b)[1..] == a[1..] + b;
      TraceConcat(t, a[1..], b);
      assert es + (Trace(t, a[1..]).events + Trace(Trace(t, a[1..]).last, b).events)
          == es + Trace(t, a[1..]).events + Trace(Trace(t, a[1..]).last, b).events;
    }
  }

  /** One character that produces no event. */
  lemma TraceQuiet(s: Scan, input: string, t: Scan)
    requires input != "" && Feed(s, input[0]) == (t, [])
    ensures Trace(s, input) == Trace(t, input[1..])
  {
    assert [] + Trace(t, input[1..]).events == Trace(t, input[1..]).events;
  }

  lemma TraceNothing(s: Scan)
    ensures Trace(s, "") == Outcome([], s)
  {
  }

  lemma TraceContinues(s: Scan, buf: string, i: nat)
    requires i < |buf| && s.MidField() && !Ends(s, buf[i])
    ensures Trace(s, buf[i..]) == Trace(Continued(s, buf[i]), buf[i + 1..])
  {
    assert buf[i..][1..] == buf[i + 1..];
    TraceQuiet(s, buf[i..], Continued(s, buf[i]));
  }

  /** A terminating character delivers the field and is then read again between fields. */
  lemma TraceEnds(s: Scan, input: string)
    requires input != "" && s.MidField() && Ends(s, input[0])
    ensures Trace(s, input) == Prepend([Field(FieldText(s))], Trace(Completed(s), input))
  {
    hide FeedInitial, FieldText, Unescape, Paired, EndRecord, Continued;
    var (u, fs) := FeedInitial(Completed(s), input[0]);
    assert Feed(s, input[0]) == (u, [Field(FieldText(s))] + fs);
    assert [Field(FieldText(s))] + fs + Trace(u, input[1..]).events
        == [Field(FieldText(s))] + (fs + Trace(u, input[1..]).events);
  }

  /** A record ends at a line feed, or at any character that follows a carriage return; only
      a line feed is consumed. */
  lemma TraceEndRecord(s: Scan, input: string)
    requires input != "" && (s.mode == FoundCr || (s.mode == Initial && input[0] == '\n'))
    ensures Trace(s, input)
         == Prepend(EndRecord(s).1, Trace(INIT, if input[0] == '\n' then input[1..] else input))
  {
    if input[0] != '\n' {
      hide FeedInitial, FieldText, Unescape, Paired, Continued;
      var (u, fs) := FeedInitial(INIT, input[0]);
      assert EndRecord(s).1 + fs + Trace(u, input[1..]).events
          == EndRecord(s).1 + (fs + Trace(u, input[1..]).events);
    }
  }

  lemma TraceComma(s: Scan, input: string)
    requires input != "" && s.mode == Initial && input[0] == ','
    ensures Trace(s, input)
         == Prepend(EmptyField(s).1, Trace(EmptyField(s).0.(parsed := false), input[1..]))
  {
  }

  /** The first character of an unquoted field may as well be read as its continuation. */
  lemma TraceOpensSimple(s: Scan, input: string)
    requires input != "" && !IsTerminator(input[0]) && input[0] != '"' && s.mode == Initial && s.raw == ""
    ensures Trace(s, input) == Trace(s.(mode := StartedSimple), input)
  {
    assert "" + [input[0]] == [input[0]];
  }

  lemma PrependConcat(es: seq<Event>, fs: seq<Event>, o: Outcome)
    ensures Prepend(es, Prepend(fs, o)) == Prepend(es + fs, o)
  {
    assert es + (fs + o.events) == es + fs + o.events;
  }

  lemma {:induction false} PairedAppend(s: string, c: char)
    requires Paired(s)
    ensures c != '"' ==> Paired(s + [c])
    ensures Paired(s + ['"', '"'])
  {
    if s == "" {
      assert ("" + [c])[1..] == "" && ("" + ['"', '"'])[2..] == "";
    } else {
      var k := if s[0] == '"' then 2 else 1;
      PairedAppend(s[k..], c);
      assert (s + [c])[k..] == s[k..] + [c];
      assert (s + ['"', '"'])[k..] == s[k..] + ['"', '"'];
    }
  }

  /** One step of the collapse: a quote is skipped, the next character is kept. */
  lemma UnescapeStep(s: string, q: nat)
    requires Paired(s) && s != "" && q == if s[0] == '"' then 1 else 0
    ensures q < |s| && Paired(s[q + 1..]) && Unescape(s) == [s[q]] + Unescape(s[q + 1..])
  {
  }

  lemma {:induction false} UnescapeNoQuote(s: string)
    requires '"' !in s
    ensures Paired(s) && Unescape(s) == s
  {
    if s != "" {
      assert s[0] in s;
      UnescapeNoQuote(s[1..]);
    }
  }
}
