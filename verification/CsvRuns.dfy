/**
  Whole runs of the CSV reader: feeding it an input in any pieces, and reading back a
  printed table (section 2 of RFC 4180).
 */
module CsvRuns {
  import opened CsvSpec
  import opened CsvReader
  import opened Lists

  /** What one call adds to the visible events. */
  lemma VisibleStep(cb: bool, log: seq<Event>, es: seq<Event>, tail: seq<Event>,
                    calls: seq<string>, calls': seq<string>)
    requires AllFields(es) && forall e <- tail :: e.Record?
    requires calls == (if cb then Texts(log) else []) && calls' == if cb then Texts(log + es + tail) else []
    ensures |calls| <= |calls'|
    ensures Visible(cb, log + es + tail) == Visible(cb, log) + FieldEvents(calls'[|calls|..]) + tail
  {
    hide Texts, Records;
    TextsConcat(log + es, tail);
    TextsConcat(log, es);
    RecordsConcat(log + es, tail);
    RecordsConcat(log, es);
    TextsOfFields(es);
    RecordsOnly(tail);
    if cb {
      assert calls'[|calls|..] == Texts(es);
    } else {
      assert calls'[|calls|..] == [] && FieldEvents([]) == [];
    }
  }

  lemma {:induction false} RecordsOnly(es: seq<Event>)
    requires forall e <- es :: e.Record?
    ensures Records(es) == es && Texts(es) == []
  {
    if es != [] { RecordsOnly(es[1..]); }
  }

  lemma Regroup(a: seq<Event>, b: seq<Event>, c: seq<Event>, d: seq<Event>)
    ensures a + b + c + d == a + (b + c + d)
  {
  }

  /** Feeds one piece, record by record, as the owner of a reader does. */
  method FeedPiece(r: Reader, piece: string) returns (events: seq<Event>)
    requires r.Valid() && r.Logged()
    modifies r, r.escape
    ensures r.Valid() && r.Logged() && (r.escape == old(r.escape) || fresh(r.escape))
    ensures r.Prospect("") == old(r.Prospect(piece))
    ensures Visible(r.hasCallback, r.log) == old(Visible(r.hasCallback, r.log)) + events
  {
    hide Trace, Texts, Records, r.Shaped;
    events := [];
    var pos := 0;
    ghost var goal := r.Prospect(piece);
    ghost var seen := Visible(r.hasCallback, r.log);
    assert piece[0..] == piece;
    while true
      invariant r.Valid() && r.Logged() && (r.escape == old(r.escape) || fresh(r.escape))
      invariant pos <= |piece| && r.Prospect(piece[pos..]) == goal
      invariant Visible(r.hasCallback, r.log) == seen + events
      decreases |piece| - pos, r.mode == FoundCr
    {
      var n := |r.calls|;
      ghost var log, calls := r.log, r.calls;
      var ret, next, count := r.ParseRecord(piece, pos);
      pos := next;
      var tail := if ret == Success then [Record(count)] else [];
      ghost var es :| AllFields(es) && r.log == log + es + tail;
      VisibleStep(r.hasCallback, log, es, tail, calls, r.calls);
      Regroup(seen, events, FieldEvents(r.calls[n..]), tail);
      events := events + FieldEvents(r.calls[n..]) + tail;
      if ret != Success {
        assert piece[pos..] == "";
        return;
      }
    }
  }

  /** For every input and every way of cutting it into pieces, the fields, record ends and field
      counts that are observed are those of the automaton on the whole input. */
  method ParsePieces(hasCallback: bool, pieces: seq<string>) returns (events: seq<Event>)
    ensures events == Visible(hasCallback, Trace(INIT, Concat(pieces)).events)
  {
    hide Trace, Concat, Texts, Records;
    var r := new Reader(hasCallback);
    events := [];
    StartOfRun();
    assert pieces[..0] == [];
    for i := 0 to |pieces|
      invariant fresh(r) && fresh(r.escape) && r.Valid() && r.Logged() && r.hasCallback == hasCallback
      invariant r.Prospect("") == Trace(INIT, Concat(pieces[..i]))
      invariant events == Visible(hasCallback, r.log)
    {
      ConcatPrefix(pieces, i);
      TraceConcat(INIT, Concat(pieces[..i]), pieces[i]);
      NothingLeft(r.log, r.View());
      var more := FeedPiece(r, pieces[i]);
      events := events + more;
    }
    assert pieces[..|pieces|] == pieces;
    NothingLeft(r.log, r.View());
  }

  lemma NothingLeft(log: seq<Event>, s: Scan)
    ensures Prepend(log, Trace(s, "")) == Outcome(log, s)
  {
  }

  lemma StartOfRun()
    ensures Prepend([], Trace(INIT, "")) == Trace(INIT, Concat([])) && Records([]) == [] && Texts([]) == []
  {
  }

  /** Two cuts of the same input are indistinguishable, and the field counts do not depend on
      there being a callback. */
  method CutsAgree(a: seq<string>, b: seq<string>) returns (withA: seq<Event>, withB: seq<Event>, without: seq<Event>)
    requires Concat(a) == Concat(b)
    ensures withA == withB == Trace(INIT, Concat(a)).events && without == Records(withA)
  {
    withA := ParsePieces(true, a);
    withB := ParsePieces(true, b);
    without := ParsePieces(false, b);
  }

  // ----- printing a table and reading it back

  datatype Cell = Cell(text: string, quoted: bool)
  datatype Eol = CrLf | Lf
  datatype Row = Row(cells: seq<Cell>, eol: Eol)

  function EscapeChar(c: char): string { if c == '"' then "\"\"" else [c] }

  function Double(s: string): string
  {
    if s == "" then "" else EscapeChar(s[0]) + Double(s[1..])
  }

  /** A cell may go unquoted when it does not begin with a quote and has no terminator. */
  predicate Printable(c: Cell)
  {
    c.quoted || ((c.text == "" || c.text[0] != '"') && forall ch <- c.text :: !IsTerminator(ch))
  }

  function PrintCell(c: Cell): string
  {
    if c.quoted then "\"" + Double(c.text) + "\"" else c.text
  }

  function PrintEol(e: Eol): string { if e.CrLf? then "\r\n" else "\n" }

  function PrintCells(cells: seq<Cell>): string
    requires cells != []
  {
    if |cells| == 1 then PrintCell(cells[0]) else PrintCell(cells[0]) + "," + PrintCells(cells[1..])
  }

  predicate PrintableRow(r: Row) { r.cells != [] && forall c <- r.cells :: Printable(c) }

  function Print(rows: seq<Row>): string
    requires forall r <- rows :: PrintableRow(r)
  {
    if rows == [] then "" else
      assert PrintableRow(rows[0]);
      PrintCells(rows[0].cells) + PrintEol(rows[0].eol) + Print(rows[1..])
  }

  function CellEvents(cells: seq<Cell>): (r: seq<Event>)
  {
    seq(|cells|, i requires 0 <= i < |cells| => Field(cells[i].text))
  }

  function TableEvents(rows: seq<Row>): seq<Event>
  {
    if rows == [] then [] else CellEvents(rows[0].cells) + [Record(|rows[0].cells|)] + TableEvents(rows[1..])
  }

  lemma {:induction false} UnescapeDouble(s: string)
    ensures Paired(Double(s)) && Unescape(Double(s)) == s
  {
    if s != "" {
      UnescapeDouble(s[1..]);
      var k := if s[0] == '"' then 2 else 1;
      assert Double(s)[k..] == Double(s[1..]);
    }
  }

  lemma TraceDoubledQuote(s: Scan, rest: string)
    requires s.mode == StartedDquote
    ensures Trace(s, "\"\"" + rest) == Trace(s.(raw := s.raw + "\"\""), rest)
  {
    hide Trace;
    var all := "\"\"" + rest;
    TraceContinues(s, all, 0);
    TraceContinues(Continued(s, '"'), all, 1);
    assert all[0..] == all && all[2..] == rest;
    assert s.raw + ['"'] + ['"'] == s.raw + "\"\"";
  }

  lemma TraceOneMore(s: Scan, c: char, rest: string)
    requires s.MidField() && !Ends(s, c)
    ensures Trace(s, [c] + rest) == Trace(Continued(s, c), rest)
  {
    hide Trace;
    TraceContinues(s, [c] + rest, 0);
    assert ([c] + rest)[0..] == [c] + rest && ([c] + rest)[1..] == rest;
  }

  lemma TraceEscaped(s: Scan, c: char, rest: string)
    requires s.mode == StartedDquote
    ensures Trace(s, EscapeChar(c) + rest) == Trace(s.(raw := s.raw + EscapeChar(c)), rest)
  {
    hide Trace;
    if c == '"' { TraceDoubledQuote(s, rest); } else { TraceOneMore(s, c, rest); }
  }

  /** The inside of a quoted field is accumulated without any event. */
  lemma {:induction false} QuotedBody(s: Scan, text: string, rest: string)
    requires s.mode == StartedDquote
    ensures Trace(s, Double(text) + rest) == Trace(s.(raw := s.raw + Double(text)), rest)
    decreases |text|
  {
    hide Trace, EscapeChar;
    if text == "" {
      assert s.raw + "" == s.raw && "" + rest == rest;
    } else {
      var head, more := EscapeChar(text[0]), Double(text[1..]);
      assert Double(text) + rest == head + (more + rest);
      TraceEscaped(s, text[0], more + rest);
      QuotedBody(s.(raw := s.raw + head), text[1..], rest);
      assert s.raw + head + more == s.raw + Double(text);
    }
  }

  lemma {:induction false} SimpleBody(s: Scan, text: string, rest: string)
    requires s.mode == StartedSimple && forall c <- text :: !IsTerminator(c)
    ensures Trace(s, text + rest) == Trace(s.(raw := s.raw + text), rest)
    decreases |text|
  {
    if text == "" {
      assert s.raw + "" == s.raw && "" + rest == rest;
    } else {
      hide Trace;
      assert text + rest == [text[0]] + (text[1..] + rest);
      TraceOneMore(s, text[0], text[1..] + rest);
      SimpleBody(Continued(s, text[0]), text[1..], rest);
      assert s.raw + [text[0]] + text[1..] == s.raw + text;
    }
  }

  lemma QuotedReadBack(n: nat, text: string, rest: string)
    requires rest != "" && IsTerminator(rest[0])
    ensures var s := Scan(Initial, "", false, n);
            Trace(s, "\"" + Double(text) + "\"" + rest) == Prepend([Field(text)], Trace(Completed(s), rest))
  {
    hide Trace, Double;
    var s := Scan(Initial, "", false, n);
    var o := s.(mode := StartedDquote);
    var all, inner := "\"" + Double(text) + "\"" + rest, Double(text) + ("\"" + rest);
    assert all == "\"" + inner && all[1..] == inner;
    TraceQuiet(s, all, o);
    QuotedBody(o, text, "\"" + rest);
    var p := o.(raw := "" + Double(text));
    TraceOneMore(p, '"', rest);
    var q := Continued(p, '"');
    TraceEnds(q, rest);
    assert q.raw[..|q.raw| - 1] == Double(text);
    UnescapeDouble(text);
  }

  lemma SimpleReadBack(n: nat, text: string, rest: string)
    requires rest != "" && IsTerminator(rest[0])
    requires text != "" && text[0] != '"' && forall ch <- text :: !IsTerminator(ch)
    ensures var s := Scan(Initial, "", false, n);
            Trace(s, text + rest) == Prepend([Field(text)], Trace(Completed(s), rest))
  {
    hide Trace;
    var s := Scan(Initial, "", false, n);
    assert (text + rest)[0] == text[0] && text[0] in text;
    TraceOpensSimple(s, text + rest);
    SimpleBody(s.(mode := StartedSimple), text, rest);
    TraceEnds(s.(mode := StartedSimple, raw := "" + text), rest);
    assert "" + text == text;
  }

  /** A printed cell yields its text, or nothing yet when it is empty and unquoted. */
  lemma CellReadBack(n: nat, c: Cell, rest: string)
    requires Printable(c) && rest != "" && IsTerminator(rest[0])
    ensures var s := Scan(Initial, "", false, n);
            Trace(s, PrintCell(c) + rest)
            == if c == Cell("", false) then Trace(s, rest) else Prepend([Field(c.text)], Trace(Completed(s), rest))
  {
    hide Trace, Double;
    if c.quoted {
      QuotedReadBack(n, c.text, rest);
    } else if c.text == "" {
      assert PrintCell(c) + rest == rest;
    } else {
      SimpleReadBack(n, c.text, rest);
    }
  }

  lemma CellThenComma(n: nat, c: Cell, rest: string)
    requires Printable(c)
    ensures Trace(Scan(Initial, "", false, n), PrintCell(c) + "," + rest)
         == Prepend([Field(c.text)], Trace(Scan(Initial, "", false, n + 1), rest))
  {
    hide Trace;
    var s := Scan(Initial, "", false, n);
    assert PrintCell(c) + "," + rest == PrintCell(c) + ("," + rest);
    assert ("," + rest)[1..] == rest;
    CellReadBack(n, c, "," + rest);
    TraceComma(s, "," + rest);
    TraceComma(Completed(s), "," + rest);
    var o := Trace(Scan(Initial, "", false, n + 1), rest);
    PrependConcat([Field(c.text)], [], o);
    assert [Field(c.text)] + [] == [Field(c.text)];
  }

  lemma CellThenEol(n: nat, c: Cell, e: Eol, rest: string)
    requires Printable(c)
    ensures Trace(Scan(Initial, "", false, n), PrintCell(c) + PrintEol(e) + rest)
         == Prepend([Field(c.text), Record(n + 1)], Trace(INIT, rest))
  {
    hide Trace;
    var s := Scan(Initial, "", false, n);
    assert PrintCell(c) + PrintEol(e) + rest == PrintCell(c) + (PrintEol(e) + rest);
    CellReadBack(n, c, PrintEol(e) + rest);
    EolEnds(s, e, rest);
    EolEnds(Completed(s), e, rest);
    PrependConcat([Field(c.text)], EndRecord(Completed(s)).1, Trace(INIT, rest));
    assert [Field(c.text)] + EndRecord(Completed(s)).1 == [Field(c.text), Record(n + 1)];
  }

  lemma EolEnds(s: Scan, e: Eol, rest: string)
    requires s.mode == Initial
    ensures Trace(s, PrintEol(e) + rest) == Prepend(EndRecord(s).1, Trace(INIT, rest))
  {
    hide Trace;
    assert ("\n" + rest)[1..] == rest;
    if e.CrLf? {
      assert ("\r\n" + rest)[1..] == "\n" + rest;
      TraceQuiet(s, "\r\n" + rest, s.(mode := FoundCr));
      TraceEndRecord(s.(mode := FoundCr), "\n" + rest);
    } else {
      TraceEndRecord(s, "\n" + rest);
    }
  }

  lemma {:induction false} RowReadBack(n: nat, cells: seq<Cell>, e: Eol, rest: string)
    requires cells != [] && forall c <- cells :: Printable(c)
    ensures Trace(Scan(Initial, "", false, n), PrintCells(cells) + PrintEol(e) + rest)
         == Prepend(CellEvents(cells) + [Record(n + |cells|)], Trace(INIT, rest))
    decreases |cells|
  {
    hide Trace, PrintCell;
    if |cells| == 1 {
      CellThenEol(n, cells[0], e, rest);
      assert CellEvents(cells) + [Record(n + |cells|)] == [Field(cells[0].text), Record(n + 1)];
    } else {
      var tail := PrintCells(cells[1..]) + PrintEol(e) + rest;
      assert PrintCells(cells) + PrintEol(e) + rest == PrintCell(cells[0]) + "," + tail;
      CellThenComma(n, cells[0], tail);
      RowReadBack(n + 1, cells[1..], e, rest);
      var es := CellEvents(cells[1..]) + [Record(n + |cells|)];
      PrependConcat([Field(cells[0].text)], es, Trace(INIT, rest));
      assert [Field(cells[0].text)] + es == CellEvents(cells) + [Record(n + |cells|)];
    }
  }

  /** Reading a printed table gives exactly its cells and the number of cells of every row. */
  lemma {:induction false} TableReadBack(rows: seq<Row>)
    requires forall r <- rows :: PrintableRow(r)
    ensures Trace(INIT, Print(rows)) == Outcome(TableEvents(rows), INIT)
  {
    hide Trace, PrintCells;
    if rows == [] {
      TraceNothing(INIT);
    } else {
      assert PrintableRow(rows[0]);
      RowReadBack(0, rows[0].cells, rows[0].eol, Print(rows[1..]));
      TableReadBack(rows[1..]);
    }
  }

  /** A printed table, delivered in any pieces, is read back by the reader. */
  method ReadPrintedTable(rows: seq<Row>, pieces: seq<string>) returns (events: seq<Event>)
    requires forall r <- rows :: PrintableRow(r)
    requires Concat(pieces) == Print(rows)
    ensures events == TableEvents(rows)
  {
    events := ParsePieces(true, pieces);
    TableReadBack(rows);
  }
}
