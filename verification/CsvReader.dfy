/**
  The streaming CSV reader itself: a resumable object that keeps a partial field in a
  buffer between calls and an offset either into the caller's data or into that buffer.
  Every method is proved against the one-character-at-a-time automaton of `CsvSpec`.
 */
module CsvReader {
  import opened CsvSpec
  import Lists

  datatype Status = Success | Eof | InvalidState

  function Texts(es: seq<Event>): (r: seq<string>)
  {
    if es == [] then [] else (if es[0].Field? then [es[0].text] else []) + Texts(es[1..])
  }

  function Records(es: seq<Event>): (r: seq<Event>)
  {
    if es == [] then [] else (if es[0].Record? then [es[0]] else []) + Records(es[1..])
  }

  /** The events an owner can see: without a callback only the ends of records. */
  function Visible(hasCallback: bool, es: seq<Event>): seq<Event>
  {
    if hasCallback then es else Records(es)
  }

  predicate AllFields(es: seq<Event>) { forall e <- es :: e.Field? }

  function FieldEvents(ts: seq<string>): (r: seq<Event>)
    ensures |r| == |ts| && forall i :: 0 <= i < |ts| ==> r[i] == Field(ts[i])
  {
    seq(|ts|, i requires 0 <= i < |ts| => Field(ts[i]))
  }

  lemma {:induction false} TextsConcat(a: seq<Event>, b: seq<Event>)
    ensures Texts(a + b) == Texts(a) + Texts(b)
  {
    if a == [] {
      assert a + b == b;
    } else {
      TextsConcat(a[1..], b);
      assert (a + b)[1..] == a[1..] + b && (a + b)[0] == a[0];
      Lists.Regrouped(if a[0].Field? then [a[0].text] else [], Texts(a[1..]), Texts(b));
    }
  }

  lemma {:induction false} RecordsConcat(a: seq<Event>, b: seq<Event>)
    ensures Records(a + b) == Records(a) + Records(b)
  {
    if a == [] {
      assert a + b == b;
    } else {
      RecordsConcat(a[1..], b);
      assert (a + b)[1..] == a[1..] + b && (a + b)[0] == a[0];
      Lists.Regrouped(if a[0].Field? then [] else [a[0]], Records(a[1..]), Records(b));
    }
  }

  lemma TextsOfOne(text: string)
    ensures Texts([Field(text)]) == [text] && forall n: nat :: Texts([Record(n)]) == []
  {
  }

  lemma {:induction false} TextsOfFields(es: seq<Event>)
    requires AllFields(es)
    ensures FieldEvents(Texts(es)) == es && Records(es) == []
  {
    if es != [] {
      TextsOfFields(es[1..]);
      assert es == [es[0]] + es[1..];
    }
  }

  /** What is known of the text of an unfinished field: quotes inside a quoted field come in
      adjacent pairs, and the flag is raised as soon as there is one such pair. */
  predicate WellScanned(mode: Mode, hasDquote: bool, raw: string)
  {
    match mode
    case StartedSimple => !hasDquote
    case StartedDquote => Paired(raw) && (hasDquote <==> '"' in raw)
    case FoundDquote =>
      |raw| > 0 && raw[|raw| - 1] == '"' && Paired(raw[..|raw| - 1])
      && (hasDquote <==> '"' in raw[..|raw| - 1])
    case _ => true
  }

  lemma SimpleScanned(hasDquote: bool, raw: string, raw': string)
    ensures WellScanned(StartedSimple, hasDquote, raw) == WellScanned(StartedSimple, hasDquote, raw')
  {
  }

  lemma NoQuotes()
    ensures Paired("")
  {
  }

  lemma WellScannedStep(s: Scan, hasDquote: bool, c: char)
    requires IsQuoted(s.mode) && WellScanned(s.mode, hasDquote, s.raw) && !Ends(s, c)
    ensures var t := Continued(s, c);
            WellScanned(t.mode, hasDquote || s.mode == FoundDquote, t.raw) && IsQuoted(t.mode)
  {
    if s.mode == FoundDquote {
      var r := s.raw[..|s.raw| - 1];
      assert s.raw + [c] == r + ['"', '"'];
      PairedAppend(r, c);
    } else if c == '"' {
      assert (s.raw + [c])[..|s.raw|] == s.raw;
    } else {
      PairedAppend(s.raw, c);
    }
  }

  /** Where the text of a finished field lies: without its closing quote if it had one. */
  lemma FieldTextInBuffer(end: Scan, hasDquote: bool, buf: string, start: nat, length: int)
    requires end.MidField() && end.mode != StartedDquote && WellScanned(end.mode, hasDquote, end.raw)
    requires length == |end.raw| - (if end.mode == FoundDquote then 1 else 0)
    requires start + |end.raw| <= |buf| && end.raw == buf[start..start + |end.raw|]
    ensures 0 <= length
    ensures var f := buf[start..start + length];
            && (hasDquote ==> Paired(f))
            && FieldText(end) == if hasDquote then Unescape(f) else f
  {
    var f := buf[start..start + length];
    assert f == buf[start..start + |end.raw|][..length] == end.raw[..length];
    if !hasDquote && end.mode == FoundDquote { UnescapeNoQuote(f); }
  }

  lemma Resliced(a: string, b: string, i: nat)
    requires i <= |a|
    ensures (a + b)[i..] == a[i..] + b && b[0..] == b
  {
  }

  /** A field that ended at `i` in a buffer whose part from `base` on is the caller's data. */
  lemma FieldEnds(s: Scan, data: string, end: Scan, buf: string, base: nat, i: nat)
    requires base <= i < |buf| && buf[base..] == data && Trace(s, data) == Trace(end, buf[i..])
    requires end.MidField() && Ends(end, buf[i]) && end.count == s.count
    ensures i - base < |data|
    ensures Trace(s, data) == Prepend([Field(FieldText(end))], Trace(Completed(s), data[i - base..]))
  {
    hide Trace, FieldText;
    assert buf[i..] == data[i - base..];
    TraceEnds(end, buf[i..]);
  }

  lemma Adjacent(s: string, i: nat, j: nat, k: nat)
    requires i <= j <= k <= |s|
    ensures s[i..j] + s[j..k] == s[i..k]
  {
  }

  lemma ToTheEnd(s: string, i: nat)
    requires i <= |s|
    ensures s[|s|..] == "" && s[i..|s|] == s[i..]
  {
  }

  lemma Rejoined(s: string, i: nat, j: nat)
    requires i <= j <= |s|
    ensures s[i..j] + s[j..] == s[i..] && "" + s == s && "" + s[i..] == s[i..]
  {
  }

  /** The copy loop of the callback: each doubled quote of the field is copied once, and a NUL follows. */
  method Collapse(dst: array<char>, field: string) returns (n: nat)
    requires Paired(field) && |field| < dst.Length
    modifies dst
    ensures n < dst.Length && dst[..n] == Unescape(field)
  {
    hide Unescape, Paired;
    var i := 0;
    n := 0;
    ghost var copied := "";
    assert field[0..] == field && "" + Unescape(field) == Unescape(field);
    while i < |field|
      invariant n <= i <= |field| && Paired(field[i..])
      invariant Unescape(field) == copied + Unescape(field[i..]) && dst[..n] == copied
    {
      ghost var q := if field[i] == '"' then 1 else 0;
      UnescapeStep(field[i..], q);
      Lists.Regrouped(copied, [field[i..][q]], Unescape(field[i..][q + 1..]));
      assert field[i..][q + 1..] == field[i + q + 1..];
      if field[i] == '"' {
        i := i + 1;
      }
      dst[n] := field[i];
      copied := copied + [field[i]];
      n, i := n + 1, i + 1;
    }
    assert field[i..] == "";
    UnescapeNoQuote("");
    dst[n] := '\0';
    assert dst[..n] == copied == copied + "";
  }

  class Reader {
    const hasCallback: bool
    var buffered: string
    var escape: array<char>      // one cell more than the usable size, for the final NUL
    var offset: nat
    var start: nat
    var length: int              // only meaningful when a callback is set
    var fieldCount: nat
    var mode: Mode
    var fieldParsed: bool
    var hasDquote: bool
    var calls: seq<string>       // the fields handed to the callback, in order
    ghost var log: seq<Event>    // all fields and record ends so far

    ghost function View(): Scan
      reads this
    {
      Scan(mode, if InField() && start <= |buffered| then buffered[start..] else "", fieldParsed, fieldCount)
    }

    /** The fields seen so far are the ones that were handed to the callback. */
    ghost predicate Logged() reads this { calls == if hasCallback then Texts(log) else [] }

    /** Everything that has been and, if `rest` comes next, will be observed. */
    ghost function Prospect(rest: string): Outcome
      reads this
    {
      Prepend(log, Trace(View(), rest))
    }

    ghost predicate InField() reads this { mode == StartedSimple || IsQuoted(mode) }

    /** All of the invariant but the offset. */
    ghost predicate Shaped()
      reads this
    {
      && escape.Length > 0
      && (if InField()
          then start <= |buffered| && WellScanned(mode, hasDquote, buffered[start..])
          else buffered == "" && start == 0 && !hasDquote)
    }

    /** Between calls the offset is the length of the buffer in the middle of a field when a
        callback is set, and zero in every other case. */
    ghost predicate Valid()
      reads this
    {
      Shaped() && offset == if InField() && hasCallback then |buffered| else 0
    }

    constructor (hasCallback: bool)
      ensures Valid() && View() == INIT && Logged() && log == [] && this.hasCallback == hasCallback
      ensures fresh(escape)
    {
      this.hasCallback := hasCallback;
      buffered, calls, log, fieldCount, mode := "", [], [], 0, Initial;
      escape := new char[1];
      offset, start, length, fieldParsed, hasDquote := 0, 0, 0, false, false;
    }

    method ResetState()
      requires escape.Length > 0
      modifies this`start, this`length, this`hasDquote, this`fieldParsed, this`mode, this`buffered, this`offset
      ensures Valid() && View() == Scan(Initial, "", false, fieldCount)
    {
      start, length, hasDquote, fieldParsed, mode := 0, 0, false, false, Initial;
      buffered, offset := "", 0;
    }

    /** Hands the field to the callback, with doubled quotes collapsed. Because quotes come in
        pairs the copy stays inside the field and inside the escape buffer. */
    method InvokeFieldCallback(buf: string)
      requires escape.Length > 0
      requires Deliverable(buf)
      modifies this`escape, this`calls, escape
      ensures escape.Length > 0 && (escape == old(escape) || fresh(escape))
      ensures calls == old(calls) + [old(Delivered(buf))]
    {
      hide Unescape, Paired;
      if !hasDquote {
        calls := calls + [buf[start..start + length]];
        return;
      }
      if escape.Length - 1 < length {
        escape := new char[escape.Length + length];
      }
      var escpos := Collapse(escape, buf[start..start + length]);
      calls := calls + [escape[..escpos]];
    }

    method ParseSimple(buf: string, ghost raw: string) returns (ret: Status)
      requires mode == StartedSimple && offset <= |buf|
      modifies this`offset, this`length
      ensures old(offset) <= offset <= |buf| && ret != InvalidState
      ensures var s := Scan(mode, raw, fieldParsed, fieldCount);
              var t := s.(raw := raw + buf[old(offset)..offset]);
              Trace(s, buf[old(offset)..]) == Trace(t, buf[offset..])
      ensures ret == Eof ==> offset == |buf|
      ensures ret == Success ==> offset < |buf| && IsTerminator(buf[offset]) && length == offset - start
    {
      hide Trace;
      ghost var s := Scan(mode, raw, fieldParsed, fieldCount);
      ghost var t := s;
      while true
        invariant old(offset) <= offset <= |buf|
        invariant t == s.(raw := raw + buf[old(offset)..offset])
        invariant Trace(s, buf[old(offset)..]) == Trace(t, buf[offset..])
        decreases |buf| - offset
      {
        if offset >= |buf| {
          return Eof;
        }
        var c := buf[offset];
        if c == ',' || c == '\n' || c == '\r' {
          break;
        }
        TraceContinues(t, buf, offset);
        t := Continued(t, c);
        assert t.raw == raw + buf[old(offset)..offset + 1];
        offset := offset + 1;
      }
      length := offset - start;
      return Success;
    }

    method ParseQuoted(buf: string, ghost raw: string) returns (ret: Status)
      requires IsQuoted(mode) && offset <= |buf|
      requires WellScanned(mode, hasDquote, raw)
      modifies this`offset, this`length, this`mode, this`hasDquote
      ensures old(offset) <= offset <= |buf| && ret != InvalidState
      ensures var s := Scan(old(mode), raw, fieldParsed, fieldCount);
              var t := Scan(if ret == Success then FoundDquote else mode,
                            raw + buf[old(offset)..offset], fieldParsed, fieldCount);
              Trace(s, buf[old(offset)..]) == Trace(t, buf[offset..])
              && IsQuoted(t.mode) && WellScanned(t.mode, hasDquote, t.raw)
      ensures ret == Eof ==> offset == |buf|
      ensures ret == Success ==> offset < |buf| && buf[offset] != '"' && length == offset - start - 1
    {
      hide Trace, WellScanned;
      ghost var s := Scan(mode, raw, fieldParsed, fieldCount);
      ghost var t := s;
      while true
        invariant old(offset) <= offset <= |buf| && IsQuoted(mode)
        invariant t == s.(mode := mode, raw := raw + buf[old(offset)..offset])
        invariant WellScanned(mode, hasDquote, t.raw)
        invariant Trace(s, buf[old(offset)..]) == Trace(t, buf[offset..])
        decreases |buf| - offset
      {
        if offset >= |buf| {
          return Eof;
        }
        var c := buf[offset];
        if !Ends(t, c) {
          WellScannedStep(t, hasDquote, c);
          TraceContinues(t, buf, offset);
        }
        if mode == FoundDquote {
          mode := StartedDquote;
          if c == '"' {
            hasDquote := true;
          } else {
            break;
          }
        } else if c == '"' {
          mode := FoundDquote;
        }
        t := Continued(t, c);
        assert t.raw == raw + buf[old(offset)..offset + 1];
        offset := offset + 1;
      }
      length := offset - start - 1;
      return Success;
    }

    /** The text that the callback would get from `buf` now. */
    ghost predicate Deliverable(buf: string)
      reads this
    {
      0 <= length && start + length <= |buf| && (hasDquote ==> Paired(buf[start..start + length]))
    }

    ghost function Delivered(buf: string): string
      requires Deliverable(buf)
      reads this
    {
      if hasDquote then Unescape(buf[start..start + length]) else buf[start..start + length]
    }

    /** Opens a field, or resumes one on the buffer when there is a callback. `s` is the field
        as it was before the characters still to be read, `base` is where `data` begins in `buf`. */
    method OpenField(data: string) returns (buf: string, isBuffered: bool, ghost s: Scan, ghost base: nat)
      requires Valid() && data != ""
      requires InField() || (mode == Initial && !IsTerminator(data[0]))
      modifies this`buffered, this`offset, this`start, this`mode
      ensures s == Scan(mode, s.raw, fieldParsed, fieldCount)
      ensures InField() && WellScanned(mode, hasDquote, s.raw) && escape.Length > 0
      ensures isBuffered == (old(InField()) && hasCallback)
      ensures base <= |buf| && buf[base..] == data && base == old(offset) <= offset <= |buf|
      ensures buffered == if isBuffered then old(buffered) + data else old(buffered)
      ensures if isBuffered then buf == buffered else buf == data
      ensures hasCallback || !old(InField()) ==> start <= offset && s.raw == buf[start..offset]
      ensures !old(InField()) && offset == old(offset) ==> mode == StartedSimple && !IsTerminator(buf[offset])
      ensures var saved := if isBuffered then buffered else buffered + data;
              start <= |saved| && saved[start..] == s.raw + buf[offset..]
      ensures Trace(old(View()), data) == Trace(s, buf[offset..])
    {
      hide Trace, Paired;
      Resliced(buffered, data, start);
      buf, isBuffered, s, base := data, false, View(), 0;
      if mode == Initial {
        assert data[0..] == data;
        if data[offset] == '"' {
          offset := offset + 1;
          mode := StartedDquote;
          TraceQuiet(s, data, s.(mode := StartedDquote));
          NoQuotes();
        } else {
          mode := StartedSimple;
          TraceOpensSimple(s, data);
        }
        start := offset;
        s := s.(mode := mode);
        Rejoined(data, start, start);
      } else if hasCallback {
        base := |buffered|;
        buffered := buffered + data;
        assert buffered[start..base] == old(buffered)[start..];
        assert buffered[base..] == data;
        buf := buffered;
        isBuffered := true;
      } else {
        assert data[0..] == data;
      }
    }

    /** Scans the field with the rule of its kind, from the offset to its end or to the end of `buf`. */
    method ScanField(buf: string, ghost s: Scan) returns (ret: Status, ghost end: Scan)
      requires s == Scan(mode, s.raw, fieldParsed, fieldCount)
      requires InField() && offset <= |buf| && WellScanned(mode, hasDquote, s.raw)
      modifies this`offset, this`length, this`mode, this`hasDquote
      ensures old(offset) <= offset <= |buf| && ret != InvalidState
      ensures end == Scan(end.mode, s.raw + buf[old(offset)..offset], fieldParsed, fieldCount)
      ensures end.MidField() && WellScanned(end.mode, hasDquote, end.raw)
      ensures Trace(s, buf[old(offset)..]) == Trace(end, buf[offset..])
      ensures ret == Eof ==> offset == |buf| && mode == end.mode
      ensures ret == Success ==> offset < |buf| && Ends(end, buf[offset])
      ensures old(mode) == StartedSimple ==> end.mode == StartedSimple
      ensures ret == Success && start <= old(offset) && s.raw == buf[start..old(offset)]
              ==> Deliverable(buf) && Delivered(buf) == FieldText(end)
    {
      hide Trace, Paired, Unescape, FieldText, WellScanned, Deliverable, Delivered;
      ghost var from := offset;
      if mode == StartedSimple {
        ret := ParseSimple(buf, s.raw);
        SimpleScanned(hasDquote, s.raw, s.raw + buf[from..offset]);
        end := Scan(mode, s.raw + buf[from..offset], fieldParsed, fieldCount);
      } else if mode == StartedDquote || mode == FoundDquote {
        ret := ParseQuoted(buf, s.raw);
        end := Scan(if ret == Success then FoundDquote else mode, s.raw + buf[from..offset], fieldParsed, fieldCount);
      } else {
        ret, end := InvalidState, s;
      }
      if ret == Success && start <= from && s.raw == buf[start..from] {
        Adjacent(buf, start, from, offset);
        FieldReady(buf, end);
      }
    }

    /** A field that ended at the offset can be handed to the callback. */
    lemma FieldReady(buf: string, end: Scan)
      requires start <= offset <= |buf| && end.raw == buf[start..offset]
      requires end.MidField() && end.mode != StartedDquote && WellScanned(end.mode, hasDquote, end.raw)
      requires length == |end.raw| - (if end.mode == FoundDquote then 1 else 0)
      ensures Deliverable(buf) && Delivered(buf) == FieldText(end)
    {
      hide Paired, Unescape, FieldText, WellScanned;
      FieldTextInBuffer(end, hasDquote, buf, start, length);
    }

    /** Reads one field, or as much of it as there is. `text` is the field when it ended. */
    method ParseField(data: string) returns (ret: Status, ghost text: string)
      requires Valid() && data != ""
      requires InField() || (mode == Initial && !IsTerminator(data[0]))
      modifies this`buffered, this`escape, this`offset, this`start, this`length, this`mode,
               this`hasDquote, this`calls, escape
      ensures escape.Length > 0 && (escape == old(escape) || fresh(escape))
      ensures old(offset) <= offset && ret != InvalidState
      ensures ret == Eof ==>
        && Shaped() && InField() && offset == old(offset) + |data|
        && (hasCallback ==> offset == |buffered|) && calls == old(calls)
        && Trace(old(View()), data) == Outcome([], View())
      ensures ret == Success ==>
        && offset - old(offset) < |data|
        && (!old(InField()) ==> offset > old(offset))
        && calls == (if hasCallback then old(calls) + [text] else old(calls))
        && Trace(old(View()), data)
           == Prepend([Field(text)], Trace(Completed(old(View())), data[offset - old(offset)..]))
    {
      hide Trace, Paired, WellScanned, Unescape, FieldText, Deliverable, Delivered, Completed, Prepend;
      ghost var s, end, base;
      var buf, isBuffered;
      buf, isBuffered, s, base := OpenField(data);
      ghost var from := offset;
      ret, end := ScanField(buf, s);
      text := FieldText(end);
      if ret != Success {
        if !isBuffered && ret == Eof {
          buffered := buffered + data;
        }
        ToTheEnd(buf, from);
        TraceNothing(end);
        return;
      }
      FieldEnds(old(View()), data, end, buf, base, offset);
      if hasCallback {
        InvokeFieldCallback(buf);
      }
    }

    /** The callback for a field that has no characters, unless a field was just parsed. */
    method CountEmptyField()
      requires Logged()
      modifies this`fieldCount, this`calls, this`log
      ensures Logged() && var (t, es) := EmptyField(old(View())); View() == t && log == old(log) + es
    {
      hide Texts;
      if !fieldParsed {
        fieldCount := fieldCount + 1;
        if hasCallback {
          calls := calls + [""];
        }
        TextsConcat(log, [Field("")]);
        TextsOfOne("");
        log := log + [Field("")];
      } else {
        assert log + [] == log;
      }
    }

    /** The field part of the record loop: parse, advance, and reset when the field is complete. */
    method AdvanceField(data: string, from: nat) returns (ret: Status, pos: nat)
      requires Valid() && Logged() && from < |data|
      requires InField() || (mode == Initial && !IsTerminator(data[from]))
      modifies this, escape
      ensures Valid() && Logged() && (escape == old(escape) || fresh(escape))
      ensures from <= pos <= |data| && ret != InvalidState
      ensures ret == Eof ==> pos == |data| && log == old(log)
      ensures ret == Success ==> mode == Initial && (pos > from || old(InField()))
      ensures ret == Success ==> exists text :: log == old(log) + [Field(text)]
      ensures Prospect(data[pos..]) == old(Prospect(data[from..]))
    {
      hide Trace, Texts, Paired, Unescape, WellScanned;
      var initialOffset := offset;
      ghost var text;
      ghost var s := View();
      ret, text := ParseField(data[from..]);
      var advanced := offset - initialOffset;
      pos := from + advanced;
      if ret != Success {
        if !hasCallback {
          offset := 0;
        }
        TraceNothing(View());
        assert data[pos..] == "";
        return;
      }
      ghost var rest := data[pos..];
      assert data[from..][advanced..] == rest;
      PrependConcat(log, [Field(text)], Trace(Completed(s), rest));
      CountField(text);
    }

    /** A complete field is counted, and the state is reset for the next one. */
    method CountField(ghost text: string)
      requires escape.Length > 0 && calls == if hasCallback then Texts(log) + [text] else []
      modifies this`start, this`length, this`hasDquote, this`fieldParsed, this`mode, this`buffered, this`offset,
               this`fieldCount, this`log
      ensures Valid() && Logged() && log == old(log) + [Field(text)]
      ensures View() == Scan(Initial, "", true, old(fieldCount) + 1)
    {
      hide Texts;
      ResetState();
      fieldParsed := true;
      fieldCount := fieldCount + 1;
      TextsConcat(log, [Field(text)]);
      TextsOfOne(text);
      log := log + [Field(text)];
    }

    /** The branches of the record loop for the characters between fields. */
    method AdvanceTerminator(data: string, from: nat) returns (ended: bool, pos: nat, ghost es: seq<Event>)
      requires Valid() && Logged() && from < |data|
      requires mode == FoundCr || (mode == Initial && IsTerminator(data[from]))
      modifies this`mode, this`fieldCount, this`fieldParsed, this`calls, this`log
      ensures Valid() && Logged() && !InField() && AllFields(es) && log == old(log) + es
      ensures from <= pos <= |data| && (pos == from ==> ended && old(mode) == FoundCr)
      ensures !ended ==> Prospect(data[pos..]) == old(Prospect(data[from..]))
      ensures ended ==>
        && mode == Initial
        && Prepend(log, Prepend(EndRecord(View()).1, Trace(INIT, data[pos..]))) == old(Prospect(data[from..]))
    {
      hide Trace, Texts;
      ghost var s, rest := View(), data[from..];
      assert rest[1..] == data[from + 1..];
      var c := data[from];
      ended, pos, es := false, from + 1, [];
      if mode == Initial {
        if c == '\r' {
          mode := FoundCr;
          TraceQuiet(s, rest, View());
        } else if c == '\n' {
          TraceEndRecord(s, rest);
          ended := true;
        } else {
          CountEmptyField();
          fieldParsed := false;
          es := EmptyField(s).1;
          TraceComma(s, rest);
          PrependConcat(old(log), es, Trace(View(), data[pos..]));
        }
      } else {
        mode := Initial;
        if c != '\n' {
          pos := from;
        }
        TraceEndRecord(s, rest);
        ended := true;
      }
    }

    /** The record loop: reads fields until the record ends or the data does. Its measure is the
        pair (bytes left, in the middle of a field), since a resumed field may advance by zero. */
    method ReadFields(data: string, from: nat) returns (ended: bool, pos: nat, ghost es: seq<Event>)
      requires Valid() && Logged() && from <= |data|
      modifies this, escape
      ensures Valid() && Logged() && (escape == old(escape) || fresh(escape))
      ensures from <= pos <= |data| && AllFields(es) && log == old(log) + es
      ensures !ended ==> pos == |data| && Prospect(data[pos..]) == old(Prospect(data[from..]))
      ensures ended ==> mode == Initial && (pos == from ==> old(mode) == FoundCr)
      ensures ended ==> Prepend(log, Prepend(EndRecord(View()).1, Trace(INIT, data[pos..])))
                        == old(Prospect(data[from..]))
    {
      hide Trace, Texts, Shaped, Logged;
      pos, es := from, [];
      ghost var goal := Prospect(data[from..]);
      while true
        invariant Valid() && Logged() && (escape == old(escape) || fresh(escape))
        invariant from <= pos <= |data| && AllFields(es) && log == old(log) + es
        invariant Prospect(data[pos..]) == goal
        invariant pos == from ==> mode == old(mode) || (old(InField()) && mode == Initial)
        decreases |data| - pos, InField()
      {
        if pos == |data| {
          return false, pos, es;
        }
        var c := data[pos];
        if mode == FoundCr || (mode == Initial && IsTerminator(c)) {
          ghost var fs;
          ended, pos, fs := AdvanceTerminator(data, pos);
          es := es + fs;
          if ended {
            return true, pos, es;
          }
        } else {
          var ret;
          ghost var before := log;
          ret, pos := AdvanceField(data, pos);
          if ret != Success {
            return false, pos, es;
          }
          ghost var text :| log == before + [Field(text)];
          es := es + [Field(text)];
        }
      }
    }

    /** Reads up to the end of one record (`Success`) or of the data (`Eof`). The events so far,
        followed by what the automaton observes in the rest of the data, do not change. */
    method ParseRecord(data: string, from: nat) returns (ret: Status, pos: nat, count: nat)
      requires Valid() && Logged() && from <= |data|
      modifies this, escape
      ensures Valid() && Logged() && (escape == old(escape) || fresh(escape))
      ensures from <= pos <= |data| && ret != InvalidState
      ensures Prospect(data[pos..]) == old(Prospect(data[from..]))
      ensures ret == Eof ==> pos == |data| && exists es :: AllFields(es) && log == old(log) + es
      ensures ret == Success ==> View() == INIT && (pos == from ==> old(mode) == FoundCr)
      ensures ret == Success ==> exists es :: AllFields(es) && log == old(log) + es + [Record(count)]
    {
      hide Trace, Texts;
      count := 0;
      var ended;
      ghost var es;
      ended, pos, es := ReadFields(data, from);
      if !ended {
        return Eof, pos, 0;
      }
      ghost var s, before := View(), log;
      CountEmptyField();
      fieldParsed := false;
      count := fieldCount;
      fieldCount := 0;
      TextsConcat(log, [Record(count)]);
      TextsOfOne("");
      log := log + [Record(count)];
      es := es + EmptyField(s).1;
      assert log == old(log) + es + [Record(count)];
      assert log == before + EndRecord(s).1;
      PrependConcat(before, EndRecord(s).1, Trace(INIT, data[pos..]));
      ret := Success;
    }
  }
}
