/**
  The header printer and the header parser of the HTTP/1 client (section 5 of RFC 9112). Text is
  a C string; a parse position is the rest of the text. Reads beyond the end see the NUL there.
 */
module Http1Headers {
  import opened Options
  import opened CString

  datatype Header = Header(name: string, value: string)

  /** A term starts at `start`, has `length` characters, and `rest` follows its delimiter. */
  datatype Term = Term(start: string, length: nat, rest: string)

  /** Whether the block was parsed to its end, the headers handed to the store in order, and the
      length declared by the last Content-Length header. A malformed line ends the parse; what came
      before it has been stored. */
  datatype Parsed = Parsed(ok: bool, headers: seq<Header>, declared: Option<nat>)

  const NOTHING := Parsed(true, [], None)
  const MALFORMED := Parsed(false, [], None)

  function LeadingSpaces(s: string): (n: nat)
    ensures n <= |s|
  {
    if s != "" && s[0] == ' ' then 1 + LeadingSpaces(s[1..]) else 0
  }

  /** The length that remains when trailing spaces are cut off. */
  function TrimmedLength(s: string): (n: nat)
    ensures n <= |s|
  {
    if s != "" && s[|s| - 1] == ' ' then TrimmedLength(s[..|s| - 1]) else |s|
  }

  function Term1(s: string, delimiter: char): (t: Option<Term>)
    ensures t.Some? ==> |t.value.rest| < |s| && t.value.length < |t.value.start| <= |s| && t.value.start[0] != NUL
  {
    var a := s[LeadingSpaces(s)..];
    if a == "" || a[0] == NUL then None
    else
      var d := StrChr(a, delimiter);
      if d < 0 then None else Some(Term(a, TrimmedLength(a[..d]), a[d + 1..]))
  }

  /** The text of a term as the header store takes it: a zero length means "up to the NUL". */
  function NameOf(t: Term): (name: string)
    requires t.length < |t.start|
    ensures t.start[0] != NUL ==> name != ""
  {
    if t.length == 0 then CStr(t.start) else t.start[..t.length]
  }

  function ValueOf(t: Term): (value: string)
    requires t.length < |t.start|
    ensures value != ""
  {
    if t.length == 0 then (if t.start[0] == NUL then [NUL] else CStr(t.start)) else t.start[..t.length]
  }

  /** `strtoull` on the first 20 characters of the value and the character after it. */
  function DeclaredLength(t: Term): nat
    requires t.length < |t.start|
  {
    StrToUll(t.start[..if t.length + 1 < 20 then t.length + 1 else 20])
  }

  function StrToUll(s: string): nat
  {
    var n := ReadNumber(s, 10);
    if n.magnitude > ULLONG_MAX then ULLONG_MAX
    else if n.negative && n.magnitude > 0 then ULLONG_MAX + 1 - n.magnitude
    else n.magnitude
  }

  predicate IsContentLength(name: string) { Lower(name) == "content-length" }

  /** The parser of a header block, up to the line that begins with a carriage return. */
  function Parse(s: string): (p: Parsed)
    decreases |s|
  {
    if s != "" && s[0] == '\r' then NOTHING
    else
      var n := Term1(s, ':');
      if n.None? then MALFORMED
      else
        var v := Term1(n.value.rest, '\r');
        if v.None? then MALFORMED
        else
          var rest := if v.value.rest == "" then "" else v.value.rest[1..];
          Prefixed(NameOf(n.value), v.value, Parse(rest))
  }

  function Prefixed(name: string, v: Term, p: Parsed): Parsed
    requires v.length < |v.start|
  {
    Parsed(p.ok, [Header(name, ValueOf(v))] + p.headers,
           if p.declared.Some? || !IsContentLength(name) then p.declared else Some(DeclaredLength(v)))
  }

  ghost predicate Named(hs: seq<Header>) { forall i :: 0 <= i < |hs| ==> hs[i].name != "" && hs[i].value != "" }

  /** Whatever the block, no header handed to the store has an empty name or value. */
  lemma {:induction false} ParsedNamed(s: string)
    ensures Named(Parse(s).headers)
    decreases |s|
  {
    hide Term1;
    if !(s != "" && s[0] == '\r') && Term1(s, ':').Some? {
      var v := Term1(Term1(s, ':').value.rest, '\r');
      if v.Some? {
        ParsedNamed(if v.value.rest == "" then "" else v.value.rest[1..]);
      }
    }
  }

  // ----- the loops of the parser

  method SkipSpaces(s: string, from: nat) returns (at: nat)
    requires from <= |s|
    ensures at == from + LeadingSpaces(s[from..])
  {
    at := from;
    while at < |s| && s[at] == ' '
      invariant from <= at <= |s|
      invariant from + LeadingSpaces(s[from..]) == at + LeadingSpaces(s[at..])
    {
      assert s[at..][1..] == s[at + 1..];
      at := at + 1;
    }
  }

  method TrimSpaces(s: string, start: nat, end: nat) returns (length: nat)
    requires start <= end <= |s|
    ensures length == TrimmedLength(s[start..end])
  {
    length := end - start;
    while length > 0 && s[start + length - 1] == ' '
      invariant length <= end - start
      invariant TrimmedLength(s[start..end]) == TrimmedLength(s[start..start + length])
    {
      assert s[start..start + length][..length - 1] == s[start..start + length - 1];
      length := length - 1;
    }
  }

  method ParseTerm(s: string, from: nat, delimiter: char) returns (found: bool, start: nat, length: nat, next: nat)
    requires from <= |s|
    ensures var t := Term1(s[from..], delimiter);
      && found == t.Some?
      && (found ==> start + length < next <= |s| && from <= start && t.value == Term(s[start..], length, s[next..]))
  {
    hide StrStr, LeadingSpaces, TrimmedLength;
    start := SkipSpaces(s, from);
    length, next := 0, from;
    assert s[from..][start - from..] == s[start..];
    if start == |s| || s[start] == NUL {
      return false, start, 0, from;
    }
    var d := StrChr(s[start..], delimiter);
    if d < 0 {
      return false, start, 0, from;
    }
    length := TrimSpaces(s, start, start + d);
    next := start + d + 1;
    assert s[start..][..d] == s[start..start + d] && s[start..][d + 1..] == s[next..];
    return true, start, length, next;
  }

  /** Runs over the header lines, storing each header and the declared content length. */
  method ParseHeaders(s: string) returns (ok: bool, headers: seq<Header>, declared: Option<nat>)
    ensures Parse(s) == Parsed(ok, headers, declared)
  {
    hide Term1, LeadingSpaces, TrimmedLength;
    ok, headers, declared := true, [], None;
    var at := 0;
    assert s[0..] == s;
    while !(at < |s| && s[at] == '\r')
      invariant at <= |s|
      invariant Parse(s) == Following(headers, declared, Parse(s[at..]))
      decreases |s| - at
    {
      var found, start, length, next := ParseTerm(s, at, ':');
      if !found {
        return false, headers, declared;
      }
      var nameStart, nameLength := start, length;
      ghost var nameRest := next;
      found, start, length, next := ParseTerm(s, next, '\r');
      if !found {
        return false, headers, declared;
      }
      var name := NameOf(Term(s[nameStart..], nameLength, ""));
      var value := Term(s[start..], length, s[next..]);
      assert next < |s| ==> s[next..][1..] == s[next + 1..];
      FollowingStep(headers, declared, name, value, Parse(if next == |s| then s[next..] else s[next + 1..]));
      if IsContentLength(name) {
        declared := Some(DeclaredLength(value));
      }
      headers := headers + [Header(name, ValueOf(value))];
      at := if next == |s| then |s| else next + 1;
    }
  }

  /** What was stored, followed by what is parsed later; a later length replaces an earlier one. */
  function Following(headers: seq<Header>, declared: Option<nat>, p: Parsed): Parsed
  {
    Parsed(p.ok, headers + p.headers, if p.declared.Some? then p.declared else declared)
  }

  lemma FollowingStep(headers: seq<Header>, declared: Option<nat>, name: string, v: Term, p: Parsed)
    requires v.length < |v.start|
    ensures Following(headers, declared, Prefixed(name, v, p))
         == Following(headers + [Header(name, ValueOf(v))],
                      if IsContentLength(name) then Some(DeclaredLength(v)) else declared, p)
  {
    assert headers + ([Header(name, ValueOf(v))] + p.headers) == headers + [Header(name, ValueOf(v))] + p.headers;
  }

  // ----- printing

  predicate Bare(s: string)
  {
    s != "" && '\r' !in s && NUL !in s && s[0] != ' ' && s[|s| - 1] != ' '
  }

  /** Names have no colon; names and values are not empty, have no carriage return and no NUL,
      and no space at either end. */
  predicate WellFormed(h: Header) { Bare(h.name) && ':' !in h.name && Bare(h.value) }

  function PrintHeader(h: Header): string { h.name + ": " + h.value + CRLF }

  function Print(hs: seq<Header>): string
  {
    if hs == [] then "" else PrintHeader(hs[0]) + Print(hs[1..])
  }

  /** The length declared by the last Content-Length header of a list, when each is a plain
      decimal numeral of at most twenty digits. */
  function Declared(hs: seq<Header>): Option<nat>
  {
    if hs == [] then None
    else var d := Declared(hs[1..]);
         if d.Some? || !IsContentLength(hs[0].name) then d else Some(Numeral(hs[0].value, 10, 0))
  }

  predicate PlainLength(h: Header)
  {
    IsContentLength(h.name) ==>
      |h.value| <= 20 && AllDigits(h.value, 10) && Numeral(h.value, 10, 0) <= ULLONG_MAX
  }

  lemma TermFound(spaces: string, text: string, delimiter: char, rest: string)
    requires Bare(text) && delimiter !in text && (spaces == "" || spaces == " ")
    ensures Term1(spaces + text + [delimiter] + rest, delimiter)
         == Some(Term(text + [delimiter] + rest, |text|, rest))
  {
    hide StrStr, LeadingSpaces, TrimmedLength;
    var a := text + [delimiter] + rest;
    assert spaces + text + [delimiter] + rest == spaces + a && a[0] == text[0] && a[0] in text;
    SpacesBefore(spaces, a);
    NothingToTrim(text);
    FoundAfter(text, [delimiter], rest);
    assert a[..|text|] == text && a[|text| + 1..] == rest;
  }

  lemma NothingToTrim(text: string)
    requires text != "" && text[|text| - 1] != ' '
    ensures TrimmedLength(text) == |text|
  {
  }

  lemma SpacesBefore(spaces: string, a: string)
    requires (spaces == "" || spaces == " ") && a != "" && a[0] != ' '
    ensures LeadingSpaces(spaces + a) == |spaces| && (spaces + a)[|spaces|..] == a
  {
    if spaces == " " { assert (spaces + a)[1..] == a; } else { assert spaces + a == a; }
  }

  lemma DeclaredAsPrinted(value: string, more: string)
    requires value != "" && |value| <= 20 && AllDigits(value, 10) && Numeral(value, 10, 0) <= ULLONG_MAX
    ensures DeclaredLength(Term(value + "\r" + more, |value|, more)) == Numeral(value, 10, 0)
  {
    var a := value + "\r" + more;
    var text := a[..if |value| + 1 < 20 then |value| + 1 else 20];
    if |value| + 1 <= 20 {
      assert text == value + "\r";
      ReadNumeral(value, "\r", 10);
    } else {
      assert text == value + "";
      ReadNumeral(value, "", 10);
    }
  }

  lemma HeaderReadBack(h: Header, more: string)
    requires WellFormed(h) && PlainLength(h)
    ensures Parse(PrintHeader(h) + more) ==
      var p := Parse(more);
      Parsed(p.ok, [h] + p.headers, if p.declared.Some? || !IsContentLength(h.name) then p.declared
                                    else Some(Numeral(h.value, 10, 0)))
  {
    hide Term1, Numeral, DeclaredLength;
    var s := PrintHeader(h) + more;
    var afterName := " " + h.value + "\r" + ("\n" + more);
    assert s == "" + h.name + [':'] + afterName;
    TermFound("", h.name, ':', afterName);
    TermFound(" ", h.value, '\r', "\n" + more);
    assert ("\n" + more)[1..] == more;
    assert s[0] == h.name[0] && h.name[0] in h.name;
    assert (h.name + [':'] + afterName)[..|h.name|] == h.name;
    assert (h.value + ['\r'] + ("\n" + more))[..|h.value|] == h.value;
    if IsContentLength(h.name) { DeclaredAsPrinted(h.value, "\n" + more); }
  }

  lemma Printed(hs: seq<Header>, tail: string)
    ensures Print(hs) + CRLF + tail
         == if hs == [] then CRLF + tail else PrintHeader(hs[0]) + (Print(hs[1..]) + CRLF + tail)
  {
    hide PrintHeader;
    if hs != [] {
      var a, b := PrintHeader(hs[0]), Print(hs[1..]);
      assert (a + b) + CRLF + tail == a + (b + CRLF + tail);
    }
  }

  /** Parsing printed headers, whatever follows the blank line, gives the same list in order. */
  lemma {:induction false} ReadBack(hs: seq<Header>, tail: string)
    requires forall h <- hs :: WellFormed(h) && PlainLength(h)
    ensures Parse(Print(hs) + CRLF + tail) == Parsed(true, hs, Declared(hs))
  {
    hide Parse, PrintHeader, WellFormed, PlainLength, Numeral, Lower, Print;
    Printed(hs, tail);
    if hs == [] {
      BlankLine(tail);
    } else {
      var more := Print(hs[1..]) + CRLF + tail;
      assert WellFormed(hs[0]) && PlainLength(hs[0]);
      HeaderReadBack(hs[0], more);
      ReadBack(hs[1..], tail);
      assert [hs[0]] + hs[1..] == hs;
    }
  }

  /** As `WellFormed`, but the value may be empty. */
  predicate Printable(h: Header)
  {
    Bare(h.name) && ':' !in h.name && (h.value == "" || Bare(h.value)) && PlainLength(h)
  }

  /** Printed headers come back if and only if no value is empty: the store takes the length zero as "up
      to the NUL", so an empty value turns into everything that follows it. */
  lemma EmptyValues(hs: seq<Header>, tail: string)
    requires forall h <- hs :: Printable(h)
    ensures var p := Parse(Print(hs) + CRLF + tail);
      (p.ok && p.headers == hs <==> forall h <- hs :: h.value != "") && (p.headers == hs ==> p.declared == Declared(hs))
  {
    if forall h <- hs :: h.value != "" {
      ReadBack(hs, tail);
    } else {
      EmptyAmong(hs, tail);
    }
  }

  /** One header with an empty value is enough. */
  lemma {:induction false} EmptyAmong(hs: seq<Header>, tail: string)
    requires (forall h <- hs :: Printable(h)) && exists h <- hs :: h.value == ""
    ensures Parse(Print(hs) + CRLF + tail).headers != hs
  {
    hide Parse, Print, PrintHeader, PlainLength, Declared, Numeral, Lower, Bare;
    Printed(hs, tail);
    var more := Print(hs[1..]) + CRLF + tail;
    assert Printable(hs[0]);
    if hs[0].value == "" {
      EmptyValueStored(hs[0].name, more);
    } else {
      HeaderReadBack(hs[0], more);
      EmptyAmong(hs[1..], tail);
      assert ([hs[0]] + Parse(more).headers)[1..] == Parse(more).headers;
    }
  }

  lemma BlankLine(tail: string)
    ensures Parse(CRLF + tail) == NOTHING
  {
    assert (CRLF + tail)[0] == '\r';
  }

  lemma EmptyValueStored(name: string, more: string)
    requires Bare(name) && ':' !in name
    ensures var p := Parse(PrintHeader(Header(name, "")) + more);
            |p.headers| > 0 && p.headers[0].value != ""
  {
    hide Term1, Parse, CStr, Lower;
    var s, blank := PrintHeader(Header(name, "")) + more, CRLF + more;
    assert s == "" + name + [':'] + (" " + blank);
    assert name + [':'] + (" " + blank) == name + ":" + " " + blank;
    assert s[0] == name[0] && name[0] in name;
    TermFound("", name, ':', " " + blank);
    NoText(blank);
    StoredAsRest(s, name, blank);
  }

  lemma NoText(blank: string)
    requires |blank| > 1 && blank[0] == '\r'
    ensures Term1(" " + blank, '\r') == Some(Term(blank, 0, blank[1..])) && CStr(blank) != ""
  {
    SpacesBefore(" ", blank);
    assert ['\r'] <= blank && blank[..0] == "";
  }

  lemma StoredAsRest(s: string, name: string, blank: string)
    requires s != "" && s[0] != '\r' && |blank| > 1 && name != ""
    requires Term1(s, ':') == Some(Term(name + ":" + " " + blank, |name|, " " + blank))
    requires Term1(" " + blank, '\r') == Some(Term(blank, 0, blank[1..])) && blank[0] != NUL
    ensures |Parse(s).headers| > 0 && Parse(s).headers[0].value == CStr(blank)
  {
    hide Term1, CStr;
  }
}
