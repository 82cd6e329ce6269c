/** Header lines that are not written as the printer writes them: spaces around names and values, long lengths. */
module Http1Loose {
  import opened CString
  import opened Options
  import opened Http1Headers

  predicate Spaces(s: string) { forall i :: 0 <= i < |s| ==> s[i] == ' ' }

  lemma {:induction false} LeadingCounted(spaces: string, a: string)
    requires Spaces(spaces) && (a == "" || a[0] != ' ')
    ensures LeadingSpaces(spaces + a) == |spaces| && (spaces + a)[|spaces|..] == a
  {
    if spaces == "" {
      assert spaces + a == a;
    } else {
      assert (spaces + a)[1..] == spaces[1..] + a;
      LeadingCounted(spaces[1..], a);
    }
  }

  lemma {:induction false} TrailingCut(text: string, spaces: string)
    requires Spaces(spaces) && text != "" && text[|text| - 1] != ' '
    ensures TrimmedLength(text + spaces) == |text|
  {
    if spaces == "" {
      assert text + spaces == text;
    } else {
      var s := text + spaces;
      assert s[..|s| - 1] == text + spaces[..|spaces| - 1];
      TrailingCut(text, spaces[..|spaces| - 1]);
    }
  }

  /** A term is found without the spaces around it. */
  lemma LooseTerm(before: string, text: string, after: string, delimiter: char, rest: string)
    requires Spaces(before) && Spaces(after) && Bare(text) && delimiter !in text && delimiter != ' '
    ensures Term1(before + (text + after + [delimiter] + rest), delimiter)
         == Some(Term(text + after + [delimiter] + rest, |text|, rest))
  {
    hide StrStr, LeadingSpaces, TrimmedLength;
    var a := text + after + [delimiter] + rest;
    assert a[0] == text[0] && text[0] in text;
    LeadingCounted(before, a);
    TrailingCut(text, after);
    assert delimiter !in text + after && NUL !in text + after;
    FoundAfter(text + after, [delimiter], rest);
    assert a[..|text + after|] == text + after && a[|text + after| + 1..] == rest;
  }

  /** Any number of spaces around the name and around the value changes nothing. */
  lemma LooseHeader(h: Header, a: string, b: string, c: string, d: string, more: string)
    requires WellFormed(h) && PlainLength(h) && Spaces(a) && Spaces(b) && Spaces(c) && Spaces(d)
    ensures Parse(a + (h.name + b + ":" + (c + (h.value + d + "\r" + ("\n" + more))))) == Parse(PrintHeader(h) + more)
  {
    hide Term1, Numeral, DeclaredLength, Parse;
    var tail := h.value + d + "\r" + ("\n" + more);
    var s := a + (h.name + b + ":" + (c + tail));
    LooseTerm(a, h.name, b, ':', c + tail);
    LooseTerm(c, h.value, d, '\r', "\n" + more);
    NotBlank(a, h.name, b + ":" + (c + tail));
    assert h.name + b + ":" + (c + tail) == h.name + (b + ":" + (c + tail));
    HeaderReadBack(h, more);
    if IsContentLength(h.name) { LooseLength(h.value, d, "\n" + more); }
    LooseParse(s, h, h.name + b + ":" + (c + tail), c + tail, tail, more);
  }

  lemma NotBlank(a: string, name: string, more: string)
    requires Spaces(a) && Bare(name)
    ensures var s := a + (name + more); s != "" && s[0] != '\r'
  {
    var s := a + (name + more);
    assert s[0] == if a != "" then a[0] else name[0];
    assert name[0] in name;
  }

  lemma LooseParse(s: string, h: Header, start: string, middle: string, tail: string, more: string)
    requires s != "" && s[0] != '\r' && WellFormed(h)
    requires |h.name| < |start| && start[..|h.name|] == h.name && Term1(s, ':') == Some(Term(start, |h.name|, middle))
    requires |h.value| < |tail| && tail[..|h.value|] == h.value
    requires Term1(middle, '\r') == Some(Term(tail, |h.value|, "\n" + more))
    requires IsContentLength(h.name) ==> DeclaredLength(Term(tail, |h.value|, "\n" + more)) == Numeral(h.value, 10, 0)
    ensures Parse(s) ==
      var p := Parse(more);
      Parsed(p.ok, [h] + p.headers, if p.declared.Some? || !IsContentLength(h.name) then p.declared
                                    else Some(Numeral(h.value, 10, 0)))
  {
    hide Term1, Numeral, DeclaredLength, IsContentLength;
    assert ("\n" + more)[1..] == more;
  }

  lemma LooseLength(value: string, spaces: string, more: string)
    requires value != "" && |value| <= 20 && AllDigits(value, 10) && Numeral(value, 10, 0) <= ULLONG_MAX
    requires Spaces(spaces)
    ensures DeclaredLength(Term(value + spaces + "\r" + more, |value|, more)) == Numeral(value, 10, 0)
  {
    hide ReadNumber, Numeral;
    var a := value + spaces + "\r" + more;
    var c := a[|value|];
    assert c == if spaces == "" then '\r' else ' ';
    var text := a[..if |value| + 1 < 20 then |value| + 1 else 20];
    if |value| + 1 <= 20 {
      assert text == value + [c];
      ReadNumeral(value, [c], 10);
    } else {
      assert text == value + "";
      ReadNumeral(value, "", 10);
    }
  }

  /** Of a length with more than twenty figures the first twenty are read. */
  lemma LongLength(value: string, more: string)
    requires |value| > 20 && AllDigits(value, 10)
    ensures var n := Numeral(value[..20], 10, 0);
      DeclaredLength(Term(value + "\r" + more, |value|, more)) == if n > ULLONG_MAX then ULLONG_MAX else n
  {
    hide ReadNumber, Numeral;
    var a := value + "\r" + more;
    assert a[..20] == value[..20] + "";
    ReadNumeral(value[..20], "", 10);
  }
}
