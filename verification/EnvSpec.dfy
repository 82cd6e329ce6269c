/** Substitution of `${name}` in configuration values, and what it means for templates. */
module EnvSpec {
  import opened CString

  const NAME_SIZE: nat := 4096

  /** What follows the closing brace that was looked at last, if there was one. */
  datatype After = NoEnd | Rest(text: string)

  datatype Walked = Walked(out: string, after: After, found: bool)

  /** The loop of the translation on the rest `s` of the value; `get` looks names up, unset ones
      being empty. */
  function Walk(s: string, get: string -> string, after: After, found: bool): (w: Walked)
    decreases |s|
  {
    if s == "" then Walked("", after, found)
    else
      var start := StrStr(s, "${");
      if start < 0 then Walked("", after, found)
      else
        var end := StrStr(s, "}");
        if end < 0 then Walked("", NoEnd, found)
        else
          var more := s[end + 1..];
          var length := end - (start + 2);
          if length <= 0 || length >= NAME_SIZE then Walked("", Rest(more), found)
          else
            var w := Walk(more, get, Rest(more), true);
            w.(out := s[..start] + get(s[start + 2..end]) + w.out)
  }

  /** What is copied after the last variable. */
  function Remaining(w: Walked): string { if w.found && w.after.Rest? then w.after.text else "" }

  function Translate(value: string, get: string -> string): (r: string)
  {
    var w := Walk(value, get, NoEnd, false);
    var buf := w.out + Remaining(w);
    if buf == "" && !w.found then value else buf
  }

  function Prefixed(out: string, w: Walked): Walked { w.(out := out + w.out) }

  /** One round of the loop that replaces a variable. */
  lemma Replaced(buf: string, value: string, i: nat, get: string -> string, after: After, found: bool)
    requires i < |value|
    requires var s := value[i..]; StrStr(s, "${") >= 0 && 0 < StrStr(s, "}") - StrStr(s, "${") - 2 < NAME_SIZE
    ensures var s := value[i..];
      var start, end := StrStr(s, "${"), StrStr(s, "}");
      var more := value[i + end + 1..];
      Prefixed(buf, Walk(s, get, after, found))
      == Prefixed(buf + s[..start] + get(s[start + 2..end]), Walk(more, get, Rest(more), true))
  {
    hide StrStr;
    var s := value[i..];
    var start, end := StrStr(s, "${"), StrStr(s, "}");
    assert s[end + 1..] == value[i + end + 1..];
    var w := Walk(s[end + 1..], get, Rest(s[end + 1..]), true);
    assert buf + (s[..start] + get(s[start + 2..end]) + w.out) == buf + s[..start] + get(s[start + 2..end]) + w.out;
  }

  /** The round that ends the loop. */
  lemma Stopped(buf: string, s: string, get: string -> string, after: After, found: bool)
    requires s == "" || StrStr(s, "${") < 0 || Stops(s)
    ensures var end := StrStr(s, "}");
      var last := if s == "" || StrStr(s, "${") < 0 then after else if end < 0 then NoEnd else Rest(s[end + 1..]);
      Prefixed(buf, Walk(s, get, after, found)) == Walked(buf, last, found)
  {
    hide StrStr;
  }

  // ----- templates

  /** A literal followed by a variable. */
  datatype Part = Part(literal: string, name: string)

  predicate HasVariable(s: string) { exists k: nat {:trigger s[k..]} :: k <= |s| && "${" <= s[k..] }

  predicate Plain(s: string) { NUL !in s && !HasVariable(s) }

  predicate GoodPart(p: Part)
  {
    Plain(p.literal) && '}' !in p.literal && 0 < |p.name| < NAME_SIZE && '}' !in p.name && NUL !in p.name
  }

  predicate GoodParts(ps: seq<Part>) { forall p <- ps :: GoodPart(p) }

  function Text(ps: seq<Part>, tail: string): string
  {
    if ps == [] then tail else ps[0].literal + "${" + ps[0].name + "}" + Text(ps[1..], tail)
  }

  function Substituted(ps: seq<Part>, get: string -> string): string
  {
    if ps == [] then "" else ps[0].literal + get(ps[0].name) + Substituted(ps[1..], get)
  }

  /** The variable is found right after a literal that has none, even one that ends in a dollar. */
  lemma VariableFound(literal: string, more: string)
    requires Plain(literal)
    ensures StrStr(literal + "${" + more, "${") == |literal|
  {
    var s := literal + "${" + more;
    assert s[|literal|..] == "${" + more && s[..|literal|] == literal;
    forall k: nat {:trigger s[k..]} | k < |literal| ensures !("${" <= s[k..]) {
      assert s[k..][1] == if k + 1 < |literal| then literal[k..][1] else '$';
    }
    FoundAt(s, "${", |literal|);
  }

  lemma NoVariable(s: string)
    requires !HasVariable(s)
    ensures StrStr(s, "${") == -1
  {
    NotFound(s, "${");
  }

  lemma WalkPart(p: Part, more: string, get: string -> string, after: After, found: bool)
    requires GoodPart(p)
    ensures var s := p.literal + "${" + p.name + "}" + more;
      var w := Walk(more, get, Rest(more), true);
      Walk(s, get, after, found) == w.(out := p.literal + get(p.name) + w.out)
  {
    hide StrStr, HasVariable;
    var s := p.literal + "${" + p.name + "}" + more;
    var front := p.literal + "${" + p.name;
    assert s == p.literal + "${" + (p.name + "}" + more);
    VariableFound(p.literal, p.name + "}" + more);
    assert s == front + "}" + more;
    FoundAfter(front, "}", more);
    assert s[..|p.literal|] == p.literal && s[|front| + 1..] == more;
    assert s[|p.literal| + 2..|front|] == p.name;
  }

  lemma WalkTail(tail: string, get: string -> string, after: After, found: bool)
    requires Plain(tail)
    ensures Walk(tail, get, after, found) == Walked("", after, found)
  {
    hide StrStr, HasVariable;
    NoVariable(tail);
  }

  /** Whatever follows the variables of a template is walked after them. */
  lemma {:induction false} WalkParts(ps: seq<Part>, tail: string, get: string -> string, after: After, found: bool)
    requires GoodParts(ps) && ps != []
    ensures var w := Walk(tail, get, Rest(tail), true);
      Walk(Text(ps, tail), get, after, found) == w.(out := Substituted(ps, get) + w.out)
    decreases |ps|
  {
    hide Walk, GoodPart, Plain;
    var more := Text(ps[1..], tail);
    WalkPart(ps[0], more, get, after, found);
    if |ps| == 1 {
      assert ps[1..] == [] && Substituted(ps[1..], get) == "";
    } else {
      WalkParts(ps[1..], tail, get, Rest(more), true);
    }
  }

  /** A template translates to its literals and the values of its variables; without a variable
      the text stays as it is. The tail may contain closing braces. */
  lemma TemplateTranslated(ps: seq<Part>, tail: string, get: string -> string)
    requires GoodParts(ps) && Plain(tail)
    ensures Translate(Text(ps, tail), get) == Substituted(ps, get) + tail
  {
    hide Walk, GoodParts, Plain, StrStr, HasVariable;
    if ps == [] {
      WalkTail(tail, get, NoEnd, false);
      assert Substituted(ps, get) + tail == tail;
    } else {
      WalkTail(tail, get, Rest(tail), true);
      WalkParts(ps, tail, get, NoEnd, false);
    }
  }

  /** The walk stops at the first `${` of the text: it is not closed, or a closing brace comes before
      the end of a name, or the name is empty or too long. */
  predicate Stops(s: string)
  {
    var start, end := StrStr(s, "${"), StrStr(s, "}");
    start >= 0 && (end < 0 || end - start - 2 <= 0 || end - start - 2 >= NAME_SIZE)
  }

  /** Once a variable was replaced, a `${` where the walk stops loses text: all of the tail if it has
      no closing brace, and otherwise everything up to its first one. */
  lemma TailLost(ps: seq<Part>, tail: string, get: string -> string)
    requires GoodParts(ps) && ps != [] && Stops(tail)
    ensures var end := StrStr(tail, "}");
      Translate(Text(ps, tail), get) == Substituted(ps, get) + if end < 0 then "" else tail[end + 1..]
  {
    hide StrStr;
    var end := StrStr(tail, "}");
    assert Walk(tail, get, Rest(tail), true) == Walked("", if end < 0 then NoEnd else Rest(tail[end + 1..]), true);
    hide Walk, GoodParts;
    WalkParts(ps, tail, get, NoEnd, false);
  }

  /** A text changes only if its first `${` and its first `}` enclose a name of a length that fits. */
  lemma Unchanged(value: string, get: string -> string)
    ensures var start, end := StrStr(value, "${"), StrStr(value, "}");
      !(start >= 0 && end >= 0 && 0 < end - start - 2 < NAME_SIZE) ==> Translate(value, get) == value
  {
    hide StrStr;
  }

  /** One variable after any literal: it is replaced if and only if the literal has no closing brace;
      otherwise the text stays as it is. */
  lemma BraceInLiteral(literal: string, name: string, tail: string, get: string -> string)
    requires Plain(literal) && Plain(tail) && 0 < |name| < NAME_SIZE && '}' !in name && NUL !in name
    ensures Translate(literal + "${" + name + "}" + tail, get)
         == if '}' in literal then literal + "${" + name + "}" + tail else literal + get(name) + tail
  {
    hide Translate, Plain;
    if '}' in literal {
      BraceFirst(literal, name + "}" + tail, get);
      assert literal + "${" + name + "}" + tail == literal + "${" + (name + "}" + tail);
    } else {
      OneVariable(literal, name, tail, get);
    }
  }

  /** A text whose first closing brace comes before its first variable stays as it is. */
  lemma BraceFirst(literal: string, more: string, get: string -> string)
    requires Plain(literal) && '}' in literal
    ensures Translate(literal + "${" + more, get) == literal + "${" + more
  {
    hide Translate, StrStr, HasVariable;
    var s := literal + "${" + more;
    VariableFound(literal, more);
    EarlyBrace(literal, "${" + more);
    assert s == literal + ("${" + more);
    Unchanged(s, get);
  }

  lemma OneVariable(literal: string, name: string, tail: string, get: string -> string)
    requires GoodPart(Part(literal, name)) && Plain(tail)
    ensures Translate(literal + "${" + name + "}" + tail, get) == literal + get(name) + tail
  {
    hide Translate, GoodPart, Plain;
    var ps := [Part(literal, name)];
    assert ps[1..] == [] && ps[0] == Part(literal, name);
    TemplateTranslated(ps, tail, get);
    assert Text(ps, tail) == literal + "${" + name + "}" + tail;
    assert Substituted(ps, get) == literal + get(name) + "";
  }

  lemma EarlyBrace(literal: string, more: string)
    requires '}' in literal
    ensures StrStr(literal + more, "}") < |literal|
    decreases |literal|
  {
    var s := literal + more;
    if literal[0] != '}' {
      assert s[1..] == literal[1..] + more && s[0] == literal[0];
      EarlyBrace(literal[1..], more);
    } else {
      assert "}" <= s;
    }
  }
}
