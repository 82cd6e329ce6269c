/**
  The environment as its owner sees it: what is set is what is got, the last setting counts, the table goes
  before the process environment, and a `file://` value stands for the content of its file.
 */
module EnvRuns {
  import opened CString
  import opened Options
  import opened Env
  import S = HashSpec

  /** Text that ends with neither a line feed nor a carriage return. */
  predicate Plain(text: string) { text != "" && text[|text| - 1] != '\n' && text[|text| - 1] != '\r' }

  /** A `file://` value is the content of the file named after the prefix, less one line end; it cannot be set
      if the file is not there or nothing is left of it. */
  lemma FileText(path: string, text: string, files: map<string, string>)
    requires path != "" && Plain(text)
    ensures var value := "file://" + path;
      && (path !in files ==> Resolve(value, files) == None)
      && Resolve(value, files[path := text]) == Some(text)
      && Resolve(value, files[path := text + "\n"]) == Some(text)
      && Resolve(value, files[path := text + "\r"]) == Some(text)
      && Resolve(value, files[path := text + "\r\n"]) == Some(text + "\r")
      && Resolve(value, files[path := ""]) == Resolve(value, files[path := "\n"]) == None
      && Resolve(value, files[path := "\r"]) == None
  {
    var value := "file://" + path;
    assert |value| > 7 && "file://" <= value && value[7..] == path;
    assert (text + "\n")[..|text|] == text && (text + "\r")[..|text|] == text;
    assert (text + "\r\n")[..|text| + 1] == text + "\r";
  }

  /** Any other value stands for itself. */
  lemma PlainText(value: string, files: map<string, string>)
    requires !("file://" <= value) || value == "file://"
    ensures Resolve(value, files) == Some(value)
  {
  }

  /** A name that was set has the text it was set to, whatever the process environment says; of a text with a NUL,
      which a file may have, it has what comes before it. No other name is touched. */
  lemma SetThenGet(m: map<string, S.Value>, environ: map<string, string>, name: string, text: string, other: string)
    requires name != ""
    ensures Lookup(m[name := Stored(text)], environ, name) == Some(BeforeNul(text))
    ensures other != name ==> Lookup(m[name := Stored(text)], environ, other) == Lookup(m, environ, other)
  {
    if text != "" { BeforeNulIs(text); }
  }

  /** The text up to its first NUL. */
  ghost function BeforeNul(text: string): string
  {
    if exists i :: 0 <= i < |text| && text[i] == NUL then text[..FirstNul(text)] else text
  }

  ghost function FirstNul(text: string): (i: nat)
    requires exists j :: 0 <= j < |text| && text[j] == NUL
    ensures i < |text| && text[i] == NUL && NUL !in text[..i]
  {
    if text[0] == NUL then 0
    else
      var j :| 0 <= j < |text| && text[j] == NUL;
      assert text[1..][j - 1] == NUL;
      var i := FirstNul(text[1..]);
      assert text[..i + 1] == [text[0]] + text[1..][..i];
      1 + i
  }

  lemma BeforeNulIs(text: string)
    ensures CStr(text) == BeforeNul(text)
  {
    if exists i :: 0 <= i < |text| && text[i] == NUL {
      CutAtNul(text, FirstNul(text));
    } else {
      WholeString(text);
    }
  }

  lemma {:induction false} CutAtNul(s: string, i: nat)
    requires i < |s| && s[i] == NUL && NUL !in s[..i]
    ensures CStr(s) == s[..i]
  {
    if i > 0 {
      assert s[..i][0] == s[0] && s[1..][..i - 1] == s[..i][1..];
      CutAtNul(s[1..], i - 1);
      assert s[..i] == [s[0]] + s[1..][..i - 1];
    }
  }

  lemma {:induction false} WholeString(s: string)
    requires NUL !in s
    ensures CStr(s) == s
  {
    if s != "" {
      assert s[0] in s;
      WholeString(s[1..]);
    }
  }

  /** Without a setting the process environment answers, and there an empty text is none. */
  lemma NeverSet(environ: map<string, string>, name: string)
    ensures name !in environ ==> Lookup(map[], environ, name) == None
    ensures name in environ ==>
      Lookup(map[], environ, name) == if environ[name] == "" then None else Some(environ[name])
  {
  }

  // ----- runs

  datatype Setting = Setting(name: string, value: string)

  /** The text of the last setting of a name that could be made. */
  ghost function LastSet(sets: seq<Setting>, files: map<string, string>, name: string): Option<string>
  {
    if sets == [] then None
    else
      var last := sets[|sets| - 1];
      var text := Resolve(last.value, files);
      if last.name == name && name != "" && text.Some? then Some(BeforeNul(text.value))
      else LastSet(sets[..|sets| - 1], files, name)
  }

  /** The environment object after any settings, asked for any name. */
  method SetAndGet(hash: string -> nat, environ: map<string, string>, files: map<string, string>,
                   sets: seq<Setting>, name: string, now: int) returns (r: Option<string>)
    ensures var last := LastSet(sets, files, name);
      r == if last.Some? then last else if name in environ && environ[name] != "" then Some(environ[name]) else None
  {
    hide Resolve, Lookup, Stored, S.ToMap, BeforeNul;
    var env := new Environment(hash, environ);
    NeverSet(environ, name);
    for i := 0 to |sets|
      invariant fresh(env) && fresh(env.table) && fresh(env.table.Objects()) && env.Valid() && env.environ == environ
      invariant var t := LastSet(sets[..i], files, name);
        Lookup(env.Variables(), environ, name) == if t.Some? then t else Lookup(map[], environ, name)
    {
      var s := sets[i];
      assert sets[..i + 1][..i] == sets[..i] && s in sets;
      ghost var m := env.Variables();
      var id := env.Set(s.name, s.value, files, now);
      if id >= 0 { SetThenGet(m, environ, s.name, Resolve(s.value, files).value, name); }
    }
    assert sets[..|sets|] == sets;
    r := env.Get(name, now);
  }
}
