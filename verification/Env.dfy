/**
  The environment: variables kept in a hash table with the process environment behind it, and the
  translation loop over a configuration value.
 */
module Env {
  import opened CString
  import opened Options
  import opened EnvSpec
  import S = HashSpec
  import R = HashRuns
  import T = HashTable

  const ENV_SIZE: nat := 64

  /** The C string a stored value stands for; an empty value is stored as a reference to an empty one. */
  function TextOf(v: S.Value): string { if v.Copied? then CStr(v.bytes) else "" }

  /** Looking a name up: the table first, then the process environment, where empty means unset. */
  function Lookup(m: map<string, S.Value>, environ: map<string, string>, name: string): Option<string>
  {
    if name != "" && name in m then Some(TextOf(m[name]))
    else if name in environ && environ[name] != "" then Some(environ[name])
    else None
  }

  /** Names that are not set have no text. */
  function ValueOr(o: Option<string>): string { if o.Some? then o.value else "" }

  function Getter(m: map<string, S.Value>, environ: map<string, string>): string -> string
  {
    name => ValueOr(Lookup(m, environ, name))
  }

  /** The value to store: the file's content less one line end for a `file://` reference, which
      fails if the file cannot be read or is empty; otherwise the text itself. */
  function Resolve(value: string, files: map<string, string>): Option<string>
  {
    if |value| > 7 && "file://" <= value then
      var path := value[7..];
      if path !in files then None
      else
        var content := files[path];
        var n := |content|;
        var kept := if n > 0 && (content[n - 1] == '\n' || content[n - 1] == '\r') then content[..n - 1] else content;
        if kept == "" then None else Some(kept)
    else Some(value)
  }

  function Stored(text: string): S.Value { if text == "" then S.Reference(0) else S.Copied(text) }

  class Environment {
    const table: T.Table
    const environ: map<string, string>

    ghost predicate Valid()
      reads this, table, table.Objects()
    {
      && table.Valid() && table.cfg.caseSensitive && !table.cfg.Bounded() && table.cfg.ttl <= 0
      && S.DistinctKeys(table.cfg, table.View())
    }

    ghost function Variables(): map<string, S.Value>
      reads this, table, table.Objects()
    {
      S.ToMap(table.cfg, table.View())
    }

    constructor (hash: string -> nat, environ: map<string, string>)
      ensures Valid() && Variables() == map[] && this.environ == environ && fresh(table) && table.Objects() == {}
    {
      table := new T.Table(S.Config(ENV_SIZE, S.EvictNone, -1, 0, true, hash));
      this.environ := environ;
    }

    method Get(name: string, now: int) returns (r: Option<string>)
      requires Valid()
      modifies table, table.Objects()
      ensures Valid() && Variables() == old(Variables()) && table.Objects() <= old(table.Objects())
      ensures r == Lookup(Variables(), environ, name)
    {
      hide S.ToMap, S.DistinctKeys, S.Get;
      R.StepRefines(table.cfg, table.View(), R.OpGet(name, now));
      R.StepDistinct(table.cfg, table.View(), R.OpGet(name, now));
      var v := table.Fetch(name, now);
      if v.Some? {
        return Some(TextOf(v.value));
      }
      if name in environ && environ[name] != "" {
        return Some(environ[name]);
      }
      return None;
    }

    /** Setting a variable: a variable that is there is deleted and added again. */
    method Set(name: string, value: string, files: map<string, string>, now: int) returns (id: int)
      requires Valid()
      modifies table, table.Objects()
      ensures Valid() && fresh(table.Objects() - old(table.Objects()))
      ensures var v := Resolve(value, files);
        && (id < 0 <==> v.None? || name == "")
        && Variables() == if id < 0 then old(Variables()) else old(Variables())[name := Stored(v.value)]
    {
      hide S.ToMap, S.DistinctKeys, S.Get, S.Add, S.Del, Resolve, T.Table.View, T.Table.Hashed;
      var v := Resolve(value, files);
      if v.None? {
        return -1;
      }
      R.StepRefines(table.cfg, table.View(), R.OpGet(name, now));
      R.StepDistinct(table.cfg, table.View(), R.OpGet(name, now));
      var found := table.Fetch(name, now);
      if found.Some? {
        R.StepRefines(table.cfg, table.View(), R.OpDel(name));
        R.StepDistinct(table.cfg, table.View(), R.OpDel(name));
        var _ := table.Delete(name);
      }
      R.StepRefines(table.cfg, table.View(), R.OpAdd(name, Stored(v.value), now, 0));
      R.StepDistinct(table.cfg, table.View(), R.OpAdd(name, Stored(v.value), now, 0));
      id := table.Put(name, Stored(v.value), now, 0);
    }

    /** The loop: the text up to the last variable with its variables replaced, the closing brace
        looked at last, or -1, and whether there was a variable. */
    method ReplaceVars(value: string, now: int) returns (buf: string, vEnd: int, haveVar: bool)
      requires Valid() && NUL !in value
      modifies table, table.Objects()
      ensures Valid() && Variables() == old(Variables()) && table.Objects() <= old(table.Objects())
      ensures -1 <= vEnd < |value|
      ensures Walk(value, Getter(Variables(), environ), NoEnd, false) == Walked(buf, AfterOf(value, vEnd), haveVar)
    {
      hide StrStr, Valid, Lookup, Walk, Variables, Prefixed, CStr;
      ghost var m, get := Variables(), Getter(Variables(), environ);
      ghost var goal := Walk(value, get, NoEnd, false);
      var i := 0;
      buf, vEnd, haveVar := "", -1, false;
      assert value[0..] == value;
      Unprefixed(goal);
      while i < |value|
        invariant 0 <= i <= |value| && -1 <= vEnd < |value|
        invariant Valid() && Variables() == m && table.Objects() <= old(table.Objects())
        invariant goal == Prefixed(buf, Walk(value[i..], get, AfterOf(value, vEnd), haveVar))
      {
        var s := value[i..];
        var start := StrStr(s, "${");
        if start < 0 {
          Stopped(buf, s, get, AfterOf(value, vEnd), haveVar);
          return;
        }
        var end := StrStr(s, "}");
        if end < 0 {
          Stopped(buf, s, get, AfterOf(value, vEnd), haveVar);
          vEnd := -1;
          return;
        }
        var length := end - (start + 2);
        if length <= 0 || length >= NAME_SIZE {
          Stopped(buf, s, get, AfterOf(value, vEnd), haveVar);
          vEnd := i + end;
          assert s[end + 1..] == value[vEnd + 1..];
          return;
        }
        Replaced(buf, value, i, get, AfterOf(value, vEnd), haveVar);
        var found := Get(s[start + 2..end], now);
        assert get(s[start + 2..end]) == ValueOr(found);
        buf := buf + s[..start] + ValueOr(found);
        vEnd, haveVar := i + end, true;
        i := vEnd + 1;
      }
      Stopped(buf, value[i..], get, AfterOf(value, vEnd), haveVar);
    }

    /** The value with its variables replaced. */
    method TranslateVars(value: string, now: int) returns (r: string)
      requires Valid() && NUL !in value
      modifies table, table.Objects()
      ensures Valid() && Variables() == old(Variables()) && table.Objects() <= old(table.Objects())
      ensures r == Translate(value, Getter(Variables(), environ))
    {
      var buf, vEnd, haveVar := ReplaceVars(value, now);
      Finished(value, Getter(Variables(), environ), buf, vEnd, haveVar);
      hide *;
      if vEnd >= 0 && haveVar {
        buf := buf + value[vEnd + 1..];
      }
      if buf == "" {
        return if haveVar then "" else value;
      }
      return buf;
    }
  }

  /** What the translation makes of the state at the end of the loop. */
  lemma Finished(value: string, get: string -> string, buf: string, vEnd: int, haveVar: bool)
    requires -1 <= vEnd < |value| && Walk(value, get, NoEnd, false) == Walked(buf, AfterOf(value, vEnd), haveVar)
    ensures var out := if vEnd >= 0 && haveVar then buf + value[vEnd + 1..] else buf;
      Translate(value, get) == if out == "" && !haveVar then value else out
  {
    hide Walk;
    assert buf + "" == buf;
  }

  lemma Unprefixed(w: Walked)
    ensures Prefixed("", w) == w
  {
    assert "" + w.out == w.out;
  }

  function AfterOf(value: string, vEnd: int): After
    requires -1 <= vEnd < |value|
  {
    if vEnd < 0 then NoEnd else Rest(value[vEnd + 1..])
  }
}
