/**
  The headers of a response are kept in a hash table that folds case: a name that comes again
  replaces the value of the first one. Here the table is seen as its list of names and values in the
  order of insertion.
 */
module HeaderStore {
  import opened Options
  import opened CString
  import opened Http1Headers
  import S = HashSpec

  /** Names are put into lower case before they are stored. */
  function Lowered(h: Header): Header { Header(Lower(h.name), h.value) }

  /** Where a stored name is, or -1. */
  function Find(hs: seq<Header>, name: string): (i: int)
    ensures -1 <= i < |hs|
    ensures i >= 0 ==> hs[i].name == name
    ensures i < 0 ==> forall j :: 0 <= j < |hs| ==> hs[j].name != name
  {
    if hs == [] then -1
    else if hs[|hs| - 1].name == name then |hs| - 1
    else Find(hs[..|hs| - 1], name)
  }

  function Lookup(hs: seq<Header>, name: string): Option<string>
  {
    var i := Find(hs, name); if i < 0 then None else Some(hs[i].value)
  }

  function Set(hs: seq<Header>, h: Header): seq<Header>
  {
    var i := Find(hs, h.name); if i < 0 then hs + [h] else hs[i := h]
  }

  /** The store after the headers `hs` have come, one after the other. */
  function SetAll(stored: seq<Header>, hs: seq<Header>): seq<Header>
    decreases |hs|
  {
    if hs == [] then stored else SetAll(Set(stored, Lowered(hs[0])), hs[1..])
  }

  function Merged(hs: seq<Header>): seq<Header> { SetAll([], hs) }

  // ----- what the store holds, said of the list of headers that came

  /** The value of the last header of a name, given in lower case. */
  function LastValue(hs: seq<Header>, name: string): Option<string>
  {
    if hs == [] then None
    else var later := LastValue(hs[1..], name);
         if later.Some? || Lower(hs[0].name) != name then later else Some(hs[0].value)
  }

  /** The place of the first header of a name, or the number of headers. */
  function FirstPlace(hs: seq<Header>, name: string): (i: nat)
    ensures i <= |hs|
  {
    if hs == [] || Lower(hs[0].name) == name then 0 else 1 + FirstPlace(hs[1..], name)
  }

  /** Every header with its name in lower case. */
  function Stored(hs: seq<Header>): (r: seq<Header>)
    ensures |r| == |hs| && forall i :: 0 <= i < |hs| ==> r[i] == Lowered(hs[i])
  {
    seq(|hs|, i requires 0 <= i < |hs| => Lowered(hs[i]))
  }

  ghost predicate Distinct(hs: seq<Header>) { forall i, j :: 0 <= i < j < |hs| ==> hs[i].name != hs[j].name }

  /** No two names agree up to case. */
  ghost predicate NoRepeats(hs: seq<Header>)
  {
    forall i, j :: 0 <= i < j < |hs| ==> Lower(hs[i].name) != Lower(hs[j].name)
  }

  lemma LookupSet(hs: seq<Header>, h: Header, name: string)
    requires Distinct(hs)
    ensures Distinct(Set(hs, h))
    ensures Lookup(Set(hs, h), name) == if name == h.name then Some(h.value) else Lookup(hs, name)
  {
    hide Find;
    var t := Set(hs, h);
    var i, k := Find(hs, name), Find(t, name);
    var at := if name != h.name then i else if i < 0 then |hs| else i;
    if at >= 0 {
      assert t[at].name == name;
      assert k == at;
    }
  }

  /** Looking a name up gives the last value that came for it, or what was there before. */
  lemma {:induction false} LookupAll(stored: seq<Header>, hs: seq<Header>, name: string)
    requires Distinct(stored)
    ensures Distinct(SetAll(stored, hs))
    ensures Lookup(SetAll(stored, hs), name)
         == var v := LastValue(hs, name); if v.Some? then v else Lookup(stored, name)
    decreases |hs|
  {
    if hs != [] {
      hide Lookup, Set, Distinct, Lower;
      LookupSet(stored, Lowered(hs[0]), name);
      LookupAll(Set(stored, Lowered(hs[0])), hs[1..], name);
    }
  }

  /** The store is the last-wins fold of the headers: for every name it has the last value that came,
      and no name twice. */
  lemma LastWins(hs: seq<Header>, name: string)
    ensures Distinct(Merged(hs)) && Lookup(Merged(hs), name) == LastValue(hs, name)
  {
    LookupAll([], hs, name);
  }

  lemma {:induction false} SetAllSnoc(stored: seq<Header>, hs: seq<Header>, h: Header)
    ensures SetAll(stored, hs + [h]) == Set(SetAll(stored, hs), Lowered(h))
    decreases |hs|
  {
    hide Set;
    if hs == [] {
      assert (hs + [h])[1..] == [] && hs + [h] == [h];
    } else {
      assert (hs + [h])[1..] == hs[1..] + [h] && (hs + [h])[0] == hs[0];
      SetAllSnoc(Set(stored, Lowered(hs[0])), hs[1..], h);
    }
  }

  lemma {:induction false} FirstPlaceSnoc(hs: seq<Header>, h: Header, name: string)
    ensures FirstPlace(hs + [h], name)
         == var i := FirstPlace(hs, name); if i == |hs| && Lower(h.name) != name then |hs| + 1 else i
    decreases |hs|
  {
    hide Lower;
    if hs == [] {
      assert hs + [h] == [h];
    } else {
      assert (hs + [h])[1..] == hs[1..] + [h] && (hs + [h])[0] == hs[0];
      FirstPlaceSnoc(hs[1..], h, name);
    }
  }

  /** Names stand in the order in which they first came, and every one of them came. */
  ghost predicate InOrder(hs: seq<Header>, stored: seq<Header>)
  {
    && (forall k :: 0 <= k < |stored| ==> FirstPlace(hs, stored[k].name) < |hs|)
    && (forall k, l :: 0 <= k < l < |stored| ==> FirstPlace(hs, stored[k].name) < FirstPlace(hs, stored[l].name))
  }

  lemma InOrderSet(hs: seq<Header>, h: Header, stored: seq<Header>)
    requires InOrder(hs, stored) && (Find(stored, Lower(h.name)) < 0 ==> FirstPlace(hs, Lower(h.name)) == |hs|)
    ensures InOrder(hs + [h], Set(stored, Lowered(h)))
  {
    hide Find, FirstPlace, Lower;
    var t := Set(stored, Lowered(h));
    forall k | 0 <= k < |t|
      ensures FirstPlace(hs + [h], t[k].name) == if k < |stored| then FirstPlace(hs, stored[k].name) else |hs|
    {
      FirstPlaceSnoc(hs, h, t[k].name);
    }
  }

  lemma {:induction false} FirstOrder(hs: seq<Header>)
    ensures InOrder(hs, Merged(hs))
    decreases |hs|
  {
    if hs != [] {
      hide InOrder, Lookup, Lower, FirstPlace, Merged;
      var front, h := hs[..|hs| - 1], hs[|hs| - 1];
      assert front + [h] == hs;
      FirstOrder(front);
      MergedSnoc(front, h);
      NeverCame(front, Lower(h.name));
      InOrderSet(front, h, Merged(front));
    }
  }

  lemma MergedSnoc(hs: seq<Header>, h: Header)
    ensures Merged(hs + [h]) == Set(Merged(hs), Lowered(h))
  {
    SetAllSnoc([], hs, h);
  }

  /** A name that is not stored has not come. */
  lemma NeverCame(hs: seq<Header>, name: string)
    ensures Find(Merged(hs), name) < 0 ==> FirstPlace(hs, name) == |hs|
  {
    LastWins(hs, name);
    NoValue(hs, name);
  }

  lemma {:induction false} NoValue(hs: seq<Header>, name: string)
    ensures LastValue(hs, name).None? ==> FirstPlace(hs, name) == |hs|
  {
    if hs != [] { NoValue(hs[1..], name); }
  }

  lemma {:induction false} NeverLonger(stored: seq<Header>, hs: seq<Header>)
    ensures |SetAll(stored, hs)| <= |stored| + |hs|
    decreases |hs|
  {
    if hs != [] { NeverLonger(Set(stored, Lowered(hs[0])), hs[1..]); }
  }

  lemma {:induction false} KeptAll(stored: seq<Header>, hs: seq<Header>)
    requires Distinct(stored)
    ensures SetAll(stored, hs) == stored + Stored(hs) <==> Distinct(stored + Stored(hs))
    decreases |hs|
  {
    hide Lower, Find;
    if hs == [] {
      assert stored + Stored(hs) == stored;
    } else {
      var h, all := Lowered(hs[0]), stored + Stored(hs);
      var i := Find(stored, h.name);
      if i < 0 {
        assert stored + [h] + Stored(hs[1..]) == all;
        KeptAll(stored + [h], hs[1..]);
      } else {
        assert all[i].name == all[|stored|].name;
        NeverLonger(Set(stored, h), hs[1..]);
      }
    }
  }

  /** The store is the list of headers that came if and only if no two names agree up to case. */
  lemma MergedIsStored(hs: seq<Header>)
    ensures Merged(hs) == Stored(hs) <==> NoRepeats(hs)
  {
    hide SetAll, Lower;
    KeptAll([], hs);
    assert [] + Stored(hs) == Stored(hs);
    StoredDistinct(hs);
  }

  lemma StoredDistinct(hs: seq<Header>)
    ensures Distinct(Stored(hs)) <==> NoRepeats(hs)
  {
    hide Lower;
    if Distinct(Stored(hs)) {
      forall i, j | 0 <= i < j < |hs| ensures Lower(hs[i].name) != Lower(hs[j].name) {
        assert Stored(hs)[i].name != Stored(hs)[j].name;
      }
    }
  }

  /** Printing headers, parsing them and storing what was parsed: every name has its last value, and
      the list comes back in order if and only if no two names agree up to case. */
  lemma PrintedAndStored(hs: seq<Header>, tail: string, name: string)
    requires forall h <- hs :: WellFormed(h) && PlainLength(h)
    ensures var p := Parse(Print(hs) + CRLF + tail);
      && p.ok && Lookup(Merged(p.headers), name) == LastValue(hs, name)
      && (Merged(p.headers) == Stored(hs) <==> NoRepeats(hs))
  {
    hide Parse, Print, Merged, Lookup, LastValue, WellFormed, PlainLength, NoRepeats;
    ReadBack(hs, tail);
    LastWins(hs, name);
    MergedIsStored(hs);
  }

  /** Two cookies: only the second is kept. */
  lemma TwoCookies()
    ensures Merged([Header("Set-Cookie", "a"), Header("Set-Cookie", "b")]) == [Header("set-cookie", "b")]
  {
    var one, two := Header("Set-Cookie", "a"), Header("Set-Cookie", "b");
    assert Lower("Set-Cookie") == "set-cookie";
    assert [one, two][1..] == [two] && [two][1..] == [];
    assert Set([], Lowered(one)) == [Lowered(one)];
    assert Set([Lowered(one)], Lowered(two)) == [Lowered(two)];
  }

  // ----- the records of the table

  const HEADER_CHAINS: nat := 16

  ghost predicate IsHeaderConfig(cfg: S.Config)
  {
    cfg.size == HEADER_CHAINS && cfg.mode == S.EvictNone && cfg.maxEntries == -1 && cfg.ttl == 0 && !cfg.caseSensitive
  }

  /** Keys are in lower case and values are copies. */
  ghost predicate HeaderRecords(rs: seq<S.Record>)
  {
    forall i :: 0 <= i < |rs| ==> Lower(rs[i].key) == rs[i].key && rs[i].val.Copied?
  }

  ghost function Pairs(rs: seq<S.Record>): (hs: seq<Header>)
    requires HeaderRecords(rs)
    ensures |hs| == |rs| && forall i :: 0 <= i < |rs| ==> hs[i] == Header(rs[i].key, rs[i].val.bytes)
  {
    seq(|rs|, i requires 0 <= i < |rs| => Header(rs[i].key, rs[i].val.bytes))
  }

  lemma LowerTwice(s: string)
    ensures Lower(Lower(s)) == Lower(s)
  {
  }

  lemma {:induction false} SameFind(cfg: S.Config, rs: seq<S.Record>, key: string)
    requires IsHeaderConfig(cfg) && HeaderRecords(rs) && Lower(key) == key
    ensures S.Find(cfg, rs, key) == Find(Pairs(rs), key)
  {
    hide Lower;
    if rs != [] {
      assert Pairs(rs)[..|rs| - 1] == Pairs(rs[..|rs| - 1]);
      SameFind(cfg, rs[..|rs| - 1], key);
    }
  }

  /** Adding to the table is setting in the list, whatever the hash function and the clock. */
  lemma AddSets(cfg: S.Config, rs: seq<S.Record>, name: string, value: string, now: int, random: nat)
    requires IsHeaderConfig(cfg) && HeaderRecords(rs) && name != ""
    ensures var t := S.Add(cfg, rs, Lower(name), S.Copied(value), now, random);
      HeaderRecords(t) && Pairs(t) == Set(Pairs(rs), Header(Lower(name), value))
  {
    hide Lower, Find, S.Find;
    LowerTwice(name);
    SameFind(cfg, rs, Lower(name));
  }

  /** Nothing is stored without a name. */
  lemma AddNameless(cfg: S.Config, rs: seq<S.Record>, value: string, now: int, random: nat)
    ensures S.Add(cfg, rs, Lower(""), S.Copied(value), now, random) == rs
  {
  }

  /** Getting from the table is looking up in the list, and changes nothing there. */
  lemma GetLooksUp(cfg: S.Config, rs: seq<S.Record>, name: string, now: int)
    requires IsHeaderConfig(cfg) && HeaderRecords(rs) && name != ""
    ensures var (t, v) := S.Get(cfg, rs, Lower(name), now);
      && HeaderRecords(t) && Pairs(t) == Pairs(rs)
      && (v.Some? ==> v.value.Copied?)
      && Lookup(Pairs(rs), Lower(name)) == if v.Some? then Some(v.value.bytes) else None
  {
    hide Lower, Find, S.Find;
    LowerTwice(name);
    SameFind(cfg, rs, Lower(name));
  }
}
