/**
  The chained hash table. Each operation is proved to do on the insertion-ordered list of records
  what `HashSpec` says, and to keep every entry in its chain and in the list, with exact counters.
 */
module HashTable {
  import opened Lists
  import opened HashSpec
  import opened Options
  import opened HashChains
  import R = HashRuns
  import M = HashModel

  /** An entry has a key and is in the chain of the hash it was stored under. */
  ghost predicate Stored(size: nat, e: Entry) { size > 0 && e.key != "" && e.chain == e.hash % size }

  ghost predicate AllStored(size: nat, entries: seq<Entry>) { forall e :: e in entries ==> Stored(size, e) }

  ghost predicate OnePerKey(cfg: Config, entries: seq<Entry>)
  {
    forall i, j :: 0 <= i < j < |entries| ==> cfg.Fold(entries[i].key) != cfg.Fold(entries[j].key)
  }

  /** Every entry is in the chain of its key as it is folded now, and there is one for each such key. */
  ghost predicate Keyed(cfg: Config, entries: seq<Entry>)
  {
    && cfg.size > 0 && (forall e :: e in entries ==> e.chain == cfg.Id(e.key))
    && OnePerKey(cfg, entries)
  }

  class Table {
    var cfg: Config
    var chains: seq<seq<Entry>>
    var counts: seq<nat>
    var total: nat
    var entries: seq<Entry>

    /** What holds whatever becomes of the case sensitivity. */
    ghost predicate Shaped()
      reads this
    {
      && cfg.size > 0 && |chains| == cfg.size
      && Linked(chains, counts, total, entries) && AllStored(cfg.size, entries)
    }

    ghost predicate Valid() reads this { Shaped() && Keyed(cfg, entries) }

    /** Every entry was stored under the hash of its key as it is folded now. */
    ghost predicate Hashed()
      reads this
    {
      forall e :: e in entries ==> e.hash == cfg.hash(cfg.Fold(e.key))
    }

    ghost predicate InItsChain(key: string)
      requires Shaped()
      reads this
    {
      exists e :: e in chains[cfg.Id(key)] && cfg.Fold(e.key) == cfg.Fold(key)
    }

    /** What an owner sees of a table that is a map over folded keys: no two entries for one of them, and
        a key is found where it is looked for if and only if it is there. */
    ghost predicate AnswersAsMap()
      requires Shaped()
      reads this
    {
      && OnePerKey(cfg, entries)
      && forall key :: InItsChain(key) <==> exists e :: e in entries && cfg.Fold(e.key) == cfg.Fold(key)
    }

    /** The records in the order of insertion. */
    ghost function View(): (rs: seq<Record>)
      reads this, entries
      ensures |rs| == |entries| && forall i :: 0 <= i < |rs| ==> rs[i] == entries[i].View()
    {
      seq(|entries|, i requires 0 <= i < |entries| reads this, entries => entries[i].View())
    }

    ghost function Objects(): set<Entry> reads this { set e | e in entries }

    constructor (cfg: Config)
      requires cfg.size > 0
      ensures Valid() && Hashed() && this.cfg == cfg && View() == [] && entries == []
    {
      this.cfg := cfg;
      chains, counts := seq(cfg.size, i => []), seq(cfg.size, i => 0);
      total, entries := 0, [];
      new;
      ZeroSum(counts);
    }

    /** Case folding may be changed at any time. The table then answers as a map over the newly folded keys
        if and only if every entry is in the chain of its newly folded key and no two keys fold to one. */
    method SetCaseSensitivity(status: bool)
      requires Shaped()
      modifies this`cfg
      ensures Shaped() && cfg == old(cfg).(caseSensitive := status)
      ensures Valid() <==> AnswersAsMap()
      ensures Valid() <==> (forall e :: e in entries ==> e.chain == cfg.Id(e.key)) && OnePerKey(cfg, entries)
    {
      hide Linked, Config.Fold;
      cfg := cfg.(caseSensitive := status);
      AnswersExactly();
    }

    lemma AnswersExactly()
      requires Shaped()
      ensures Valid() <==> AnswersAsMap()
    {
      hide Linked, Config.Fold, AllStored;
      if Valid() {
        forall key ensures InItsChain(key) <==> exists e :: e in entries && cfg.Fold(e.key) == cfg.Fold(key) {
          ChainOf(cfg.Id(key));
        }
      }
      if AnswersAsMap() {
        forall e | e in entries ensures e.chain == cfg.Id(e.key) {
          assert InItsChain(e.key);
          var x :| x in chains[cfg.Id(e.key)] && cfg.Fold(x.key) == cfg.Fold(e.key);
          ChainOf(cfg.Id(e.key));
          SameEntry(cfg, entries, x, e);
        }
      }
    }

    lemma ChainOf(id: nat)
      requires Shaped() && id < cfg.size
      ensures |chains| == |counts| == cfg.size && counts[id] == |chains[id]| && ChainHolds(id, chains[id], entries)
    {
    }

    /** A key that is not in its chain is nowhere. */
    lemma NotInChain(key: string)
      requires Valid()
      requires forall x <- chains[cfg.Id(key)] :: cfg.Fold(x.key) != cfg.Fold(key)
      ensures Find(cfg, View(), key) < 0
    {
      hide Linked, Find, Config.Fold;
      var id, rs := cfg.Id(key), View();
      ChainOf(id);
      FindIs(cfg, rs, key);
      forall i | 0 <= i < |rs| ensures cfg.Fold(rs[i].key) != cfg.Fold(key) {
        var e := entries[i];
        assert e in entries && rs[i].key == e.key;
        if e.chain == id { assert e in chains[id]; }
      }
    }

    lemma InChain(key: string, e: Entry)
      requires Valid() && e in chains[cfg.Id(key)] && cfg.Fold(e.key) == cfg.Fold(key)
      ensures e in entries && Find(cfg, View(), key) >= 0
    {
      hide Linked, Find, Config.Fold;
      ChainOf(cfg.Id(key));
      FindIs(cfg, View(), key);
      var j :| 0 <= j < |entries| && entries[j] == e;
      assert View()[j].key == e.key;
    }

    /** The entry of a key: looked for in one chain only, with short cuts for short chains. */
    method GetEntry(key: string) returns (e: Entry?, id: nat)
      requires Shaped()
      ensures e == null <==> key == "" || !InItsChain(key)
      ensures e != null ==> e in chains[cfg.Id(key)] && cfg.Fold(e.key) == cfg.Fold(key) && id == cfg.Id(key)
    {
      hide Linked, Config.Fold, AllStored;
      id := 0;
      if key == "" {
        return null, 0;
      }
      id := cfg.hash(cfg.Fold(key)) % cfg.size;
      ChainOf(id);
      if counts[id] == 0 {
        return null, id;
      }
      if counts[id] == 1 {
        e := chains[id][0];
        if |e.key| != |key| || cfg.Fold(e.key) != cfg.Fold(key) {
          FoldLength(cfg, e.key, key);
          return null, id;
        }
        assert e in chains[id];
        return;
      }
      for i := 0 to |chains[id]|
        invariant forall j :: 0 <= j < i ==> cfg.Fold(chains[id][j].key) != cfg.Fold(key)
      {
        e := chains[id][i];
        FoldLength(cfg, e.key, key);
        if |e.key| != |key| {
          continue;
        }
        if cfg.Fold(e.key) == cfg.Fold(key) {
          assert e in chains[id];
          return;
        }
      }
      return null, id;
    }

    /** The same of a table that is a map, said of the list of its records. */
    method FindEntry(key: string) returns (e: Entry?, id: nat)
      requires Valid()
      ensures e == null <==> key == "" || Find(cfg, View(), key) < 0
      ensures e != null ==> e in entries && cfg.Fold(e.key) == cfg.Fold(key) && id == cfg.Id(key)
    {
      hide Linked, Find, Config.Fold, Keyed, AllStored;
      e, id := GetEntry(key);
      if e == null {
        if key != "" {
          NotInChain(key);
        }
      } else {
        InChain(key, e);
      }
    }

    /** Unlinks an entry from its chain and from the list; `i` is its place in the list. */
    method FreeEntry(e: Entry) returns (ghost i: nat)
      requires Valid() && e in entries
      modifies this`chains, this`counts, this`total, this`entries
      ensures Valid() && i < |old(entries)| && old(entries)[i] == e
      ensures entries == RemoveAt(old(entries), i) && View() == RemoveAt(old(View()), i)
    {
      hide Linked, Sum, Keyed, Without, AllStored;
      UnlinkOne(chains, counts, total, entries, e);
      LinkedShape(chains, counts, total, entries, e);
      i := WithoutIs(entries, e);
      KeyedRemove(cfg, entries, i);
      StoredRemove(cfg.size, entries, i);
      chains := chains[e.chain := Without(chains[e.chain], e)];
      entries := Without(entries, e);
      counts := counts[e.chain := counts[e.chain] - 1];
      total := total - 1;
    }

    /** Where an entry of a key is found is where the list finds it. */
    lemma FoundAt(key: string, e: Entry, i: nat)
      requires Valid() && i < |entries| && entries[i] == e && cfg.Fold(e.key) == cfg.Fold(key)
      ensures Find(cfg, View(), key) == i
    {
      hide Find, Config.Fold, Linked;
      var rs := View();
      FindIs(cfg, rs, key);
      R.FindKey(cfg, rs, key);
      assert rs[i].key == e.key;
    }

    method EvictOlder()
      requires Valid() && entries != []
      modifies this`chains, this`counts, this`total, this`entries
      ensures Valid() && entries == RemoveAt(old(entries), 0) && View() == RemoveAt(old(View()), 0)
    {
      hide Linked, Keyed;
      ghost var first := entries[0];
      assert Linked(chains, counts, total, entries);
      NoDupEntries();
      ghost var i := FreeEntry(entries[0]);
    }

    lemma NoDupEntries()
      requires Valid()
      ensures NoDup(entries) && total == |entries|
    {
    }

    /** The loop over all entries: the first one with the fewest hits. */
    method FindLessUsed() returns (best: Entry, ghost at: nat)
      requires entries != []
      ensures at == LeastUsed(View()) && best == entries[at]
    {
      hide LeastUsed;
      best, at := entries[0], 0;
      ghost var rs := View();
      LeastUsedOne(rs);
      for k := 1 to |entries|
        invariant at < k && best == entries[at] && at == LeastUsed(rs[..k])
      {
        LeastUsedStep(rs, k);
        if entries[k].hits < best.hits {
          best, at := entries[k], k;
        }
      }
      assert rs[..|rs|] == rs;
    }

    method EvictLessUsed()
      requires Valid() && entries != []
      modifies this`chains, this`counts, this`total, this`entries
      ensures Valid()
      ensures var i := LeastUsed(old(View()));
        entries == RemoveAt(old(entries), i) && View() == RemoveAt(old(View()), i)
    {
      hide Linked, Keyed, LeastUsed;
      NoDupEntries();
      ghost var at;
      var best;
      best, at := FindLessUsed();
      ghost var i := FreeEntry(best);
      assert i == at;
    }

    method EvictRandom(random: nat)
      requires Valid() && entries != []
      modifies this`chains, this`counts, this`total, this`entries
      ensures Valid()
      ensures var i := random % |old(entries)|;
        entries == RemoveAt(old(entries), i) && View() == RemoveAt(old(View()), i)
    {
      hide Linked, Keyed;
      NoDupEntries();
      var id := random % total;
      var count := 0;
      while count < |entries|
        invariant count <= id && entries == old(entries)
        invariant Valid() && View() == old(View())
      {
        if id == count {
          ghost var i := FreeEntry(entries[count]);
          assert i == id;
          return;
        }
        count := count + 1;
      }
    }

    method Evict(random: nat)
      requires Valid()
      modifies this`chains, this`counts, this`total, this`entries
      ensures Valid() && View() == MakeRoom(cfg, old(View()), random)
      ensures Objects() <= old(Objects()) && (old(Hashed()) ==> Hashed())
    {
      hide Linked, Keyed, LeastUsed;
      NoDupEntries();
      if cfg.maxEntries > 0 && total >= cfg.maxEntries {
        match cfg.mode
        case EvictNone =>
        case EvictOlder => EvictOlder();
        case EvictLessUsed => EvictLessUsed();
        case EvictRandom => EvictRandom(random);
      }
    }

    /** Adds a new entry for a key that is not there. */
    method AppendEntry(key: string, val: Value, now: int) returns (id: nat)
      requires Valid() && key != "" && Find(cfg, View(), key) < 0
      modifies this`chains, this`counts, this`total, this`entries
      ensures Valid() && View() == old(View()) + [Record(key, val, 0, now)] && id == cfg.Id(key)
      ensures fresh(Objects() - old(Objects())) && (old(Hashed()) ==> Hashed())
    {
      hide Linked, Find, Sum;
      var hash := cfg.hash(cfg.Fold(key));
      id := hash % cfg.size;
      ghost var rs := View();
      FindIs(cfg, rs, key);
      var e := new Entry(key, hash, id, val, now);
      assert e !in entries;
      LinkNew(chains, counts, total, entries, e);
      ChainOf(id);
      KeyedAppend(cfg, entries, e);
      chains := chains[id := chains[id] + [e]];
      entries := entries + [e];
      counts := counts[id := counts[id] + 1];
      total := total + 1;
    }

    method Put(key: string, val: Value, now: int, random: nat) returns (id: int)
      requires Valid()
      modifies this`chains, this`counts, this`total, this`entries, Objects()
      ensures Valid() && View() == Add(cfg, old(View()), key, val, now, random)
      ensures id == if key == "" then -1 else cfg.Id(key)
      ensures fresh(Objects() - old(Objects())) && (old(Hashed()) ==> Hashed())
    {
      hide Linked, Find, MakeRoom, Keyed;
      if key == "" {
        return -1;
      }
      Evict(random);
      var e, i := FindEntry(key);
      if e != null {
        NoDupEntries();
        ghost var j :| 0 <= j < |entries| && entries[j] == e;
        FoundAt(key, e, j);
        e.val, e.created := val, now;
        return i;
      }
      id := AppendEntry(key, val, now);
    }

    /** One more hit of an entry. */
    method CountHit(e: Entry, ghost j: nat)
      requires Valid() && j < |entries| && entries[j] == e
      modifies e`hits
      ensures Valid() && View() == old(View())[j := old(View())[j].(hits := old(e.hits) + 1)]
    {
      hide Linked, Keyed;
      NoDupEntries();
      e.hits := e.hits + 1;
    }

    method Fetch(key: string, now: int) returns (val: Option<Value>)
      requires Valid()
      modifies this`chains, this`counts, this`total, this`entries, Objects()
      ensures Valid() && (View(), val) == Get(cfg, old(View()), key, now)
      ensures Objects() <= old(Objects()) && (old(Hashed()) ==> Hashed())
    {
      hide Linked, Find, Keyed, AllStored;
      var e, _ := FindEntry(key);
      if e == null {
        return None;
      }
      NoDupEntries();
      ghost var j :| 0 <= j < |entries| && entries[j] == e;
      FoundAt(key, e, j);
      if cfg.ttl > 0 && now > e.created + cfg.ttl {
        ghost var i := FreeEntry(e);
        return None;
      }
      CountHit(e, j);
      return Some(e.val);
    }

    method Delete(key: string) returns (ok: bool)
      requires Valid()
      modifies this`chains, this`counts, this`total, this`entries
      ensures Valid() && (View(), ok) == Del(cfg, old(View()), key)
      ensures Objects() <= old(Objects()) && (old(Hashed()) ==> Hashed())
    {
      hide Linked, Find, Keyed, AllStored;
      var e, _ := FindEntry(key);
      if e == null {
        return false;
      }
      NoDupEntries();
      ghost var j :| 0 <= j < |entries| && entries[j] == e;
      FoundAt(key, e, j);
      ghost var i := FreeEntry(e);
      return true;
    }

    /** One operation of a run. */
    method Apply(op: R.Op) returns (a: R.Answer)
      requires Valid()
      modifies this`chains, this`counts, this`total, this`entries, Objects()
      ensures Valid() && (View(), a) == R.Step(cfg, old(View()), op)
      ensures fresh(Objects() - old(Objects())) && (old(Hashed()) ==> Hashed())
    {
      hide Linked, Keyed, Add, Get, Del, Valid;
      match op {
        case OpAdd(key, val, now, random) =>
          var id := Put(key, val, now, random);
          a := R.Added(id);
        case OpGet(key, now) =>
          var v := Fetch(key, now);
          a := R.Got(v);
        case OpDel(key) =>
          var ok := Delete(key);
          a := R.Deleted(ok);
      }
    }

    /** Whether some entry was stored under the hash: one chain is enough to tell. */
    method Exists(hash: nat) returns (found: bool)
      requires Shaped()
      ensures found <==> exists e :: e in entries && e.hash == hash
      ensures Hashed() ==> (found <==> exists e :: e in entries && cfg.hash(cfg.Fold(e.key)) == hash)
    {
      hide Linked, Config.Fold;
      var id := hash % cfg.size;
      ChainOf(id);
      for i := 0 to |chains[id]|
        invariant forall j :: 0 <= j < i ==> chains[id][j].hash != hash
      {
        var e := chains[id][i];
        if e.hash == hash {
          assert e in entries;
          return true;
        }
      }
      assert forall e :: e in entries ==> Stored(cfg.size, e);
      return false;
    }
  }

  lemma KeyedAppend(cfg: Config, entries: seq<Entry>, e: Entry)
    requires Keyed(cfg, entries) && e.chain == cfg.Id(e.key)
    requires forall i :: 0 <= i < |entries| ==> cfg.Fold(entries[i].key) != cfg.Fold(e.key)
    ensures Keyed(cfg, entries + [e])
  {
    hide Config.Fold;
  }

  lemma FindIs(cfg: Config, rs: seq<Record>, key: string)
    ensures Find(cfg, rs, key) < 0 <==> forall i :: 0 <= i < |rs| ==> cfg.Fold(rs[i].key) != cfg.Fold(key)
  {
  }

  lemma FoldLength(cfg: Config, a: string, b: string)
    ensures |a| != |b| ==> cfg.Fold(a) != cfg.Fold(b)
  {
  }

  lemma LinkedShape(chains: seq<seq<Entry>>, counts: seq<nat>, total: nat, entries: seq<Entry>, e: Entry)
    requires Linked(chains, counts, total, entries) && e in entries
    ensures |chains| == |counts| && e.chain < |chains| && NoDup(entries)
  {
  }

  lemma KeyedRemove(cfg: Config, entries: seq<Entry>, i: nat)
    requires Keyed(cfg, entries) && i < |entries|
    ensures Keyed(cfg, RemoveAt(entries, i))
  {
    hide Config.Fold;
    var r := RemoveAt(entries, i);
    forall j, k | 0 <= j < k < |r| ensures cfg.Fold(r[j].key) != cfg.Fold(r[k].key) {
      assert r[j] == entries[if j < i then j else j + 1] && r[k] == entries[if k < i then k else k + 1];
    }
    forall e | e in r ensures e in entries {
      var j :| 0 <= j < |r| && r[j] == e;
      assert e == entries[if j < i then j else j + 1];
    }
  }

  lemma StoredRemove(size: nat, entries: seq<Entry>, i: nat)
    requires AllStored(size, entries) && i < |entries|
    ensures AllStored(size, RemoveAt(entries, i))
  {
    hide Stored;
    var r := RemoveAt(entries, i);
    forall e | e in r ensures e in entries {
      var j :| 0 <= j < |r| && r[j] == e;
      assert e == entries[if j < i then j else j + 1];
    }
  }

  lemma SameEntry(cfg: Config, entries: seq<Entry>, x: Entry, e: Entry)
    requires OnePerKey(cfg, entries) && x in entries && e in entries && cfg.Fold(x.key) == cfg.Fold(e.key)
    ensures x == e
  {
    hide Config.Fold;
    var i :| 0 <= i < |entries| && entries[i] == x;
    var j :| 0 <= j < |entries| && entries[j] == e;
    assert i == j;
  }

  /** A run on a table answers as one on the list of its records, and so as one on the map of its keys as they
      are folded now, with any eviction and any time to live; without these as one on a finite map. */
  method RunFrom(t: Table, ops: seq<R.Op>) returns (answers: seq<R.Answer>)
    requires t.Valid()
    modifies t`chains, t`counts, t`total, t`entries, t.Objects()
    ensures t.Valid() && answers == R.Run(t.cfg, old(t.View()), ops).1
    ensures forall m :: M.Holds(t.cfg, old(t.View()), m) ==> answers == M.ModelRun(t.cfg, m, ops).1
    ensures !t.cfg.Bounded() && t.cfg.ttl <= 0 ==> answers == R.MapRun(t.cfg, ToMap(t.cfg, old(t.View())), ops).1
  {
    ViewDistinct(t);
    hide Table.Valid, Table.View, R.Step, R.Run, R.MapRun, DistinctKeys, Table.Hashed, M.Holds, M.ModelRun;
    ghost var rs := t.View();
    answers := [];
    R.RunEnds(t.cfg, t.View(), ops);
    for k := 0 to |ops|
      invariant t.Valid() && fresh(t.Objects() - old(t.Objects()))
      invariant R.Run(t.cfg, rs, ops).1 == answers + R.Run(t.cfg, t.View(), ops[k..]).1
    {
      R.RunOnce(t.cfg, t.View(), ops, k, answers);
      var a := t.Apply(ops[k]);
      answers := answers + [a];
    }
    R.RunEnds(t.cfg, t.View(), ops);
    assert answers + [] == answers;
    forall m | M.Holds(t.cfg, rs, m) ensures answers == M.ModelRun(t.cfg, m, ops).1 {
      M.RunIs(t.cfg, rs, m, ops);
    }
    if !t.cfg.Bounded() && t.cfg.ttl <= 0 {
      R.RunRefinesMap(t.cfg, rs, ops);
    }
  }

  lemma ViewDistinct(t: Table)
    requires t.Valid()
    ensures DistinctKeys(t.cfg, t.View())
  {
    hide Config.Fold, Linked, AllStored;
  }

  /** A run of the table, from empty, answers as the list does and as the map does, with any eviction and any
      time to live; without these as a finite map. */
  method RunTable(cfg: Config, ops: seq<R.Op>) returns (answers: seq<R.Answer>)
    requires cfg.size > 0
    ensures answers == R.Run(cfg, [], ops).1 == M.ModelRun(cfg, M.NOTHING, ops).1
    ensures !cfg.Bounded() && cfg.ttl <= 0 ==> answers == R.MapRun(cfg, map[], ops).1
  {
    hide Table.Valid, Table.View, R.Run, R.MapRun, M.Holds, M.ModelRun;
    M.Started(cfg);
    var t := new Table(cfg);
    answers := RunFrom(t, ops);
  }

  /** A table that loses an entry to folding: its key, in lower case, belongs to another chain. */
  method LostByFolding(val: Value) returns (before: bool, after: bool)
    ensures before && !after
  {
    hide Linked, Keyed, AllStored;
    var t := new Table(Config(2, EvictNone, -1, 0, true, key => if key == "A" then 0 else 1));
    var _ := t.Put("A", val, 0, 0);
    var e, _ := t.FindEntry("A");
    before := e != null;
    OneEntry(t, e);
    t.SetCaseSensitivity(false);
    NotInOther(t, e);
    var f, _ := t.GetEntry("A");
    after := f != null;
  }

  lemma OneEntry(t: Table, e: Entry)
    requires t.Valid() && |t.entries| == 1 && e in t.entries && e.key == "A" && t.cfg.Id("A") == 0
    ensures t.entries == [e] && e.chain == 0
  {
    hide Linked;
  }

  lemma NotInOther(t: Table, e: Entry)
    requires t.Shaped() && t.entries == [e] && e.chain == 0 && t.cfg.size == 2
    requires !t.cfg.caseSensitive && t.cfg.hash("a") == 1
    ensures !t.InItsChain("A")
  {
    assert t.cfg.Fold("A") == "a" && t.cfg.Id("A") == 1;
    hide Linked, Config.Fold;
    t.ChainOf(1);
  }
}
