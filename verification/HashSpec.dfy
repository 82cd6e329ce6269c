/**
  The hash table as its owner sees it: a list of records in the order of insertion, and the
  operations on that list. That the list behaves as a finite map is proved here; that the chained
  table behaves as the list is proved in `HashTable`.
 */
module HashSpec {
  import opened Options
  import opened CString
  import opened Lists

  /** A value is a copy of the caller's bytes, or only a reference to them. */
  datatype Value = Copied(bytes: string) | Reference(address: nat)

  datatype Record = Record(key: string, val: Value, hits: nat, created: int)

  datatype EvictMode = EvictNone | EvictOlder | EvictLessUsed | EvictRandom

  /** `hash` is the hash function, whatever it is. */
  datatype Config = Config(
    size: nat,
    mode: EvictMode,
    maxEntries: int,
    ttl: int,
    caseSensitive: bool,
    hash: string -> nat)
  {
    function Fold(key: string): string { if caseSensitive then key else Lower(key) }

    function Id(key: string): nat
      requires size > 0
    {
      hash(Fold(key)) % size
    }

    predicate Bounded() { maxEntries > 0 && mode != EvictNone }
  }

  ghost predicate DistinctKeys(cfg: Config, rs: seq<Record>)
  {
    forall i, j :: 0 <= i < j < |rs| ==> cfg.Fold(rs[i].key) != cfg.Fold(rs[j].key)
  }

  /** Where the record of a key is, or -1. */
  function Find(cfg: Config, rs: seq<Record>, key: string): (i: int)
    ensures -1 <= i < |rs|
    ensures i >= 0 ==> cfg.Fold(rs[i].key) == cfg.Fold(key)
    ensures i < 0 ==> forall j :: 0 <= j < |rs| ==> cfg.Fold(rs[j].key) != cfg.Fold(key)
  {
    if rs == [] then -1
    else if cfg.Fold(rs[|rs| - 1].key) == cfg.Fold(key) then |rs| - 1
    else Find(cfg, rs[..|rs| - 1], key)
  }

  /** The first of the records with the fewest hits. */
  function LeastUsed(rs: seq<Record>): (v: nat)
    requires rs != []
    ensures v < |rs|
    ensures forall j :: 0 <= j < |rs| ==> rs[v].hits <= rs[j].hits
    ensures forall j :: 0 <= j < v ==> rs[v].hits < rs[j].hits
  {
    if |rs| == 1 then 0
    else
      var v := LeastUsed(rs[..|rs| - 1]);
      if rs[|rs| - 1].hits < rs[v].hits then |rs| - 1 else v
  }

  lemma LeastUsedOne(rs: seq<Record>)
    requires rs != []
    ensures LeastUsed(rs[..1]) == 0
  {
  }

  lemma LeastUsedStep(rs: seq<Record>, k: nat)
    requires 0 < k < |rs|
    ensures LeastUsed(rs[..k + 1]) == var v := LeastUsed(rs[..k]); if rs[k].hits < rs[v].hits then k else v
  {
    assert rs[..k + 1][..k] == rs[..k];
  }

  /** Which record an eviction removes; `random` stands for the random number drawn. */
  function Victim(cfg: Config, rs: seq<Record>, random: nat): (v: nat)
    requires rs != []
    ensures v < |rs|
  {
    match cfg.mode
    case EvictLessUsed => LeastUsed(rs)
    case EvictRandom => random % |rs|
    case _ => 0
  }

  predicate AtCapacity(cfg: Config, rs: seq<Record>) { cfg.maxEntries > 0 && |rs| >= cfg.maxEntries }

  function MakeRoom(cfg: Config, rs: seq<Record>, random: nat): (r: seq<Record>)
  {
    if AtCapacity(cfg, rs) && cfg.mode != EvictNone then RemoveAt(rs, Victim(cfg, rs, random)) else rs
  }

  /** Replaces the value of a key that is there, or adds a record at the end. */
  function Store(cfg: Config, rs: seq<Record>, key: string, val: Value, now: int): (r: seq<Record>)
  {
    var i := Find(cfg, rs, key);
    if i >= 0 then rs[i := rs[i].(val := val, created := now)] else rs + [Record(key, val, 0, now)]
  }

  function Add(cfg: Config, rs: seq<Record>, key: string, val: Value, now: int, random: nat): (r: seq<Record>)
  {
    if key == "" then rs else Store(cfg, MakeRoom(cfg, rs, random), key, val, now)
  }

  predicate Expired(cfg: Config, r: Record, now: int) { cfg.ttl > 0 && now > r.created + cfg.ttl }

  function Get(cfg: Config, rs: seq<Record>, key: string, now: int): (r: (seq<Record>, Option<Value>))
  {
    var i := if key == "" then -1 else Find(cfg, rs, key);
    if i < 0 then (rs, None)
    else if Expired(cfg, rs[i], now) then (RemoveAt(rs, i), None)
    else (rs[i := rs[i].(hits := rs[i].hits + 1)], Some(rs[i].val))
  }

  function Del(cfg: Config, rs: seq<Record>, key: string): (r: (seq<Record>, bool))
  {
    var i := if key == "" then -1 else Find(cfg, rs, key);
    if i < 0 then (rs, false) else (RemoveAt(rs, i), true)
  }

  // ----- the list is a map

  function ToMap(cfg: Config, rs: seq<Record>): (m: map<string, Value>)
  {
    if rs == [] then map[] else ToMap(cfg, rs[..|rs| - 1])[cfg.Fold(rs[|rs| - 1].key) := rs[|rs| - 1].val]
  }

  /** The map has exactly the pairs of the records. */
  ghost predicate Represents(cfg: Config, rs: seq<Record>, m: map<string, Value>)
  {
    && (forall i :: 0 <= i < |rs| ==> cfg.Fold(rs[i].key) in m && m[cfg.Fold(rs[i].key)] == rs[i].val)
    && (forall k :: k in m ==> exists i :: 0 <= i < |rs| && cfg.Fold(rs[i].key) == k)
  }

  lemma RepresentsLast(cfg: Config, rs: seq<Record>, m: map<string, Value>)
    requires rs != [] && DistinctKeys(cfg, rs) && Represents(cfg, rs[..|rs| - 1], m)
    ensures var last := rs[|rs| - 1];
      cfg.Fold(last.key) !in m && Represents(cfg, rs, m[cfg.Fold(last.key) := last.val])
  {
    hide Config.Fold;
    var front, last := rs[..|rs| - 1], rs[|rs| - 1];
    assert cfg.Fold(last.key) !in m;
    var n := m[cfg.Fold(last.key) := last.val];
    forall k | k in n ensures exists i :: 0 <= i < |rs| && cfg.Fold(rs[i].key) == k {
      if k == cfg.Fold(last.key) {
        assert cfg.Fold(rs[|rs| - 1].key) == k;
      } else {
        var i :| 0 <= i < |front| && cfg.Fold(front[i].key) == k;
        assert rs[i] == front[i];
      }
    }
    forall i | 0 <= i < |rs| ensures cfg.Fold(rs[i].key) in n && n[cfg.Fold(rs[i].key)] == rs[i].val {
      if i < |rs| - 1 { assert rs[i] == front[i]; }
    }
  }

  lemma {:induction false} ToMapIs(cfg: Config, rs: seq<Record>)
    requires DistinctKeys(cfg, rs)
    ensures Represents(cfg, rs, ToMap(cfg, rs)) && |ToMap(cfg, rs)| == |rs|
  {
    if rs != [] {
      hide Config.Fold, Represents;
      ToMapIs(cfg, rs[..|rs| - 1]);
      RepresentsLast(cfg, rs, ToMap(cfg, rs[..|rs| - 1]));
    }
  }

  lemma SameMap(cfg: Config, rs: seq<Record>, m: map<string, Value>)
    requires DistinctKeys(cfg, rs) && Represents(cfg, rs, m)
    ensures ToMap(cfg, rs) == m
  {
    hide ToMap, Config.Fold;
    ToMapIs(cfg, rs);
    var t := ToMap(cfg, rs);
    assert forall k :: k in t ==> k in m && t[k] == m[k];
    assert forall k :: k in m ==> k in t;
  }

  lemma FindMap(cfg: Config, rs: seq<Record>, key: string)
    requires DistinctKeys(cfg, rs)
    ensures var m, i := ToMap(cfg, rs), Find(cfg, rs, key);
      && (i >= 0 <==> cfg.Fold(key) in m)
      && (i >= 0 ==> rs[i].val == m[cfg.Fold(key)])
  {
    hide ToMap, Config.Fold;
    ToMapIs(cfg, rs);
  }

  /** A record changed in place changes the value of its own key, and no other pair. */
  lemma TouchMap(cfg: Config, rs: seq<Record>, i: nat, r: Record)
    requires DistinctKeys(cfg, rs) && i < |rs| && r.key == rs[i].key
    ensures DistinctKeys(cfg, rs[i := r])
    ensures ToMap(cfg, rs[i := r]) == ToMap(cfg, rs)[cfg.Fold(r.key) := r.val]
  {
    hide ToMap, Config.Fold;
    var s := rs[i := r];
    ToMapIs(cfg, rs);
    var m := ToMap(cfg, rs)[cfg.Fold(r.key) := r.val];
    forall k | k in m ensures exists j :: 0 <= j < |s| && cfg.Fold(s[j].key) == k {
      var j :| 0 <= j < |rs| && cfg.Fold(rs[j].key) == k;
      assert s[j].key == rs[j].key;
    }
    SameMap(cfg, s, m);
  }

  lemma RemoveDistinct(cfg: Config, rs: seq<Record>, i: nat)
    requires DistinctKeys(cfg, rs) && i < |rs|
    ensures DistinctKeys(cfg, RemoveAt(rs, i))
  {
    hide Config.Fold;
    var s := RemoveAt(rs, i);
    forall j, k | 0 <= j < k < |s| ensures cfg.Fold(s[j].key) != cfg.Fold(s[k].key) {
      assert s[j] == rs[if j < i then j else j + 1] && s[k] == rs[if k < i then k else k + 1];
    }
  }

  lemma RemoveRepresents(cfg: Config, rs: seq<Record>, i: nat, m: map<string, Value>)
    requires DistinctKeys(cfg, rs) && i < |rs| && Represents(cfg, rs, m)
    ensures Represents(cfg, RemoveAt(rs, i), m - {cfg.Fold(rs[i].key)})
  {
    hide Config.Fold;
    var s, n := RemoveAt(rs, i), m - {cfg.Fold(rs[i].key)};
    forall k | k in n ensures exists j :: 0 <= j < |s| && cfg.Fold(s[j].key) == k {
      var j :| 0 <= j < |rs| && cfg.Fold(rs[j].key) == k;
      assert s[if j < i then j else j - 1] == rs[j];
    }
    forall j | 0 <= j < |s| ensures cfg.Fold(s[j].key) in n && n[cfg.Fold(s[j].key)] == s[j].val {
      assert s[j] == rs[if j < i then j else j + 1];
    }
  }

  lemma RemoveMap(cfg: Config, rs: seq<Record>, i: nat)
    requires DistinctKeys(cfg, rs) && i < |rs|
    ensures DistinctKeys(cfg, RemoveAt(rs, i))
    ensures ToMap(cfg, RemoveAt(rs, i)) == ToMap(cfg, rs) - {cfg.Fold(rs[i].key)}
  {
    hide ToMap, Config.Fold, Represents, DistinctKeys;
    RemoveDistinct(cfg, rs, i);
    ToMapIs(cfg, rs);
    RemoveRepresents(cfg, rs, i, ToMap(cfg, rs));
    SameMap(cfg, RemoveAt(rs, i), ToMap(cfg, rs) - {cfg.Fold(rs[i].key)});
  }

  /** Storing updates the map, whether the key was there or not. */
  lemma StoreMap(cfg: Config, rs: seq<Record>, key: string, val: Value, now: int)
    requires DistinctKeys(cfg, rs)
    ensures DistinctKeys(cfg, Store(cfg, rs, key, val, now))
    ensures ToMap(cfg, Store(cfg, rs, key, val, now)) == ToMap(cfg, rs)[cfg.Fold(key) := val]
  {
    var i := Find(cfg, rs, key);
    if i >= 0 {
      TouchMap(cfg, rs, i, rs[i].(val := val, created := now));
    } else {
      assert (rs + [Record(key, val, 0, now)])[..|rs|] == rs;
    }
  }
}
