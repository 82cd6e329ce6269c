/** Runs of hash table operations: agreement with a finite map, and the bound kept by eviction. */
module HashRuns {
  import opened Lists
  import opened HashSpec
  import opened Options

  datatype Op =
    | OpAdd(key: string, val: Value, now: int, random: nat)
    | OpGet(key: string, now: int)
    | OpDel(key: string)

  /** The chain number of an addition, or -1; the value found; whether something was deleted. */
  datatype Answer = Added(id: int) | Got(val: Option<Value>) | Deleted(ok: bool)

  function Step(cfg: Config, rs: seq<Record>, op: Op): (r: (seq<Record>, Answer))
    requires cfg.size > 0
  {
    match op
    case OpAdd(k, v, now, random) =>
      (Add(cfg, rs, k, v, now, random), Added(if k == "" then -1 else cfg.Id(k)))
    case OpGet(k, now) => var (s, v) := Get(cfg, rs, k, now); (s, Got(v))
    case OpDel(k) => var (s, ok) := Del(cfg, rs, k); (s, Deleted(ok))
  }

  function Run(cfg: Config, rs: seq<Record>, ops: seq<Op>): (r: (seq<Record>, seq<Answer>))
    requires cfg.size > 0
    decreases |ops|
  {
    if ops == [] then (rs, [])
    else
      var (s, a) := Step(cfg, rs, ops[0]);
      var (t, as') := Run(cfg, s, ops[1..]);
      (t, [a] + as')
  }

  lemma RunEnds(cfg: Config, rs: seq<Record>, ops: seq<Op>)
    requires cfg.size > 0
    ensures ops[0..] == ops && [] + Run(cfg, rs, ops).1 == Run(cfg, rs, ops).1
    ensures Run(cfg, rs, ops[|ops|..]).1 == []
  {
  }

  /** One more operation of a run, after the answers so far. */
  lemma RunOnce(cfg: Config, rs: seq<Record>, ops: seq<Op>, k: nat, answers: seq<Answer>)
    requires cfg.size > 0 && k < |ops|
    ensures var (s, a) := Step(cfg, rs, ops[k]);
      answers + Run(cfg, rs, ops[k..]).1 == answers + [a] + Run(cfg, s, ops[k + 1..]).1
  {
    hide Step;
    assert ops[k..][0] == ops[k] && ops[k..][1..] == ops[k + 1..];
    var (s, a) := Step(cfg, rs, ops[k]);
    assert answers + ([a] + Run(cfg, s, ops[k + 1..]).1) == answers + [a] + Run(cfg, s, ops[k + 1..]).1;
  }

  /** The same operations on a finite map from folded keys to values. */
  function MapStep(cfg: Config, m: map<string, Value>, op: Op): (r: (map<string, Value>, Answer))
    requires cfg.size > 0
  {
    var k := cfg.Fold(op.key);
    var there := op.key != "" && k in m;
    match op
    case OpAdd(_, v, _, _) => if op.key == "" then (m, Added(-1)) else (m[k := v], Added(cfg.Id(op.key)))
    case OpGet(_, _) => (m, Got(if there then Some(m[k]) else None))
    case OpDel(_) => (if there then m - {k} else m, Deleted(there))
  }

  function MapRun(cfg: Config, m: map<string, Value>, ops: seq<Op>): (r: (map<string, Value>, seq<Answer>))
    requires cfg.size > 0
    decreases |ops|
  {
    if ops == [] then (m, [])
    else
      var (n, a) := MapStep(cfg, m, ops[0]);
      var (o, as') := MapRun(cfg, n, ops[1..]);
      (o, [a] + as')
  }

  lemma MakeRoomDistinct(cfg: Config, rs: seq<Record>, random: nat)
    requires DistinctKeys(cfg, rs)
    ensures DistinctKeys(cfg, MakeRoom(cfg, rs, random))
  {
    hide LeastUsed, Config.Fold;
    if AtCapacity(cfg, rs) && cfg.mode != EvictNone { RemoveDistinct(cfg, rs, Victim(cfg, rs, random)); }
  }

  /** No operation, with or without eviction and expiry, gives two records to a key. */
  lemma StepDistinct(cfg: Config, rs: seq<Record>, op: Op)
    requires cfg.size > 0 && DistinctKeys(cfg, rs)
    ensures DistinctKeys(cfg, Step(cfg, rs, op).0)
  {
    hide DistinctKeys, ToMap, Config.Fold, Find, MakeRoom, Store;
    match op
    case OpAdd(k, v, now, random) =>
      MakeRoomDistinct(cfg, rs, random);
      StoreMap(cfg, MakeRoom(cfg, rs, random), k, v, now);
    case OpGet(k, now) =>
      var i := Find(cfg, rs, k);
      if i >= 0 {
        RemoveDistinct(cfg, rs, i);
        TouchMap(cfg, rs, i, rs[i].(hits := rs[i].hits + 1));
      }
    case OpDel(k) =>
      var i := Find(cfg, rs, k);
      if i >= 0 { RemoveDistinct(cfg, rs, i); }
  }

  /** One operation without eviction and expiry does what the map does. */
  lemma StepRefines(cfg: Config, rs: seq<Record>, op: Op)
    requires cfg.size > 0 && DistinctKeys(cfg, rs) && !cfg.Bounded() && cfg.ttl <= 0
    ensures var (s, a) := Step(cfg, rs, op); (ToMap(cfg, s), a) == MapStep(cfg, ToMap(cfg, rs), op)
  {
    hide DistinctKeys, ToMap, Config.Fold, Find, Store;
    FindMap(cfg, rs, op.key);
    var i := Find(cfg, rs, op.key);
    match op
    case OpAdd(k, v, now, random) => StoreMap(cfg, rs, k, v, now);
    case OpGet(k, now) =>
      if i >= 0 {
        TouchMap(cfg, rs, i, rs[i].(hits := rs[i].hits + 1));
        FindKey(cfg, rs, k);
        var m := ToMap(cfg, rs);
        assert m[cfg.Fold(k) := m[cfg.Fold(k)]] == m;
      }
    case OpDel(k) =>
      if i >= 0 {
        RemoveMap(cfg, rs, i);
        FindKey(cfg, rs, k);
      }
  }

  lemma FindKey(cfg: Config, rs: seq<Record>, key: string)
    ensures var i := Find(cfg, rs, key); i >= 0 ==> cfg.Fold(rs[i].key) == cfg.Fold(key)
  {
  }

  /** For every run without eviction and expiry the answers are those of a finite map. */
  lemma {:induction false} RunRefinesMap(cfg: Config, rs: seq<Record>, ops: seq<Op>)
    requires cfg.size > 0 && DistinctKeys(cfg, rs) && !cfg.Bounded() && cfg.ttl <= 0
    ensures var (s, as') := Run(cfg, rs, ops);
      DistinctKeys(cfg, s) && (ToMap(cfg, s), as') == MapRun(cfg, ToMap(cfg, rs), ops)
    decreases |ops|
  {
    hide Step, MapStep, DistinctKeys, ToMap;
    if ops != [] {
      StepDistinct(cfg, rs, ops[0]);
      StepRefines(cfg, rs, ops[0]);
      RunRefinesMap(cfg, Step(cfg, rs, ops[0]).0, ops[1..]);
    }
  }

  /** With an evicting mode and a positive limit no run exceeds the limit. */
  lemma {:induction false} RunStaysBounded(cfg: Config, rs: seq<Record>, ops: seq<Op>)
    requires cfg.size > 0 && cfg.Bounded() && |rs| <= cfg.maxEntries
    ensures |Run(cfg, rs, ops).0| <= cfg.maxEntries
    decreases |ops|
  {
    if ops != [] {
      StepStaysBounded(cfg, rs, ops[0]);
      hide Step;
      RunStaysBounded(cfg, Step(cfg, rs, ops[0]).0, ops[1..]);
    }
  }

  lemma StepStaysBounded(cfg: Config, rs: seq<Record>, op: Op)
    requires cfg.size > 0 && cfg.Bounded() && |rs| <= cfg.maxEntries
    ensures |Step(cfg, rs, op).0| <= cfg.maxEntries
  {
    hide Find, Victim, Config.Fold;
  }

  /** An addition at capacity removes exactly the victim, even when it replaces a value, and then
      updates the map. The victim is the first inserted, or the first of those with fewest hits. */
  lemma EvictingAdd(cfg: Config, rs: seq<Record>, key: string, val: Value, now: int, random: nat)
    requires DistinctKeys(cfg, rs) && cfg.Bounded() && |rs| == cfg.maxEntries && key != ""
    ensures var v := Victim(cfg, rs, random);
      && ToMap(cfg, Add(cfg, rs, key, val, now, random))
         == (ToMap(cfg, rs) - {cfg.Fold(rs[v].key)})[cfg.Fold(key) := val]
      && (cfg.mode == EvictOlder ==> v == 0)
      && (cfg.mode == EvictLessUsed ==>
            (forall j :: 0 <= j < |rs| ==> rs[v].hits <= rs[j].hits)
            && (forall j :: 0 <= j < v ==> rs[v].hits < rs[j].hits))
    ensures |Add(cfg, rs, key, val, now, random)| in {|rs| - 1, |rs|}
    ensures |Add(cfg, rs, key, val, now, random)| == |rs| - 1 <==> Find(cfg, MakeRoom(cfg, rs, random), key) >= 0
  {
    hide ToMap, Config.Fold, Find, LeastUsed;
    var v := Victim(cfg, rs, random);
    RemoveMap(cfg, rs, v);
    StoreMap(cfg, RemoveAt(rs, v), key, val, now);
  }
}
