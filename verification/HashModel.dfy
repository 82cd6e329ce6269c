/**
  The whole table as a map: for every folded key the value, the time it was stored and the number of times it
  was got since it was added, and the keys in the order in which they were added. Every run of the table, with
  any eviction and any time to live, is a run of this map.
 */
module HashModel {
  import opened Options
  import opened Lists
  import opened HashSpec
  import opened HashRuns

  datatype Slot = Slot(val: Value, stored: int, hits: nat)

  datatype Model = Model(order: seq<string>, slots: map<string, Slot>)

  const NOTHING := Model([], map[])

  ghost predicate WellKept(m: Model) { NoDup(m.order) && forall k :: k in m.slots <==> k in m.order }

  // ----- the operations

  /** The first of the keys with the fewest hits. */
  function Coldest(order: seq<string>, slots: map<string, Slot>): (v: nat)
    requires order != [] && forall k <- order :: k in slots
    ensures v < |order| && forall j :: 0 <= j < |order| ==> slots[order[v]].hits <= slots[order[j]].hits
    ensures forall j :: 0 <= j < v ==> slots[order[v]].hits < slots[order[j]].hits
  {
    if |order| == 1 then 0
    else
      var v := Coldest(order[1..], slots) + 1;
      assert forall j :: 0 < j < |order| ==> order[j] == order[1..][j - 1];
      if slots[order[0]].hits <= slots[order[v]].hits then 0 else v
  }

  function Dropped(m: Model, k: string): Model { Model(Without(m.order, k), m.slots - {k}) }

  /** Before something is added to a full table one key is dropped: the oldest, the coldest or a random one. */
  ghost function Evicted(cfg: Config, m: Model, random: nat): Model
    requires WellKept(m)
  {
    if cfg.maxEntries <= 0 || |m.order| < cfg.maxEntries then m
    else
      match cfg.mode
      case EvictNone => m
      case EvictOlder => Dropped(m, m.order[0])
      case EvictLessUsed => Dropped(m, m.order[Coldest(m.order, m.slots)])
      case EvictRandom => Dropped(m, m.order[random % |m.order|])
  }

  /** A key that is there keeps its place and its hits; its time starts again. */
  function Put(m: Model, k: string, val: Value, now: int): Model
  {
    if k in m.slots then m.(slots := m.slots[k := Slot(val, now, m.slots[k].hits)])
    else Model(m.order + [k], m.slots[k := Slot(val, now, 0)])
  }

  /** A value is as old as the time since it was stored, and too old if that is more than the time to live. */
  predicate TooOld(ttl: int, slot: Slot, now: int) { ttl > 0 && now - slot.stored > ttl }

  function Refused(op: Op): Answer
  {
    match op case OpAdd(_, _, _, _) => Added(-1) case OpGet(_, _) => Got(None) case OpDel(_) => Deleted(false)
  }

  lemma EvictedKept(cfg: Config, m: Model, random: nat)
    requires WellKept(m)
    ensures WellKept(Evicted(cfg, m, random))
  {
    hide Coldest, Dropped;
    if |m.order| > 0 {
      DropAt(m, 0);
      DropAt(m, Coldest(m.order, m.slots));
      DropAt(m, random % |m.order|);
    }
  }

  lemma PutKept(m: Model, k: string, val: Value, now: int)
    requires WellKept(m)
    ensures WellKept(Put(m, k, val, now))
  {
  }

  lemma TouchKept(m: Model, k: string, slot: Slot)
    requires WellKept(m) && k in m.slots
    ensures WellKept(m.(slots := m.slots[k := slot]))
  {
  }

  lemma DropKept(m: Model, k: string)
    requires WellKept(m) && k in m.slots
    ensures WellKept(Dropped(m, k))
  {
    hide Dropped;
    var i :| 0 <= i < |m.order| && m.order[i] == k;
    DropAt(m, i);
  }

  lemma StepKept(cfg: Config, m: Model, op: Op)
    requires WellKept(m)
    ensures op.OpAdd? ==> WellKept(Put(Evicted(cfg, m, op.random), cfg.Fold(op.key), op.val, op.now))
    ensures cfg.Fold(op.key) in m.slots ==>
      var k := cfg.Fold(op.key);
      WellKept(Dropped(m, k)) && WellKept(m.(slots := m.slots[k := m.slots[k].(hits := m.slots[k].hits + 1)]))
  {
    hide WellKept, Evicted, Dropped, Put, Config.Fold;
    var k := cfg.Fold(op.key);
    if op.OpAdd? {
      EvictedKept(cfg, m, op.random);
      PutKept(Evicted(cfg, m, op.random), k, op.val, op.now);
    }
    if k in m.slots {
      DropKept(m, k);
      TouchKept(m, k, m.slots[k].(hits := m.slots[k].hits + 1));
    }
  }

  ghost function ModelStep(cfg: Config, m: Model, op: Op): (r: (Model, Answer))
    requires cfg.size > 0 && WellKept(m)
    ensures WellKept(r.0)
  {
    hide WellKept, Evicted, Dropped, Put;
    var k := cfg.Fold(op.key);
    StepKept(cfg, m, op);
    if op.key == "" then (m, Refused(op))
    else
      match op
      case OpAdd(_, val, now, random) => (Put(Evicted(cfg, m, random), k, val, now), Added(cfg.Id(op.key)))
      case OpGet(_, now) =>
        if k !in m.slots then (m, Got(None))
        else if TooOld(cfg.ttl, m.slots[k], now) then (Dropped(m, k), Got(None))
        else (m.(slots := m.slots[k := m.slots[k].(hits := m.slots[k].hits + 1)]), Got(Some(m.slots[k].val)))
      case OpDel(_) => if k in m.slots then (Dropped(m, k), Deleted(true)) else (m, Deleted(false))
  }

  // ----- the list of records is that map

  function SlotOf(r: Record): Slot { Slot(r.val, r.created, r.hits) }

  ghost predicate Holds(cfg: Config, rs: seq<Record>, m: Model)
  {
    && WellKept(m) && |m.order| == |rs|
    && forall i :: 0 <= i < |rs| ==> m.order[i] == cfg.Fold(rs[i].key) && m.slots[m.order[i]] == SlotOf(rs[i])
  }

  /** Where a key is in the list. */
  lemma Located(cfg: Config, rs: seq<Record>, m: Model, key: string)
    requires Holds(cfg, rs, m)
    ensures var i, k := Find(cfg, rs, key), cfg.Fold(key);
      (i >= 0 <==> k in m.slots) && (i >= 0 ==> m.order[i] == k && m.slots[k] == SlotOf(rs[i]))
  {
    hide Config.Fold, Find;
    var k := cfg.Fold(key);
    if k in m.slots {
      var j :| 0 <= j < |m.order| && m.order[j] == k;
    }
  }

  lemma DropAt(m: Model, i: nat)
    requires WellKept(m) && i < |m.order|
    ensures Dropped(m, m.order[i]) == Model(RemoveAt(m.order, i), m.slots - {m.order[i]})
    ensures WellKept(Dropped(m, m.order[i]))
  {
    hide Without;
    var j := WithoutIs(m.order, m.order[i]);
    RemoveAtNoDup(m.order, i);
  }

  lemma HoldsDropped(cfg: Config, rs: seq<Record>, m: Model, i: nat)
    requires Holds(cfg, rs, m) && i < |rs|
    ensures Holds(cfg, RemoveAt(rs, i), Dropped(m, m.order[i]))
  {
    hide Config.Fold, Without;
    DropAt(m, i);
    var s, n := RemoveAt(rs, i), Dropped(m, m.order[i]);
    forall j | 0 <= j < |s| ensures n.order[j] == cfg.Fold(s[j].key) && n.slots[n.order[j]] == SlotOf(s[j]) {
      var l := if j < i then j else j + 1;
      assert s[j] == rs[l] && n.order[j] == m.order[l];
    }
  }

  /** A record changed in place, with its key. */
  lemma HoldsTouched(cfg: Config, rs: seq<Record>, m: Model, i: nat, r: Record)
    requires Holds(cfg, rs, m) && i < |rs| && r.key == rs[i].key
    ensures Holds(cfg, rs[i := r], m.(slots := m.slots[m.order[i] := SlotOf(r)]))
  {
    hide Config.Fold;
  }

  lemma HoldsAppended(cfg: Config, rs: seq<Record>, m: Model, r: Record)
    requires Holds(cfg, rs, m) && cfg.Fold(r.key) !in m.slots
    ensures Holds(cfg, rs + [r], Model(m.order + [cfg.Fold(r.key)], m.slots[cfg.Fold(r.key) := SlotOf(r)]))
  {
    hide Config.Fold;
  }

  lemma StoreIs(cfg: Config, rs: seq<Record>, m: Model, key: string, val: Value, now: int)
    requires Holds(cfg, rs, m)
    ensures Holds(cfg, Store(cfg, rs, key, val, now), Put(m, cfg.Fold(key), val, now))
  {
    hide Config.Fold, Find, Holds;
    Located(cfg, rs, m, key);
    var i := Find(cfg, rs, key);
    if i >= 0 {
      HoldsTouched(cfg, rs, m, i, rs[i].(val := val, created := now));
    } else {
      HoldsAppended(cfg, rs, m, Record(key, val, 0, now));
    }
  }

  /** The victim of the list is the key that the map drops. */
  lemma EvictedIs(cfg: Config, rs: seq<Record>, m: Model, random: nat)
    requires Holds(cfg, rs, m)
    ensures Holds(cfg, MakeRoom(cfg, rs, random), Evicted(cfg, m, random))
  {
    hide Config.Fold, LeastUsed, Coldest, Dropped;
    if AtCapacity(cfg, rs) && cfg.mode != EvictNone {
      var v := Victim(cfg, rs, random);
      if cfg.mode == EvictLessUsed { SameColdest(cfg, rs, m); }
      HoldsDropped(cfg, rs, m, v);
    }
  }

  lemma SameColdest(cfg: Config, rs: seq<Record>, m: Model)
    requires Holds(cfg, rs, m) && rs != []
    ensures Coldest(m.order, m.slots) == LeastUsed(rs)
  {
    hide Config.Fold, LeastUsed, Coldest;
    var c, v := Coldest(m.order, m.slots), LeastUsed(rs);
    assert m.slots[m.order[c]].hits == rs[c].hits && m.slots[m.order[v]].hits == rs[v].hits;
    assert forall j :: 0 <= j < |rs| ==> m.slots[m.order[j]].hits == rs[j].hits;
  }

  /** Every operation, with any eviction and any time to live, does what the map does. */
  lemma StepIs(cfg: Config, rs: seq<Record>, m: Model, op: Op)
    requires cfg.size > 0 && Holds(cfg, rs, m)
    ensures WellKept(m)
    ensures var (s, a) := Step(cfg, rs, op); var (n, b) := ModelStep(cfg, m, op); Holds(cfg, s, n) && a == b
  {
    hide Config.Fold, Find, Store, MakeRoom, Evicted, Put, Holds, WellKept, Dropped;
    Kept(cfg, rs, m);
    Located(cfg, rs, m, op.key);
    var i := Find(cfg, rs, op.key);
    match op
    case OpAdd(key, val, now, random) =>
      EvictedIs(cfg, rs, m, random);
      StoreIs(cfg, MakeRoom(cfg, rs, random), Evicted(cfg, m, random), key, val, now);
    case OpGet(key, now) =>
      if i >= 0 {
        HoldsDropped(cfg, rs, m, i);
        HoldsTouched(cfg, rs, m, i, rs[i].(hits := rs[i].hits + 1));
      }
    case OpDel(key) => if i >= 0 { HoldsDropped(cfg, rs, m, i); }
  }

  lemma Kept(cfg: Config, rs: seq<Record>, m: Model)
    requires Holds(cfg, rs, m)
    ensures WellKept(m) && |m.order| == |rs|
  {
  }

  // ----- runs

  ghost function ModelRun(cfg: Config, m: Model, ops: seq<Op>): (r: (Model, seq<Answer>))
    requires cfg.size > 0 && WellKept(m)
    decreases |ops|
  {
    if ops == [] then (m, [])
    else
      var (n, a) := ModelStep(cfg, m, ops[0]);
      var (t, as') := ModelRun(cfg, n, ops[1..]);
      (t, [a] + as')
  }

  /** For every configuration and every run the answers are those of the map. */
  lemma {:induction false} RunIs(cfg: Config, rs: seq<Record>, m: Model, ops: seq<Op>)
    requires cfg.size > 0 && Holds(cfg, rs, m)
    ensures WellKept(m)
    ensures var (s, answers) := Run(cfg, rs, ops);
      Holds(cfg, s, ModelRun(cfg, m, ops).0) && ModelRun(cfg, m, ops).1 == answers
    decreases |ops|
  {
    hide Step, ModelStep, Holds, WellKept;
    Kept(cfg, rs, m);
    if ops != [] {
      StepIs(cfg, rs, m, ops[0]);
      RunIs(cfg, Step(cfg, rs, ops[0]).0, ModelStep(cfg, m, ops[0]).0, ops[1..]);
    }
  }

  lemma Started(cfg: Config)
    ensures Holds(cfg, [], NOTHING)
  {
  }

  /** The map of a list without repeated keys. */
  ghost function ModelOf(cfg: Config, rs: seq<Record>): (m: Model)
    requires DistinctKeys(cfg, rs)
    ensures Holds(cfg, rs, m)
  {
    if rs == [] then NOTHING
    else
      var last := |rs| - 1;
      var m := ModelOf(cfg, rs[..last]);
      assert cfg.Fold(rs[last].key) !in m.slots by { NewKey(cfg, rs, m); }
      HoldsAppended(cfg, rs[..last], m, rs[last]);
      assert rs[..last] + [rs[last]] == rs;
      Model(m.order + [cfg.Fold(rs[last].key)], m.slots[cfg.Fold(rs[last].key) := SlotOf(rs[last])])
  }

  lemma NewKey(cfg: Config, rs: seq<Record>, m: Model)
    requires rs != [] && DistinctKeys(cfg, rs) && Holds(cfg, rs[..|rs| - 1], m)
    ensures cfg.Fold(rs[|rs| - 1].key) !in m.slots
  {
    hide Config.Fold;
    assert forall i :: 0 <= i < |rs| - 1 ==> rs[..|rs| - 1][i] == rs[i];
  }

  // ----- what follows for an owner

  /** A value that was added is there for as long as it may live, and not longer; looking for it later than that
      removes it, and adding it again starts its time again. */
  lemma LivesItsTime(cfg: Config, m: Model, key: string, val: Value, at: int, random: nat, now: int)
    requires cfg.size > 0 && WellKept(m) && key != ""
    ensures var t := ModelStep(cfg, m, OpAdd(key, val, at, random)).0;
      && WellKept(t)
      && var (u, a) := ModelStep(cfg, t, OpGet(key, now));
         && a == Got(if cfg.ttl <= 0 || now - at <= cfg.ttl then Some(val) else None)
         && (cfg.Fold(key) in u.slots <==> cfg.ttl <= 0 || now - at <= cfg.ttl)
         && (forall k :: k != cfg.Fold(key) ==> (k in u.slots <==> k in t.slots))
         && (forall k :: k != cfg.Fold(key) && k in t.slots ==> u.slots[k] == t.slots[k])
  {
    hide Config.Fold, Coldest, Without, Evicted;
  }
}
