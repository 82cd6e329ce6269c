/**
  How entries are linked: every entry is in one bucket chain and in the global list, with a counter
  per chain and a total. These facts are about the links only, not about the heap.
 */
module HashChains {
  import opened Lists
  import opened HashSpec

  class Entry {
    const key: string
    const hash: nat
    const chain: nat
    var val: Value
    var hits: nat
    var created: int

    constructor (key: string, hash: nat, chain: nat, val: Value, now: int)
      ensures this.key == key && this.hash == hash && this.chain == chain
      ensures this.val == val && hits == 0 && created == now
    {
      this.key, this.hash, this.chain, this.val := key, hash, chain, val;
      hits, created := 0, now;
    }

    function View(): Record
      reads this
    {
      Record(key, val, hits, created)
    }
  }

  /** Chain number `i` holds exactly the entries that belong there, once each. */
  ghost predicate ChainHolds(i: nat, chain: seq<Entry>, entries: seq<Entry>)
  {
    && NoDup(chain)
    && (forall e :: e in chain ==> e in entries && e.chain == i)
    && (forall e :: e in entries && e.chain == i ==> e in chain)
  }

  /** Every entry is in the chain of its hash and once in the list of all entries; chain counters
      are chain lengths and the total is their sum. */
  ghost predicate Linked(chains: seq<seq<Entry>>, counts: seq<nat>, total: nat, entries: seq<Entry>)
  {
    && |chains| == |counts| > 0 && NoDup(entries)
    && (forall i :: 0 <= i < |chains| ==> counts[i] == |chains[i]| && ChainHolds(i, chains[i], entries))
    && (forall e :: e in entries ==> e.chain < |chains|)
    && total == |entries| == Sum(counts)
  }

  lemma LinkNew(chains: seq<seq<Entry>>, counts: seq<nat>, total: nat, entries: seq<Entry>, e: Entry)
    requires Linked(chains, counts, total, entries) && e !in entries && e.chain < |chains|
    ensures var c := e.chain;
      Linked(chains[c := chains[c] + [e]], counts[c := counts[c] + 1], total + 1, entries + [e])
  {
    hide Sum;
    var c := e.chain;
    var chains', entries' := chains[c := chains[c] + [e]], entries + [e];
    SumUpdate(counts, c, counts[c] + 1);
    forall i | 0 <= i < |chains| ensures ChainHolds(i, chains'[i], entries') {
      assert ChainHolds(i, chains[i], entries);
    }
  }

  lemma UnlinkOne(chains: seq<seq<Entry>>, counts: seq<nat>, total: nat, entries: seq<Entry>, e: Entry)
    requires Linked(chains, counts, total, entries) && e in entries
    ensures var c := e.chain;
      && counts[c] > 0 && total > 0
      && Linked(chains[c := Without(chains[c], e)], counts[c := counts[c] - 1], total - 1, Without(entries, e))
  {
    hide Sum, Without;
    var c := e.chain;
    assert ChainHolds(c, chains[c], entries);
    WithoutNoDup(chains[c], e);
    WithoutNoDup(entries, e);
    var chains', entries' := chains[c := Without(chains[c], e)], Without(entries, e);
    SumUpdate(counts, c, counts[c] - 1);
    forall i | 0 <= i < |chains| ensures ChainHolds(i, chains'[i], entries') {
      assert ChainHolds(i, chains[i], entries);
    }
  }
}
