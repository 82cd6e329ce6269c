/**
  The filter chain: records are accounted for at every filter, and each intermediate buffer is
  released when the next one replaces it.
 */
module Filter {
  import opened Lists

  /** The caller's data, nothing, or the buffer made by the filter with that position. */
  datatype Buffer = Caller | Null | Made(filter: nat)

  /** What a filter callback does: leave the data alone, or replace it by `size` bytes holding
      `records` records, in a buffer of its own or, when nothing is left, in none. */
  datatype Reply = NoTouch | Modified(size: nat, records: nat, nullBuffer: bool)

  datatype FilterInstance = FilterInstance(active: bool, matches: bool, reply: Reply)

  predicate Modifies(f: FilterInstance) { f.active && f.matches && f.reply.Modified? }

  function BufferOf(f: FilterInstance, i: nat): Buffer
    requires f.reply.Modified?
  {
    if f.reply.size == 0 && f.reply.nullBuffer then Null else Made(i)
  }

  /** The records that are left of `n`. */
  function Surviving(fs: seq<FilterInstance>, n: nat): nat
  {
    if fs == [] then n
    else if !Modifies(fs[0]) then Surviving(fs[1..], n)
    else if fs[0].reply.size == 0 then 0
    else Surviving(fs[1..], fs[0].reply.records)
  }

  /** Whether some filter took everything away. */
  predicate Wiped(fs: seq<FilterInstance>)
  {
    fs != [] && ((Modifies(fs[0]) && fs[0].reply.size == 0) || Wiped(fs[1..]))
  }

  lemma {:induction false} SurvivingSnoc(fs: seq<FilterInstance>, f: FilterInstance, n: nat)
    ensures Wiped(fs) ==> Surviving(fs, n) == 0
    ensures Wiped(fs + [f]) == (Wiped(fs) || (Modifies(f) && f.reply.size == 0))
    ensures Surviving(fs + [f], n) == if Wiped(fs) || (Modifies(f) && f.reply.size == 0) then 0
                                      else if Modifies(f) then f.reply.records else Surviving(fs, n)
  {
    if fs == [] {
      assert [f][1..] == [] && fs + [f] == [f];
    } else {
      assert (fs + [f])[1..] == fs[1..] + [f] && (fs + [f])[0] == fs[0];
      SurvivingSnoc(fs[1..], f, n);
      if Modifies(fs[0]) { SurvivingSnoc(fs[1..], f, fs[0].reply.records); }
    }
  }

  /** What the counters of one filter say: records in, plus added, minus dropped, are records out. */
  ghost predicate Balanced(fs: seq<FilterInstance>, n: nat, i: nat, added: nat, dropped: nat)
    requires i < |fs|
  {
    Surviving(fs[..i], n) + added == Surviving(fs[..i + 1], n) + dropped && (added == 0 || dropped == 0)
  }

  lemma BalancedIdle(fs: seq<FilterInstance>, n: nat, i: nat)
    requires i < |fs| && (Wiped(fs[..i]) || !Modifies(fs[i]))
    ensures Balanced(fs, n, i, 0, 0)
    ensures Wiped(fs[..i]) ==> Wiped(fs[..i + 1])
  {
    hide Surviving, Wiped;
    assert fs[..i + 1] == fs[..i] + [fs[i]];
    SurvivingSnoc(fs[..i], fs[i], n);
  }

  lemma {:induction false} BalancedAfter(fs: seq<FilterInstance>, n: nat, i: nat, j: nat)
    requires i <= j < |fs| && Wiped(fs[..i])
    ensures Balanced(fs, n, j, 0, 0) && Wiped(fs[..j])
    decreases j
  {
    if i < j { BalancedAfter(fs, n, i, j - 1); BalancedIdle(fs, n, j - 1); }
    BalancedIdle(fs, n, j);
  }

  /** The buffers the filters from position `i` on make, in order; nothing runs after data is gone. */
  function Buffers(fs: seq<FilterInstance>, i: nat): (bs: seq<Buffer>)
    requires i <= |fs|
    decreases |fs| - i
  {
    if i == |fs| then []
    else if !Modifies(fs[i]) then Buffers(fs, i + 1)
    else if fs[i].reply.size == 0 then [BufferOf(fs[i], i)]
    else [BufferOf(fs[i], i)] + Buffers(fs, i + 1)
  }

  /** The size of what the filters leave: that of the last reply that replaced the data. */
  function SizeLeft(fs: seq<FilterInstance>, n: nat): nat
  {
    if fs == [] then n
    else if !Modifies(fs[0]) then SizeLeft(fs[1..], n)
    else if fs[0].reply.size == 0 then 0
    else SizeLeft(fs[1..], fs[0].reply.size)
  }

  lemma {:induction false} SizeSnoc(fs: seq<FilterInstance>, f: FilterInstance, n: nat)
    requires !Wiped(fs)
    ensures SizeLeft(fs + [f], n) == if Modifies(f) then f.reply.size else SizeLeft(fs, n)
  {
    if fs == [] {
      assert [f][1..] == [] && fs + [f] == [f];
    } else {
      assert (fs + [f])[1..] == fs[1..] + [f] && (fs + [f])[0] == fs[0];
      SizeSnoc(fs[1..], f, if Modifies(fs[0]) then fs[0].reply.size else n);
    }
  }

  lemma {:induction false} SizeGone(fs: seq<FilterInstance>, n: nat)
    requires Wiped(fs)
    ensures SizeLeft(fs, n) == 0
  {
    if !(Modifies(fs[0]) && fs[0].reply.size == 0) {
      SizeGone(fs[1..], if Modifies(fs[0]) then fs[0].reply.size else n);
    }
  }

  /** The size with the filter at `i`, after filters that left something. */
  lemma SizeTaken(fs: seq<FilterInstance>, n: nat, i: nat)
    requires i < |fs| && !Wiped(fs[..i])
    ensures SizeLeft(fs[..i + 1], n) == if Modifies(fs[i]) then fs[i].reply.size else SizeLeft(fs[..i], n)
  {
    assert fs[..i + 1] == fs[..i] + [fs[i]];
    SizeSnoc(fs[..i], fs[i], n);
  }

  /** All different, none is the caller's, and only the last can be missing. */
  ghost predicate Distinct(bs: seq<Buffer>, i: nat)
  {
    && (forall j :: 0 <= j < |bs| ==> bs[j] != Caller && (bs[j].Made? ==> i <= bs[j].filter))
    && (forall j :: 0 <= j < |bs| - 1 ==> bs[j].Made?)
    && (forall j, k :: 0 <= j < k < |bs| ==> bs[j] != bs[k])
  }

  lemma DistinctCons(bs: seq<Buffer>, i: nat)
    requires Distinct(bs, i + 1)
    ensures Distinct(bs, i) && Distinct([Made(i)] + bs, i)
  {
    var cs := [Made(i)] + bs;
    assert forall j :: 0 < j < |cs| ==> cs[j] == bs[j - 1];
  }

  lemma {:induction false} BuffersDiffer(fs: seq<FilterInstance>, i: nat)
    requires i <= |fs|
    ensures Distinct(Buffers(fs, i), i)
    decreases |fs| - i
  {
    if i < |fs| {
      BuffersDiffer(fs, i + 1);
      DistinctCons(Buffers(fs, i + 1), i);
    }
  }

  /** The chunk whose new records are being filtered. */
  class InputChunk {
    var addedRecords: nat
    var totalRecords: nat

    constructor (earlier: nat, added: nat)
      ensures addedRecords == added && totalRecords == earlier + added
    {
      addedRecords, totalRecords := added, earlier + added;
    }
  }

  /** Runs the chain over the newly added records of a chunk. Per filter, `added` and `dropped` are
      its record counters; `freed` are the buffers released, in order. */
  method FilterDo(ic: InputChunk, bytes: nat, fs: seq<FilterInstance>)
      returns (data: Buffer, size: nat, added: seq<nat>, dropped: seq<nat>, freed: seq<Buffer>)
    requires ic.addedRecords <= ic.totalRecords
    modifies ic`totalRecords
    ensures var n, bs := Surviving(fs, ic.addedRecords), Buffers(fs, 0);
      && |added| == |dropped| == |fs| && ic.addedRecords + Sum(added) - Sum(dropped) == n
      && (forall i :: 0 <= i < |fs| ==> Balanced(fs, ic.addedRecords, i, added[i], dropped[i]))
      && ic.totalRecords == old(ic.totalRecords) - ic.addedRecords + n
      && size == SizeLeft(fs, bytes)
      && (if bs == [] then data == Caller && freed == [] else data == bs[|bs| - 1] && freed == bs[..|bs| - 1])
  {
    hide Sum, Surviving, Buffers, Wiped, Balanced, SizeLeft;
    data, size, freed := Caller, bytes, [];
    added, dropped := seq<nat>(|fs|, _ => 0), seq<nat>(|fs|, _ => 0);
    ZeroSum(added);
    ZeroSum(dropped);
    var inRecords: nat := ic.addedRecords;
    var preRecords: nat := ic.totalRecords - inRecords;
    assert fs[0..] == fs && fs[..0] == [];
    AtEnd(fs, inRecords);
    AtEnd(fs, bytes);
    for i := 0 to |fs|
      invariant |added| == |dropped| == |fs|
      invariant forall j :: i <= j < |fs| ==> added[j] == 0 && dropped[j] == 0
      invariant ic.addedRecords + Sum(added) - Sum(dropped) == inRecords
      invariant ic.totalRecords == preRecords + inRecords
      invariant inRecords == Surviving(fs[..i], ic.addedRecords) && !Wiped(fs[..i])
      invariant forall j :: 0 <= j < i ==> Balanced(fs, ic.addedRecords, j, added[j], dropped[j])
      invariant size == SizeLeft(fs[..i], bytes) && (data == Caller ==> freed == [])
      invariant Buffers(fs, 0) == freed + (if data == Caller then [] else [data]) + Buffers(fs, i)
    {
      Unfold(fs, i);
      var f := fs[i];
      Taken(fs, ic.addedRecords, i);
      SizeTaken(fs, bytes, i);
      if !f.active {
        continue;
      }
      if f.matches {
        if f.reply.Modified? {
          ghost var before := freed + if data == Caller then [] else [data];
          if data != Caller {
            freed := freed + [data];
          }
          assert freed == before;
          data, size := BufferOf(f, i), f.reply.size;
          assert data != Caller;
          if size == 0 {
            ic.totalRecords := preRecords;
            SumUpdate(dropped, i, inRecords);
            dropped := dropped[i := inRecords];
            assert Buffers(fs, 0) == freed + [data];
            AllGone(fs, ic.addedRecords, i, added, dropped);
            SizeGone(fs, bytes);
            return;
          }
          var outRecords := f.reply.records;
          added, dropped := CountDifference(added, dropped, i, inRecords, outRecords);
          inRecords := outRecords;
          ic.totalRecords := preRecords + inRecords;
          Regrouped(freed, [data], Buffers(fs, i + 1));
        }
      }
    }
    assert fs[..|fs|] == fs;
    AtEnd(fs, inRecords);
    assert freed + [data] + [] == freed + [data];
  }

  /** The record counters of one filter. */
  method CountDifference(added: seq<nat>, dropped: seq<nat>, i: nat, inRecords: nat, outRecords: nat)
      returns (a: seq<nat>, d: seq<nat>)
    requires i < |added| == |dropped| && added[i] == dropped[i] == 0
    ensures |a| == |added| && |d| == |dropped|
    ensures forall j :: 0 <= j < |a| && j != i ==> a[j] == added[j] && d[j] == dropped[j]
    ensures a[i] + inRecords == d[i] + outRecords && (a[i] == 0 || d[i] == 0)
    ensures Sum(a) - Sum(d) == Sum(added) - Sum(dropped) + outRecords - inRecords
  {
    hide Sum;
    a, d := added, dropped;
    if outRecords > inRecords {
      SumUpdate(added, i, outRecords - inRecords);
      a := added[i := outRecords - inRecords];
    } else if outRecords < inRecords {
      SumUpdate(dropped, i, inRecords - outRecords);
      d := dropped[i := inRecords - outRecords];
    }
  }

  lemma Unfold(fs: seq<FilterInstance>, i: nat)
    requires i < |fs|
    ensures Buffers(fs, i) == (if !Modifies(fs[i]) then Buffers(fs, i + 1)
                               else if fs[i].reply.size == 0 then [BufferOf(fs[i], i)]
                               else [BufferOf(fs[i], i)] + Buffers(fs, i + 1))
  {
  }

  lemma AtEnd(fs: seq<FilterInstance>, n: nat)
    ensures Surviving([], n) == n && SizeLeft([], n) == n && !Wiped([]) && Buffers(fs, |fs|) == []
  {
  }

  /** The effect of the filter at `i`, after filters that left something. */
  lemma Taken(fs: seq<FilterInstance>, n: nat, i: nat)
    requires i < |fs| && !Wiped(fs[..i])
    ensures var m := Surviving(fs[..i], n);
      var out := if !Modifies(fs[i]) then m else if fs[i].reply.size == 0 then 0 else fs[i].reply.records;
      && Surviving(fs[..i + 1], n) == out
      && Wiped(fs[..i + 1]) == (Modifies(fs[i]) && fs[i].reply.size == 0)
      && forall a: nat, d: nat :: m + a == out + d && (a == 0 || d == 0) ==> Balanced(fs, n, i, a, d)
  {
    hide Surviving, Wiped;
    assert fs[..i + 1] == fs[..i] + [fs[i]];
    SurvivingSnoc(fs[..i], fs[i], n);
  }

  /** After the filter at `i` took everything nothing is counted any more. */
  lemma AllGone(fs: seq<FilterInstance>, n: nat, i: nat, added: seq<nat>, dropped: seq<nat>)
    requires i < |fs| == |added| == |dropped| && Wiped(fs[..i + 1])
    requires forall j :: 0 <= j <= i ==> Balanced(fs, n, j, added[j], dropped[j])
    requires forall j :: i < j < |fs| ==> added[j] == dropped[j] == 0
    ensures forall j :: 0 <= j < |fs| ==> Balanced(fs, n, j, added[j], dropped[j])
    ensures Surviving(fs, n) == 0 && Wiped(fs)
  {
    hide Balanced, Surviving, Wiped;
    forall j | i < j < |fs| ensures Balanced(fs, n, j, added[j], dropped[j]) {
      BalancedAfter(fs, n, i + 1, j);
    }
    var k := |fs| - 1;
    if i < k { BalancedAfter(fs, n, i + 1, k); BalancedIdle(fs, n, k); }
    assert fs[..k + 1] == fs;
    SurvivingSnoc(fs, fs[0], n);
  }

  /** So every superseded buffer is released exactly once, and neither the caller's data nor the
      result ever is. */
  lemma ReleasedOnce(fs: seq<FilterInstance>)
    ensures var bs := Buffers(fs, 0);
      bs != [] ==>
        var freed := bs[..|bs| - 1];
        && Caller !in freed && Null !in freed && bs[|bs| - 1] !in freed
        && forall j, k :: 0 <= j < k < |freed| ==> freed[j] != freed[k]
  {
    BuffersDiffer(fs, 0);
  }

  // ----- what the chain leaves, told by the replies

  /** A filter that is not active, that the tag does not match, or that left the data alone. */
  predicate Inert(f: FilterInstance) { !f.active || !f.matches || f.reply == NoTouch }

  /** A filter that ran and took everything away. */
  predicate Wipes(f: FilterInstance) { !Inert(f) && f.reply.size == 0 }

  /** From `k` on the first filter that took everything away is the one at `i`, or `i` is the end. */
  ghost predicate RunsTo(fs: seq<FilterInstance>, k: nat, i: nat)
  {
    k <= i <= |fs| && (forall j :: k <= j < i ==> !Wipes(fs[j])) && (i < |fs| ==> Wipes(fs[i]))
  }

  /** Inert filters change nothing. */
  lemma {:induction false} NothingTouched(fs: seq<FilterInstance>, n: nat)
    requires forall f <- fs :: Inert(f)
    ensures Surviving(fs, n) == n && SizeLeft(fs, n) == n
  {
    if fs != [] {
      assert Inert(fs[0]);
      NothingTouched(fs[1..], n);
    }
  }

  lemma {:induction false} NothingMade(fs: seq<FilterInstance>, k: nat)
    requires k <= |fs| && forall j :: k <= j < |fs| ==> Inert(fs[j])
    ensures Buffers(fs, k) == []
    decreases |fs| - k
  {
    if k < |fs| { NothingMade(fs, k + 1); }
  }

  /** The last filter that replaced the data decides: its records, its size and its buffer are what is left. */
  lemma {:induction false} LastReply(fs: seq<FilterInstance>, n: nat, bytes: nat, i: nat)
    requires i < |fs| && !Inert(fs[i]) && RunsTo(fs, 0, |fs|) && forall j :: i < j < |fs| ==> Inert(fs[j])
    ensures Surviving(fs, n) == fs[i].reply.records && SizeLeft(fs, bytes) == fs[i].reply.size
    decreases i
  {
    assert !Wipes(fs[0]);
    var t := fs[1..];
    if i == 0 {
      NothingTouched(t, fs[0].reply.records);
      NothingTouched(t, fs[0].reply.size);
    } else {
      assert forall j :: 0 <= j < |t| ==> t[j] == fs[j + 1];
      if Inert(fs[0]) {
        LastReply(t, n, bytes, i - 1);
      } else {
        LastReply(t, fs[0].reply.records, fs[0].reply.size, i - 1);
      }
    }
  }

  lemma {:induction false} LastMade(fs: seq<FilterInstance>, k: nat, i: nat)
    requires k <= i < |fs| && !Inert(fs[i]) && RunsTo(fs, k, |fs|) && forall j :: i < j < |fs| ==> Inert(fs[j])
    ensures Buffers(fs, k) != [] && Buffers(fs, k)[|Buffers(fs, k)| - 1] == Made(i)
    decreases i - k
  {
    assert !Wipes(fs[k]);
    if k < i { LastMade(fs, k + 1, i); } else { NothingMade(fs, i + 1); }
  }

  /** After a filter that took everything away nothing is left, and no later filter runs. */
  lemma {:induction false} AllTaken(fs: seq<FilterInstance>, n: nat, bytes: nat, i: nat)
    requires i < |fs| && RunsTo(fs, 0, i)
    ensures Surviving(fs, n) == 0 && SizeLeft(fs, bytes) == 0
    decreases i
  {
    if i > 0 {
      assert !Wipes(fs[0]);
      var t := fs[1..];
      assert forall j :: 0 <= j < |t| ==> t[j] == fs[j + 1];
      if Inert(fs[0]) {
        AllTaken(t, n, bytes, i - 1);
      } else {
        AllTaken(t, fs[0].reply.records, fs[0].reply.size, i - 1);
      }
    }
  }

  lemma {:induction false} TakenLast(fs: seq<FilterInstance>, k: nat, i: nat)
    requires i < |fs| && RunsTo(fs, k, i)
    ensures Buffers(fs, k) != []
    ensures Buffers(fs, k)[|Buffers(fs, k)| - 1] == if fs[i].reply.nullBuffer then Null else Made(i)
    decreases i - k
  {
    assert k < i ==> !Wipes(fs[k]);
    if k < i { TakenLast(fs, k + 1, i); }
  }

  /** Of the filters that ran, all but the last one have their buffers released, in order. */
  lemma {:induction false} MadeBy(fs: seq<FilterInstance>, k: nat, i: nat)
    requires RunsTo(fs, k, i)
    ensures forall j: nat :: Made(j) in Buffers(fs, k) <==>
      k <= j <= i && j < |fs| && !Inert(fs[j]) && !(j == i && fs[j].reply.nullBuffer)
    decreases i - k
  {
    if k < i {
      assert !Wipes(fs[k]);
      MadeBy(fs, k + 1, i);
    }
  }

  /** The filter that decides: the first that took everything away, or else the last that replaced the data;
      -1 if all are inert. */
  function Decider(fs: seq<FilterInstance>): (d: int)
    ensures -1 <= d < |fs| && (d >= 0 ==> !Inert(fs[d]))
    ensures RunsTo(fs, 0, if d >= 0 && Wipes(fs[d]) then d else |fs|)
    ensures (d >= 0 && Wipes(fs[d])) || forall j :: d < j < |fs| ==> Inert(fs[j])
  {
    if fs == [] then -1
    else if Wipes(fs[0]) then 0
    else
      assert forall j :: 0 < j < |fs| ==> fs[j] == fs[1..][j - 1];
      var d := Decider(fs[1..]);
      if d >= 0 then d + 1 else if Inert(fs[0]) then -1 else 0
  }

  /** What the chain hands on, for every chain: the caller's data if no filter replaced it, the last buffer
      otherwise, and nothing once a filter took everything away; every other buffer is released. */
  method HandOn(n: nat, bytes: nat, fs: seq<FilterInstance>)
      returns (data: Buffer, size: nat, records: nat, freed: seq<Buffer>)
    ensures var last := Decider(fs);
      && (last < 0 ==> data == Caller && size == bytes && records == n && freed == [])
      && (last >= 0 && fs[last].reply.size > 0 ==>
            data == Made(last) && size == fs[last].reply.size && records == fs[last].reply.records)
      && (last >= 0 && fs[last].reply.size == 0 ==>
            data == (if fs[last].reply.nullBuffer then Null else Made(last)) && size == 0 && records == 0)
      && forall j: nat :: Made(j) in freed <==> j < last && !Inert(fs[j])
  {
    hide Surviving, SizeLeft, Buffers, Wiped, Balanced, Sum;
    var ic := new InputChunk(0, n);
    var added, dropped;
    data, size, added, dropped, freed := FilterDo(ic, bytes, fs);
    records := ic.totalRecords;
    ghost var last := Decider(fs);
    if last < 0 {
      NothingTouched(fs, n);
      NothingTouched(fs, bytes);
      NothingMade(fs, 0);
    } else if Wipes(fs[last]) {
      AllTaken(fs, n, bytes, last);
      TakenLast(fs, 0, last);
      MadeBy(fs, 0, last);
      LastOnce(fs, last, freed);
    } else {
      LastReply(fs, n, bytes, last);
      LastMade(fs, 0, last);
      MadeBy(fs, 0, |fs|);
      LastOnce(fs, last, freed);
    }
  }

  lemma LastOnce(fs: seq<FilterInstance>, last: nat, freed: seq<Buffer>)
    requires Buffers(fs, 0) != [] && freed == Buffers(fs, 0)[..|Buffers(fs, 0)| - 1]
    ensures forall b :: b in freed <==> b in Buffers(fs, 0) && b != Buffers(fs, 0)[|Buffers(fs, 0)| - 1]
  {
    hide Buffers;
    ReleasedOnce(fs);
    var bs := Buffers(fs, 0);
    assert bs == freed + [bs[|bs| - 1]];
  }
}
