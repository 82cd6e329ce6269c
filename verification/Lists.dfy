/** Lists without repetition and unlinking an element of one, sums, and strings cut into pieces. */
module Lists {

  function RemoveAt<T>(s: seq<T>, i: nat): (r: seq<T>)
    requires i < |s|
    ensures |r| == |s| - 1
  {
    s[..i] + s[i + 1..]
  }

  ghost predicate NoDup<T>(s: seq<T>) { forall i, j :: 0 <= i < j < |s| ==> s[i] != s[j] }

  /** Unlinks an element of a list. */
  function Without<T(==)>(s: seq<T>, e: T): (r: seq<T>)
  {
    if s == [] then [] else if s[0] == e then s[1..] else [s[0]] + Without(s[1..], e)
  }

  lemma {:induction false} WithoutIs<T>(s: seq<T>, e: T) returns (i: nat)
    requires e in s && NoDup(s)
    ensures i < |s| && s[i] == e && Without(s, e) == RemoveAt(s, i) && |Without(s, e)| == |s| - 1
  {
    if s[0] == e {
      i := 0;
      assert RemoveAt(s, 0) == s[1..];
    } else {
      assert NoDup(s[1..]);
      var j := WithoutIs(s[1..], e);
      i := j + 1;
      assert RemoveAt(s, i) == [s[0]] + RemoveAt(s[1..], j);
    }
  }

  lemma RemoveAtNoDup<T>(s: seq<T>, i: nat)
    requires i < |s| && NoDup(s)
    ensures NoDup(RemoveAt(s, i)) && s[i] !in RemoveAt(s, i)
    ensures forall x <- RemoveAt(s, i) :: x in s
    ensures forall x <- s :: x != s[i] ==> x in RemoveAt(s, i)
  {
    var r := RemoveAt(s, i);
    forall j | 0 <= j < |r| ensures r[j] in s && r[j] != s[i] {
      assert r[j] == s[if j < i then j else j + 1];
    }
    forall j, k | 0 <= j < k < |r| ensures r[j] != r[k] {
      assert r[j] == s[if j < i then j else j + 1] && r[k] == s[if k < i then k else k + 1];
    }
    forall x | x in s && x != s[i] ensures x in r {
      var j :| 0 <= j < |s| && s[j] == x;
      assert r[if j < i then j else j - 1] == x;
    }
  }

  lemma WithoutNoDup<T>(s: seq<T>, e: T)
    requires e in s && NoDup(s)
    ensures NoDup(Without(s, e)) && |Without(s, e)| == |s| - 1
    ensures e !in Without(s, e) && forall x <- Without(s, e) :: x in s
    ensures forall x <- s :: x != e ==> x in Without(s, e)
  {
    hide Without;
    var i := WithoutIs(s, e);
    RemoveAtNoDup(s, i);
  }

  function Sum(s: seq<nat>): nat { if s == [] then 0 else s[0] + Sum(s[1..]) }

  lemma {:induction false} SumUpdate(s: seq<nat>, i: nat, n: nat)
    requires i < |s|
    ensures Sum(s[i := n]) == Sum(s) - s[i] + n
  {
    if i == 0 {
      assert s[0 := n][1..] == s[1..];
    } else {
      assert s[i := n][1..] == s[1..][i - 1 := n];
      SumUpdate(s[1..], i - 1, n);
    }
  }

  lemma {:induction false} ZeroSum(s: seq<nat>)
    requires forall i :: 0 <= i < |s| ==> s[i] == 0
    ensures Sum(s) == 0
  {
    if s != [] { ZeroSum(s[1..]); }
  }

  /** The pieces one after the other. */
  function Concat<T>(pieces: seq<seq<T>>): seq<T>
  {
    if pieces == [] then [] else pieces[0] + Concat(pieces[1..])
  }

  lemma {:induction false} ConcatPrefix<T>(pieces: seq<seq<T>>, i: nat)
    requires i < |pieces|
    ensures Concat(pieces[..i + 1]) == Concat(pieces[..i]) + pieces[i] <= Concat(pieces)
  {
    if i == 0 {
      assert pieces[..1] == [pieces[0]] && pieces[..1][1..] == [];
      assert Concat(pieces[..1]) == pieces[0] + Concat([]) == pieces[0];
      assert Concat(pieces[..0]) + pieces[0] == pieces[0];
    } else {
      assert pieces[..i + 1][1..] == pieces[1..][..i] && pieces[..i][1..] == pieces[1..][..i - 1];
      ConcatPrefix(pieces[1..], i - 1);
      var first, middle, last := pieces[0], Concat(pieces[1..][..i - 1]), pieces[i];
      assert first + (middle + last) == first + middle + last;
    }
  }

  lemma Regrouped<T>(a: seq<T>, b: seq<T>, c: seq<T>)
    ensures a + (b + c) == a + b + c
  {
  }

  lemma Later<T>(s: seq<T>, i: nat, j: nat)
    requires i + j <= |s|
    ensures s[i..][j..] == s[i + j..]
  {
  }
}
