/** Small shared vocabulary: an option type and two facts about sequences. */
module Prelude {

  datatype Option<+T> = None | Some(value: T)

  ghost predicate NoDup<T>(s: seq<T>) {
    forall i, j :: 0 <= i < j < |s| ==> s[i] != s[j]
  }

  /** `s` without the first occurrence of `x`. */
  function RemoveFirst<T(==)>(s: seq<T>, x: T): seq<T> {
    if s == [] then [] else if s[0] == x then s[1..] else [s[0]] + RemoveFirst(s[1..], x)
  }

  lemma {:induction false} RemoveFirstAt<T>(s: seq<T>, k: nat)
    requires k < |s|
    requires forall i :: 0 <= i < k ==> s[i] != s[k]
    ensures RemoveFirst(s, s[k]) == s[..k] + s[k + 1..]
  {
    if k > 0 {
      RemoveFirstAt(s[1..], k - 1);
      assert s[1..][..k - 1] == s[1..k];
      assert s[1..][k..] == s[k + 1..];
    }
  }

  lemma RemoveFirstIndex<T>(s: seq<T>, k: nat)
    requires NoDup(s) && k < |s|
    ensures |RemoveFirst(s, s[k])| == |s| - 1
    ensures forall i :: 0 <= i < |s| - 1 ==> RemoveFirst(s, s[k])[i] == s[if i < k then i else i + 1]
  {
    RemoveFirstAt(s, k);
  }

  lemma RemoveFirstMembers<T>(s: seq<T>, x: T)
    requires NoDup(s) && x in s
    ensures NoDup(RemoveFirst(s, x))
    ensures forall y :: y in RemoveFirst(s, x) <==> y in s && y != x
  {
    var k :| 0 <= k < |s| && s[k] == x;
    RemoveFirstAt(s, k);
    var r := s[..k] + s[k + 1..];
    forall y | y in s && y != x
      ensures y in r
    {
      var i :| 0 <= i < |s| && s[i] == y;
      assert r[if i < k then i else i - 1] == y;
    }
  }

  function Sum(s: seq<nat>): nat {
    if s == [] then 0 else s[0] + Sum(s[1..])
  }

  lemma {:induction false} SumUpdate(s: seq<nat>, k: nat, v: nat)
    requires k < |s|
    ensures Sum(s[k := v]) == Sum(s) - s[k] + v
  {
    if k == 0 {
      assert s[k := v][1..] == s[1..];
    } else {
      assert s[k := v][1..] == s[1..][k - 1 := v];
      SumUpdate(s[1..], k - 1, v);
    }
  }
}
