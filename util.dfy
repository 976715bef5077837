/**
 * Util.group_count: how often each element occurs in a list, as a Ruby hash
 * whose keys come in the order of their first occurrence.
 */
module Util {

  /** Each element of `list` mapped to its number of occurrences. */
  function GroupCount<T(==)>(list: seq<T>): map<T, nat>
  {
    if list == [] then map[]
    else
      var k := |list| - 1;
      var m := GroupCount(list[..k]);
      m[list[k] := (if list[k] in m then m[list[k]] else 0) + 1]
  }

  /** The distinct elements of `list`, in the order of first occurrence (the hash's key order). */
  function Uniq<T(==)>(list: seq<T>): seq<T>
  {
    if list == [] then []
    else
      var k := |list| - 1;
      if list[k] in list[..k] then Uniq(list[..k]) else Uniq(list[..k]) + [list[k]]
  }

  /** Appending an element adds it to the distinct elements unless it was there already. */
  lemma UniqSnoc<T>(list: seq<T>, x: T)
    ensures Uniq(list + [x]) == if x in list then Uniq(list) else Uniq(list) + [x]
  {
    assert (list + [x])[..|list|] == list;
  }

  /** The counts of `keys` in `m`, added up (0 for a key `m` lacks). */
  function SumCounts<T(==)>(m: map<T, nat>, keys: seq<T>): nat
  {
    if keys == [] then 0
    else
      var k := |keys| - 1;
      SumCounts(m, keys[..k]) + (if keys[k] in m then m[keys[k]] else 0)
  }

  /**
   * The keys are exactly the elements of the list; each key's count is its
   * number of occurrences, so at least 1.
   */
  lemma {:induction false} GroupCountSpec<T>(list: seq<T>)
    ensures forall x :: x in GroupCount(list) <==> x in list
    ensures forall x :: x in GroupCount(list) ==> GroupCount(list)[x] == multiset(list)[x] >= 1
  {
    if list != [] {
      var k := |list| - 1;
      GroupCountSpec(list[..k]);
      assert list == list[..k] + [list[k]];
      assert multiset(list) == multiset(list[..k]) + multiset{list[k]};
    }
  }

  /** The key order lists every element once. */
  lemma {:induction false} UniqSpec<T>(list: seq<T>)
    ensures forall x :: x in Uniq(list) <==> x in list
    ensures forall i, j :: 0 <= i < j < |Uniq(list)| ==> Uniq(list)[i] != Uniq(list)[j]
  {
    if list != [] {
      var k := |list| - 1;
      UniqSpec(list[..k]);
      assert list == list[..k] + [list[k]];
    }
  }

  lemma {:induction false} SumCountsOther<T>(m: map<T, nat>, keys: seq<T>, x: T, v: nat)
    requires x !in keys
    ensures SumCounts(m[x := v], keys) == SumCounts(m, keys)
  {
    if keys != [] {
      var k := |keys| - 1;
      assert keys[k] in keys;
      assert forall y :: y in keys[..k] ==> y in keys;
      SumCountsOther(m, keys[..k], x, v);
    }
  }

  lemma {:induction false} SumCountsBump<T>(m: map<T, nat>, keys: seq<T>, x: T)
    requires x in m && x in keys
    requires forall i, j :: 0 <= i < j < |keys| ==> keys[i] != keys[j]
    ensures SumCounts(m[x := m[x] + 1], keys) == SumCounts(m, keys) + 1
  {
    var k := |keys| - 1;
    assert keys == keys[..k] + [keys[k]];
    if keys[k] == x {
      assert x !in keys[..k];
      SumCountsOther(m, keys[..k], x, m[x] + 1);
    } else {
      assert x in keys[..k];
      SumCountsBump(m, keys[..k], x);
    }
  }

  /** The counts add up to the length of the list. */
  lemma {:induction false} GroupCountTotal<T>(list: seq<T>)
    ensures SumCounts(GroupCount(list), Uniq(list)) == |list|
  {
    if list != [] {
      var k := |list| - 1;
      var x := list[k];
      var m := GroupCount(list[..k]);
      GroupCountTotal(list[..k]);
      GroupCountSpec(list[..k]);
      UniqSpec(list[..k]);
      if x in list[..k] {
        SumCountsBump(m, Uniq(list[..k]), x);
      } else {
        SumCountsOther(m, Uniq(list[..k]), x, 1);
      }
    }
  }
}
