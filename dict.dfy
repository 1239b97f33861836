/** A Python `dict` with string keys, as an association list in insertion
    order (the order in which `for key in d` and `d.keys()` visit it). */
module Dict {
  import opened Types

  function Keys<V>(d: seq<(string, V)>): (ks: seq<string>)
    ensures |ks| == |d|
    ensures forall i :: 0 <= i < |d| ==> ks[i] == d[i].0
  {
    if d == [] then [] else [d[0].0] + Keys(d[1..])
  }

  /** The keys of a dictionary with one more entry at the end. */
  lemma KeysOfInit<V>(d: seq<(string, V)>)
    requires d != []
    ensures Keys(d) == Keys(d[..|d| - 1]) + [d[|d| - 1].0]
  {
    var ks := Keys(d[..|d| - 1]) + [d[|d| - 1].0];
    assert |ks| == |Keys(d)|;
    assert forall i :: 0 <= i < |d| ==> ks[i] == Keys(d)[i];
  }

  /** Python dictionaries never hold a key twice. */
  predicate DistinctKeys<V>(d: seq<(string, V)>)
  {
    forall i, j :: 0 <= i < j < |d| ==> d[i].0 != d[j].0
  }

  /** `d[key]`, with `None` where Python raises `KeyError`. */
  function Lookup<V>(d: seq<(string, V)>, key: string): (r: Option<V>)
    ensures r.None? <==> key !in Keys(d)
    ensures r.Some? ==> exists i :: 0 <= i < |d| && d[i] == (key, r.value)
  {
    if d == [] then None
    else if d[0].0 == key then Some(d[0].1)
    else Lookup(d[1..], key)
  }

  /** `Lookup` finds the first entry stored under a key. */
  lemma {:induction false} LookupFirst<V>(d: seq<(string, V)>, i: nat)
    requires i < |d| && forall j :: 0 <= j < i ==> d[j].0 != d[i].0
    ensures Lookup(d, d[i].0) == Some(d[i].1)
  {
    if i > 0 {
      assert d[0].0 != d[i].0;
      assert d[1..][i - 1] == d[i];
      LookupFirst(d[1..], i - 1);
    }
  }

  /** In a dictionary, the entry stored under a key is the one `Lookup` finds. */
  lemma LookupEntry<V>(d: seq<(string, V)>, i: nat)
    requires DistinctKeys(d) && i < |d|
    ensures Lookup(d, d[i].0) == Some(d[i].1)
  {
    LookupFirst(d, i);
  }
}
