/**
 * The storage backends as abstract finite maps. The Go maps are `map` values; the mutable
 * radix tree (go-radix) and the crit-bit trie (critbitgo) are objects updated in place; the
 * immutable radix tree (go-immutable-radix) is a value whose every write returns a new tree.
 * The tries' internal structure is not modelled, only the map each one represents.
 */
module Backends {
  import opened Values
  import opened Prefixes

  /** The set of keys occurring in a sequence. */
  function KeySet<K>(ks: seq<K>): (s: set<K>)
    ensures forall i :: 0 <= i < |ks| ==> ks[i] in s
    ensures forall k :: k in s ==> exists i :: 0 <= i < |ks| && ks[i] == k
  {
    set i | 0 <= i < |ks| :: ks[i]
  }

  lemma KeySetExtend<K>(ks: seq<K>, i: nat)
    requires i < |ks|
    ensures KeySet(ks[..i + 1]) == KeySet(ks[..i]) + {ks[i]}
  {
    assert ks[..i + 1] == ks[..i] + [ks[i]];
    forall k | k in KeySet(ks[..i + 1]) ensures k in KeySet(ks[..i]) + {ks[i]} {
      var j :| 0 <= j < i + 1 && ks[..i + 1][j] == k;
      if j < i { assert ks[..i][j] == k; }
    }
  }

  predicate Distinct<K(==)>(ks: seq<K>) {
    forall i, j :: 0 <= i < j < |ks| ==> ks[i] != ks[j]
  }

  /** `m[ks[i]] = vs[i]` for every `i` in order, starting from an empty map: a later write wins. */
  function Assign<K, V>(ks: seq<K>, vs: seq<V>): map<K, V>
    requires |ks| == |vs|
  {
    if |ks| == 0 then map[] else Assign(ks[..|ks| - 1], vs[..|ks| - 1])[ks[|ks| - 1] := vs[|ks| - 1]]
  }

  /** One more write at the end updates the map built by the earlier ones. */
  lemma AssignAppend<K, V>(ks: seq<K>, vs: seq<V>, k: K, v: V)
    requires |ks| == |vs|
    ensures Assign(ks + [k], vs + [v]) == Assign(ks, vs)[k := v]
  {
    assert (ks + [k])[..|ks|] == ks;
    assert (vs + [v])[..|vs|] == vs;
  }

  /** Insert-if-absent for every `i` in order, starting from an empty map: the first write wins. */
  function AssignFirst<K, V>(ks: seq<K>, vs: seq<V>): map<K, V>
    requires |ks| == |vs|
  {
    if |ks| == 0 then map[]
    else
      var m := AssignFirst(ks[..|ks| - 1], vs[..|ks| - 1]);
      if ks[|ks| - 1] in m then m else m[ks[|ks| - 1] := vs[|ks| - 1]]
  }

  /** After the writes, exactly the written keys are present. */
  lemma {:induction false} AssignKeys<K, V>(ks: seq<K>, vs: seq<V>)
    requires |ks| == |vs|
    ensures Assign(ks, vs).Keys == KeySet(ks)
    ensures AssignFirst(ks, vs).Keys == KeySet(ks)
  {
    if |ks| > 0 {
      var n := |ks| - 1;
      AssignKeys(ks[..n], vs[..n]);
      assert KeySet(ks) == KeySet(ks[..n]) + {ks[n]} by {
        forall k | k in KeySet(ks) ensures k in KeySet(ks[..n]) + {ks[n]} {
          var i :| 0 <= i < |ks| && ks[i] == k;
          if i < n { assert ks[..n][i] == k; }
        }
      }
    }
  }

  /** Each key holds the value of its last write. */
  lemma {:induction false} AssignLastWins<K, V>(ks: seq<K>, vs: seq<V>, i: nat)
    requires |ks| == |vs| && i < |ks|
    requires forall j :: i < j < |ks| ==> ks[j] != ks[i]
    ensures ks[i] in Assign(ks, vs) && Assign(ks, vs)[ks[i]] == vs[i]
  {
    var n := |ks| - 1;
    if i < n {
      AssignLastWins(ks[..n], vs[..n], i);
    }
  }

  /** Each key holds the value of its first write. */
  lemma {:induction false} AssignFirstFirstWins<K, V>(ks: seq<K>, vs: seq<V>, i: nat)
    requires |ks| == |vs| && i < |ks|
    requires forall j :: 0 <= j < i ==> ks[j] != ks[i]
    ensures ks[i] in AssignFirst(ks, vs) && AssignFirst(ks, vs)[ks[i]] == vs[i]
  {
    var n := |ks| - 1;
    if i < n {
      AssignFirstFirstWins(ks[..n], vs[..n], i);
    } else {
      AssignKeys(ks[..n], vs[..n]);
      assert ks[i] !in KeySet(ks[..n]);
    }
  }

  /** Without repeated keys, replacing and insert-if-absent build the same map. */
  lemma {:induction false} AssignFirstIsAssignWhenDistinct<K, V>(ks: seq<K>, vs: seq<V>)
    requires |ks| == |vs| && Distinct(ks)
    ensures AssignFirst(ks, vs) == Assign(ks, vs)
  {
    if |ks| > 0 {
      var n := |ks| - 1;
      AssignFirstIsAssignWhenDistinct(ks[..n], vs[..n]);
      AssignKeys(ks[..n], vs[..n]);
      assert ks[n] !in KeySet(ks[..n]);
    }
  }

  /** The number of distinct keys in a sequence equals its length exactly when no key repeats. */
  lemma {:induction false} KeySetSize<K>(ks: seq<K>)
    ensures |KeySet(ks)| <= |ks|
    ensures |KeySet(ks)| == |ks| <==> Distinct(ks)
  {
    if |ks| > 0 {
      var n := |ks| - 1;
      KeySetSize(ks[..n]);
      assert KeySet(ks) == KeySet(ks[..n]) + {ks[n]} by {
        KeySetExtend(ks, n);
        assert ks[..n + 1] == ks;
      }
      if ks[n] in KeySet(ks[..n]) {
        var i :| 0 <= i < n && ks[..n][i] == ks[n];
        assert !Distinct(ks);
      } else {
        if Distinct(ks[..n]) {
          forall i, j | 0 <= i < j < |ks| ensures ks[i] != ks[j] {
            if j < n { assert ks[..n][i] != ks[..n][j]; }
          }
        } else {
          var i, j :| 0 <= i < j < n && ks[..n][i] == ks[..n][j];
          assert ks[i] == ks[j];
        }
      }
    }
  }

  /** The size after the writes is the number of distinct keys written; the length when none repeats. */
  lemma AssignSize<K, V>(ks: seq<K>, vs: seq<V>)
    requires |ks| == |vs|
    ensures |Assign(ks, vs)| == |AssignFirst(ks, vs)| == |KeySet(ks)| <= |ks|
    ensures |Assign(ks, vs)| == |ks| <==> Distinct(ks)
  {
    AssignKeys(ks, vs);
    KeySetSize(ks);
    assert |Assign(ks, vs)| == |Assign(ks, vs).Keys|;
    assert |AssignFirst(ks, vs)| == |AssignFirst(ks, vs).Keys|;
  }

  /** Deleting every written key leaves nothing, and deleting again changes nothing. */
  lemma DeleteWrittenKeys<K, V>(m: map<K, V>, ks: seq<K>)
    requires m.Keys <= KeySet(ks)
    ensures m - KeySet(ks) == map[]
    ensures (m - KeySet(ks)) - KeySet(ks) == m - KeySet(ks)
  {
    assert (m - KeySet(ks)).Keys == {};
  }

  /**
   * A walk over the entries: every key is visited exactly once. The order (random for a Go
   * map, lexicographic for the tries) is not modelled.
   */
  method WalkEntries<K, V>(m: map<K, V>) returns (visited: seq<K>)
    ensures Distinct(visited)
    ensures KeySet(visited) == m.Keys
    ensures |visited| == |m|
  {
    var rest := m.Keys;
    visited := [];
    while rest != {}
      invariant rest <= m.Keys
      invariant KeySet(visited) == m.Keys - rest
      invariant Distinct(visited)
      invariant |visited| + |rest| == |m|
      decreases |rest|
    {
      var k :| k in rest;
      assert k !in KeySet(visited);
      KeySetExtend(visited + [k], |visited|);
      assert (visited + [k])[..|visited| + 1] == visited + [k];
      assert (visited + [k])[..|visited|] == visited;
      visited := visited + [k];
      rest := rest - {k};
    }
    assert |m| == |m.Keys|;
  }

  /** go-immutable-radix `*iradix.Tree` keyed by `radixKey`: a persistent map from byte keys. */
  datatype ImmutableTree = ImmutableTree(entries: map<seq<byte>, Prefix>) {

    /** `Get`: the value stored under `k`, if any. */
    function Get(k: seq<byte>): Option<Prefix> {
      Values.Get(entries, k)
    }

    /** `Len`: the number of entries. */
    function Len(): (n: nat)
      ensures n == |entries.Keys|
    {
      |entries|
    }

    /** `Insert`: a new tree holding `k -> v`, the previous value, and whether one was replaced. */
    function Insert(k: seq<byte>, v: Prefix): (r: (ImmutableTree, Option<Prefix>, bool))
      ensures r.0.Get(k) == Some(v)
      ensures forall k' :: k' != k ==> r.0.Get(k') == Get(k')
      ensures r.1 == Get(k) && r.2 == (k in entries)
    {
      (ImmutableTree(entries[k := v]), Get(k), k in entries)
    }

    /** `Delete`: a new tree without `k`, the removed value, and whether there was one. */
    function Delete(k: seq<byte>): (r: (ImmutableTree, Option<Prefix>, bool))
      ensures r.0.Get(k) == None
      ensures forall k' :: k' != k ==> r.0.Get(k') == Get(k')
      ensures r.1 == Get(k) && r.2 == (k in entries)
    {
      (ImmutableTree(entries - {k}), Get(k), k in entries)
    }

    /** An insert adds one entry exactly when it does not replace one; a delete removes one exactly when it finds one. */
    lemma LenAfterUpdate(k: seq<byte>, v: Prefix)
      ensures Insert(k, v).0.Len() == if Insert(k, v).2 then Len() else Len() + 1
      ensures Delete(k).0.Len() == if Delete(k).2 then Len() - 1 else Len()
    {
    }
  }

  /** `iradix.New()`. */
  const EMPTY_TREE: ImmutableTree := ImmutableTree(map[])

  /** go-radix `*radix.Tree` keyed by `radixStringkey`: a map from strings, updated in place. */
  class RadixTree {
    var entries: map<string, Prefix>

    /** `radix.New()`. */
    constructor ()
      ensures entries == map[]
    {
      entries := map[];
    }

    function Get(k: string): Option<Prefix>
      reads this
    {
      Values.Get(entries, k)
    }

    function Len(): (n: nat)
      reads this
      ensures n == |entries.Keys|
    {
      |entries|
    }

    /** `Insert` adds or replaces; it reports the previous value and whether one was replaced. */
    method Insert(k: string, v: Prefix) returns (previous: Option<Prefix>, updated: bool)
      modifies this
      ensures entries == old(entries)[k := v]
      ensures previous == old(Get(k)) && updated == (k in old(entries))
    {
      previous, updated := Get(k), k in entries;
      entries := entries[k := v];
    }

    /** `Delete` removes `k` if present; deleting an absent key changes nothing. */
    method Delete(k: string) returns (previous: Option<Prefix>, deleted: bool)
      modifies this
      ensures entries == old(entries) - {k}
      ensures previous == old(Get(k)) && deleted == (k in old(entries))
    {
      previous, deleted := Get(k), k in entries;
      entries := entries - {k};
    }
  }

  /** critbitgo `*critbitgo.Trie` keyed by `radixKey`: a map from byte strings, updated in place. */
  class CritbitTrie {
    var entries: map<seq<byte>, Prefix>

    /** `critbitgo.NewTrie()`. */
    constructor ()
      ensures entries == map[]
    {
      entries := map[];
    }

    function Get(k: seq<byte>): Option<Prefix>
      reads this
    {
      Values.Get(entries, k)
    }

    function Size(): (n: nat)
      reads this
      ensures n == |entries.Keys|
    {
      |entries|
    }

    /** `Insert` adds `k` only when it is absent (replacing is `Set`'s job); it reports whether it added. */
    method Insert(k: seq<byte>, v: Prefix) returns (added: bool)
      modifies this
      ensures added == (k !in old(entries))
      ensures entries == if added then old(entries)[k := v] else old(entries)
    {
      added := k !in entries;
      if added {
        entries := entries[k := v];
      }
    }

    /** `Delete` removes `k` if present; deleting an absent key changes nothing. */
    method Delete(k: seq<byte>) returns (previous: Option<Prefix>, deleted: bool)
      modifies this
      ensures entries == old(entries) - {k}
      ensures previous == old(Get(k)) && deleted == (k in old(entries))
    {
      previous, deleted := Get(k), k in entries;
      entries := entries - {k};
    }
  }
}
