/** Python's insertion-ordered dict with string keys, as the list of its
    items: `d[k] = v` overwrites the value of an existing key in its place
    and appends a new key at the end. */
module Dicts {
  import opened Seqs

  type Dict<V> = seq<(string, V)>

  /** The keys, in iteration order. */
  function Keys<V>(d: Dict<V>): (ks: seq<string>)
    ensures |ks| == |d|
    ensures forall i :: 0 <= i < |d| ==> ks[i] == d[i].0
  {
    seq(|d|, i requires 0 <= i < |d| => d[i].0)
  }

  /** Every key appears once. */
  ghost predicate DistinctKeys<V>(d: Dict<V>)
  {
    NoDup(Keys(d))
  }

  /** `d.get(k, default)`. */
  function Get<V>(d: Dict<V>, k: string, default: V): V
  {
    if d == [] then default
    else if d[0].0 == k then d[0].1
    else Get(d[1..], k, default)
  }

  /** `d[k] = v`. */
  function Put<V>(d: Dict<V>, k: string, v: V): Dict<V>
  {
    if k in Keys(d) then seq(|d|, i requires 0 <= i < |d| => if d[i].0 == k then (k, v) else d[i])
    else d + [(k, v)]
  }

  /** Looking up the key at position `j` of a dict without duplicate keys
      gives the value there. */
  lemma {:induction false} GetAt<V>(d: Dict<V>, j: nat, default: V)
    requires j < |d| && DistinctKeys(d)
    ensures Get(d, d[j].0, default) == d[j].1
  {
    if j > 0 {
      assert Keys(d)[0] != Keys(d)[j];
      assert Keys(d[1..]) == Keys(d)[1..];
      GetAt(d[1..], j - 1, default);
    }
  }

  /** A missing key gives the default. */
  lemma {:induction false} GetMissing<V>(d: Dict<V>, k: string, default: V)
    requires k !in Keys(d)
    ensures Get(d, k, default) == default
  {
    if d != [] {
      assert Keys(d[1..]) == Keys(d)[1..];
      GetMissing(d[1..], k, default);
    }
  }

  /** Assigning to the key at position `j` replaces that item in place. */
  lemma PutExisting<V>(d: Dict<V>, j: nat, v: V)
    requires j < |d| && DistinctKeys(d)
    ensures Put(d, d[j].0, v) == d[j := (d[j].0, v)]
  {
    assert Keys(d)[j] == d[j].0;
    forall i | 0 <= i < |d| && i != j
      ensures d[i].0 != d[j].0
    {
      assert Keys(d)[i] != Keys(d)[j];
    }
  }

  /** Assigning to a new key appends it. */
  lemma PutNew<V>(d: Dict<V>, k: string, v: V)
    requires k !in Keys(d)
    ensures Put(d, k, v) == d + [(k, v)]
  {
  }

  /** A dict without keys is empty. */
  lemma EmptyWhenNoKeys<V>(d: Dict<V>)
    ensures (forall k :: k !in Keys(d)) ==> d == []
  {
    if d != [] {
      assert Keys(d)[0] in Keys(d);
    }
  }

  /** Assigning adds the key to the key list and keeps the keys distinct. */
  lemma PutKeys<V>(d: Dict<V>, k: string, v: V)
    ensures forall x :: x in Keys(Put(d, k, v)) <==> x in Keys(d) || x == k
    ensures DistinctKeys(d) ==> DistinctKeys(Put(d, k, v))
  {
    if k !in Keys(d) {
      assert Keys(d + [(k, v)]) == Keys(d) + [k];
    } else {
      assert Keys(Put(d, k, v)) == Keys(d);
    }
  }
}
