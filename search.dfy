/** `search`: score the indexed documents against a query by TF-IDF and
    answer one page of them, best first, with the number of documents that
    matched. The union of the query terms' sorted sets, each weighted by the
    term's inverse document frequency, is stored under a temporary key, read
    with ZREVRANGE and deleted again. */
module Search {
  import opened Seqs
  import opened Dicts
  import opened Tokenizer
  import opened RedisModel
  import opened RedisStore
  import opened Indexer

  /** The sorted-set keys of the query terms, in query order. */
  function TermKeys(prefix: string, terms: seq<string>): (keys: seq<Key>)
    ensures |keys| == |terms|
    ensures forall i :: 0 <= i < |terms| ==> keys[i] == prefix + terms[i]
  {
    seq(|terms|, i requires 0 <= i < |terms| => prefix + terms[i])
  }

  /** The key the union is stored under; `suffix` stands for the sixteen
      random hex digits. */
  function TempKey(prefix: string, suffix: string): Key
  {
    prefix + "temp:" + suffix
  }

  /** `max(scard(prefix + 'indexed:'), 1)`. */
  function TotalDocs(db: Db, prefix: string): (n: nat)
    ensures n >= 1 && n >= SCard(db, IndexedKey(prefix))
    ensures n == SCard(db, IndexedKey(prefix)) || n == 1
  {
    var indexed := SCard(db, IndexedKey(prefix));
    if indexed > 1 then indexed else 1
  }

  /** The inverse document frequency of a term held by `size` of `total`
      documents: the base-2 logarithm of `total / size`, never below zero,
      and zero for a term no document holds. */
  function Idf(total: nat, size: nat, log2: real -> real): (r: real)
    ensures r >= 0.0
    ensures size == 0 ==> r == 0.0
    ensures size > 0 ==> r == if log2(total as real / size as real) > 0.0 then log2(total as real / size as real) else 0.0
  {
    if size == 0 then 0.0
    else
      var l := log2(total as real / size as real);
      if l > 0.0 then l else 0.0
  }

  /** The ZCARD of every key, in order. */
  function Sizes(db: Db, keys: seq<Key>): (sizes: seq<nat>)
    ensures |sizes| == |keys|
    ensures forall i :: 0 <= i < |keys| ==> sizes[i] == ZCard(db, keys[i])
  {
    seq(|keys|, i requires 0 <= i < |keys| => ZCard(db, keys[i]))
  }

  /** `list(map(idf, sizes))`. */
  function Idfs(total: nat, sizes: seq<nat>, log2: real -> real): (idfs: seq<real>)
    ensures |idfs| == |sizes|
    ensures forall i :: 0 <= i < |sizes| ==> idfs[i] == Idf(total, sizes[i], log2)
  {
    seq(|sizes|, i requires 0 <= i < |sizes| => Idf(total, sizes[i], log2))
  }

  /** `{key: idfv for key, size, idfv in zip(keys, sizes, idfs) if size}`:
      a key seen again keeps its first position and takes the later value. */
  function WeightDict(keys: seq<Key>, sizes: seq<nat>, idfs: seq<real>): Dict<real>
    requires |sizes| == |keys| && |idfs| == |keys|
  {
    if keys == [] then []
    else
      var n := |keys| - 1;
      var w := WeightDict(keys[..n], sizes[..n], idfs[..n]);
      if sizes[n] != 0 then Put(w, keys[n], idfs[n]) else w
  }

  /** The weights `search` hands to ZUNIONSTORE for the given query keys. */
  function QueryWeights(db: Db, prefix: string, keys: seq<Key>, log2: real -> real): Dict<real>
  {
    var sizes := Sizes(db, keys);
    WeightDict(keys, sizes, Idfs(TotalDocs(db, prefix), sizes, log2))
  }

  /** What `search` answers for the query keys `keys` on the database `db`:
      `[]` and 0 when no key weighs anything; otherwise the size of the
      weighted union and its ranks `offset` to `offset + count - 1`, best
      first, as many as `count` and the union's size allow. */
  ghost predicate SearchResult(db: Db, prefix: string, keys: seq<Key>, log2: real -> real, offset: int, count: int,
                               ids: seq<(Member, real)>, known: nat)
  {
    var weights := QueryWeights(db, prefix, keys, log2);
    && (weights == [] ==> ids == [] && known == 0)
    && (weights != [] ==> known >= 1 && known == |Union(db, weights)|)
    && (weights != [] ==> IsPage(Union(db, weights), ids, offset, offset + count - 1))
    && (forall i, j :: 0 <= i < j < |ids| ==> ids[i].1 >= ids[j].1)
    && (offset >= 0 && count >= 1 ==>
          |ids| == if offset >= known then 0 else if offset + count <= known then count else known - offset)
  }

  /** `search(connection, prefix, query_string, offset, count)`: with no
      query terms, or none that any document holds, the answer is `[]` and
      0; otherwise it is the ranks `offset` to `offset + count - 1` of the
      weighted union and the size of the union. The store is left as it
      was, because the temporary key was not in use. */
  method Search(store: Store, prefix: string, query: string, suffix: string, log2: real -> real, offset: int := 0, count: int := 10)
    returns (ids: seq<(Member, real)>, known: nat)
    requires store.Valid()
    requires TempKey(prefix, suffix) !in store.sets && TempKey(prefix, suffix) !in store.zsets
    modifies store
    ensures store.State() == old(store.State())
    ensures Tokens(query) == [] ==> ids == [] && known == 0
    ensures SearchResult(old(store.State()), prefix, TermKeys(prefix, Tokens(query)), log2, offset, count, ids, known)
  {
    var keys := TermKeys(prefix, Tokens(query));
    ids, known := SearchKeys(store, prefix, keys, offset, count, suffix, log2);
  }

  /** The body of `search` after the query keys are built. */
  method SearchKeys(store: Store, prefix: string, keys: seq<Key>, offset: int, count: int, suffix: string, log2: real -> real)
    returns (ids: seq<(Member, real)>, known: nat)
    requires store.Valid()
    requires TempKey(prefix, suffix) !in store.sets && TempKey(prefix, suffix) !in store.zsets
    modifies store
    ensures store.State() == old(store.State())
    ensures keys == [] ==> ids == [] && known == 0
    ensures SearchResult(old(store.State()), prefix, keys, log2, offset, count, ids, known)
  {
    ghost var db := store.State();
    if keys == [] {
      return [], 0;
    }
    var weights := ComputeWeights(store, prefix, keys, log2);
    if weights == [] {
      return [], 0;
    }
    ids, known := RankUnion(store, TempKey(prefix, suffix), weights, offset, count);
    KnownIsPositive(db, prefix, keys, log2);
    PageFacts(Union(db, weights), ids, offset, count);
  }

  /** The `try ... finally` of `search`: store the weighted union under the
      temporary key, read the ranks `offset` to `offset + count - 1`, and
      delete the key again. */
  method RankUnion(store: Store, temp: Key, weights: Dict<real>, offset: int, count: int)
    returns (ids: seq<(Member, real)>, known: nat)
    requires store.Valid()
    requires temp !in store.sets && temp !in store.zsets
    modifies store
    ensures store.State() == old(store.State())
    ensures known == |Union(old(store.State()), weights)|
    ensures IsPage(Union(old(store.State()), weights), ids, offset, offset + count - 1)
  {
    ghost var db := store.State();
    known := store.ZUnionStore(temp, weights);
    ghost var stored := store.State();
    assert Scores(stored, temp) == Union(db, weights) by {
      ZUnionStoreEffect(db, temp, weights);
    }
    ids := store.ZRevRange(temp, offset, offset + count - 1);
    store.Delete(temp);
    assert store.State() == db by {
      DelUndoesZUnionStore(db, temp, weights);
    }
  }

  /** What a page of the union is like: best first, and of the length the
      offset and count ask for. */
  lemma PageFacts(u: map<Member, real>, ids: seq<(Member, real)>, offset: int, count: int)
    requires IsPage(u, ids, offset, offset + count - 1)
    ensures forall i, j :: 0 <= i < j < |ids| ==> ids[i].1 >= ids[j].1
    ensures offset >= 0 && count >= 1 ==>
              |ids| == if offset >= |u| then 0 else if offset + count <= |u| then count else |u| - offset
  {
    PageIsSorted(u, ids, offset, offset + count - 1);
    if offset >= 0 && count >= 1 {
      PageLength(u, ids, offset, count);
    }
  }

  /** The reads of `search` before the union: SCARD of the indexed set,
      one ZCARD per query key, then the idf of each size and the weights. */
  method ComputeWeights(store: Store, prefix: string, keys: seq<Key>, log2: real -> real) returns (weights: Dict<real>)
    ensures weights == QueryWeights(store.State(), prefix, keys, log2)
  {
    var indexed := store.SCard(IndexedKey(prefix));
    var totalDocs := if indexed > 1 then indexed else 1;
    var sizes: seq<nat> := [];
    for i := 0 to |keys|
      invariant |sizes| == i
      invariant forall j :: 0 <= j < i ==> sizes[j] == ZCard(store.State(), keys[j])
    {
      var size := store.ZCard(keys[i]);
      sizes := sizes + [size];
    }
    var idfs := seq(|sizes|, i requires 0 <= i < |sizes| => Idf(totalDocs, sizes[i], log2));
    assert sizes == Sizes(store.State(), keys);
    assert idfs == Idfs(TotalDocs(store.State(), prefix), sizes, log2);
    weights := WeightDict(keys, sizes, idfs);
  }

  /** Some document matches whenever there are weights. */
  lemma KnownIsPositive(db: Db, prefix: string, keys: seq<Key>, log2: real -> real)
    requires QueryWeights(db, prefix, keys, log2) != []
    ensures |Union(db, QueryWeights(db, prefix, keys, log2))| >= 1
  {
    var w := QueryWeights(db, prefix, keys, log2);
    QueryWeightsSpec(db, prefix, keys, log2);
    assert Keys(w)[0] in Keys(w);
    UnionNonEmpty(db, w, 0);
  }

  /** The weights keep each query key whose sorted set is not empty, and
      each only once. */
  lemma {:induction false} WeightDictKeys(keys: seq<Key>, sizes: seq<nat>, idfs: seq<real>)
    requires |sizes| == |keys| && |idfs| == |keys|
    ensures DistinctKeys(WeightDict(keys, sizes, idfs))
    ensures forall k :: k in Keys(WeightDict(keys, sizes, idfs)) <==> exists i :: 0 <= i < |keys| && keys[i] == k && sizes[i] != 0
  {
    if keys != [] {
      var n := |keys| - 1;
      var w := WeightDict(keys[..n], sizes[..n], idfs[..n]);
      WeightDictKeys(keys[..n], sizes[..n], idfs[..n]);
      assert forall i :: 0 <= i < n ==> keys[..n][i] == keys[i] && sizes[..n][i] == sizes[i];
      var r := WeightDict(keys, sizes, idfs);
      if sizes[n] != 0 {
        PutKeys(w, keys[n], idfs[n]);
      }
      forall k | k in Keys(r)
        ensures exists i :: 0 <= i < |keys| && keys[i] == k && sizes[i] != 0
      {
        if k != keys[n] || sizes[n] == 0 {
          var i :| 0 <= i < n && keys[..n][i] == k && sizes[..n][i] != 0;
          assert keys[i] == k && sizes[i] != 0;
        }
      }
      forall k | exists i :: 0 <= i < |keys| && keys[i] == k && sizes[i] != 0
        ensures k in Keys(r)
      {
        var i :| 0 <= i < |keys| && keys[i] == k && sizes[i] != 0;
        if i < n {
          assert keys[..n][i] == k && sizes[..n][i] != 0;
        }
      }
    }
  }

  /** Each weight is the inverse document frequency of a query key with a
      non-empty sorted set under that key. */
  lemma {:induction false} WeightDictValues(keys: seq<Key>, sizes: seq<nat>, idfs: seq<real>)
    requires |sizes| == |keys| && |idfs| == |keys|
    ensures forall j :: 0 <= j < |WeightDict(keys, sizes, idfs)| ==>
              exists i :: 0 <= i < |keys| && keys[i] == WeightDict(keys, sizes, idfs)[j].0 && sizes[i] != 0 && idfs[i] == WeightDict(keys, sizes, idfs)[j].1
  {
    if keys != [] {
      var n := |keys| - 1;
      var w := WeightDict(keys[..n], sizes[..n], idfs[..n]);
      WeightDictValues(keys[..n], sizes[..n], idfs[..n]);
      assert forall i :: 0 <= i < n ==> keys[..n][i] == keys[i] && sizes[..n][i] == sizes[i] && idfs[..n][i] == idfs[i];
      var r := WeightDict(keys, sizes, idfs);
      var e := (keys[n], idfs[n]);
      if sizes[n] == 0 {
        forall j | 0 <= j < |r|
          ensures exists i :: 0 <= i < |keys| && keys[i] == r[j].0 && sizes[i] != 0 && idfs[i] == r[j].1
        {
          var i :| 0 <= i < n && keys[..n][i] == w[j].0 && sizes[..n][i] != 0 && idfs[..n][i] == w[j].1;
          assert keys[i] == r[j].0 && sizes[i] != 0 && idfs[i] == r[j].1;
        }
      } else if keys[n] in Keys(w) {
        var p :| 0 <= p < |w| && Keys(w)[p] == keys[n];
        assert r == w[p := e] by {
          WeightDictKeys(keys[..n], sizes[..n], idfs[..n]);
          PutExisting(w, p, idfs[n]);
        }
        forall j | 0 <= j < |r|
          ensures exists i :: 0 <= i < |keys| && keys[i] == r[j].0 && sizes[i] != 0 && idfs[i] == r[j].1
        {
          if j != p {
            var i :| 0 <= i < n && keys[..n][i] == w[j].0 && sizes[..n][i] != 0 && idfs[..n][i] == w[j].1;
            assert keys[i] == r[j].0 && sizes[i] != 0 && idfs[i] == r[j].1;
          } else {
            assert keys[n] == r[j].0 && sizes[n] != 0 && idfs[n] == r[j].1;
          }
        }
      } else {
        assert r == w + [e] by {
          PutNew(w, keys[n], idfs[n]);
        }
        forall j | 0 <= j < |r|
          ensures exists i :: 0 <= i < |keys| && keys[i] == r[j].0 && sizes[i] != 0 && idfs[i] == r[j].1
        {
          if j < |w| {
            var i :| 0 <= i < n && keys[..n][i] == w[j].0 && sizes[..n][i] != 0 && idfs[..n][i] == w[j].1;
            assert keys[i] == r[j].0 && sizes[i] != 0 && idfs[i] == r[j].1;
          } else {
            assert keys[n] == r[j].0 && sizes[n] != 0 && idfs[n] == r[j].1;
          }
        }
      }
      assert forall j :: 0 <= j < |r| ==> exists i :: 0 <= i < |keys| && keys[i] == r[j].0 && sizes[i] != 0 && idfs[i] == r[j].1;
    } else {
      assert WeightDict(keys, sizes, idfs) == [];
    }
  }

  /** The weights name exactly the query keys whose sorted sets are not
      empty, each once, and weigh each by its inverse document frequency;
      no query keys, no weights. */
  lemma QueryWeightsSpec(db: Db, prefix: string, keys: seq<Key>, log2: real -> real)
    ensures DistinctKeys(QueryWeights(db, prefix, keys, log2))
    ensures forall k :: k in Keys(QueryWeights(db, prefix, keys, log2)) <==> k in keys && ZCard(db, k) > 0
    ensures forall j :: 0 <= j < |QueryWeights(db, prefix, keys, log2)| ==>
              QueryWeights(db, prefix, keys, log2)[j].1 == Idf(TotalDocs(db, prefix), ZCard(db, QueryWeights(db, prefix, keys, log2)[j].0), log2)
    ensures keys == [] ==> QueryWeights(db, prefix, keys, log2) == []
  {
    var sizes := Sizes(db, keys);
    var idfs := Idfs(TotalDocs(db, prefix), sizes, log2);
    WeightDictKeys(keys, sizes, idfs);
    WeightDictValues(keys, sizes, idfs);
    var w := QueryWeights(db, prefix, keys, log2);
    forall k
      ensures k in Keys(w) <==> k in keys && ZCard(db, k) > 0
    {
      if k in keys && ZCard(db, k) > 0 {
        var i :| 0 <= i < |keys| && keys[i] == k;
        assert sizes[i] != 0;
      }
    }
  }

  /** When the sorted set of every query key is empty, there are no
      weights. */
  lemma NoPostingsNoWeights(db: Db, prefix: string, keys: seq<Key>, log2: real -> real)
    requires forall k :: k in keys ==> ZCard(db, k) == 0
    ensures QueryWeights(db, prefix, keys, log2) == []
  {
    QueryWeightsSpec(db, prefix, keys, log2);
    EmptyWhenNoKeys(QueryWeights(db, prefix, keys, log2));
  }

  /** The temporary key is never the key of a term, since a term holds no
      colon. */
  lemma TempKeyIsNotTermKey(prefix: string, suffix: string, t: string)
    requires forall c :: c in t ==> IsWordChar(c)
    ensures prefix + t != TempKey(prefix, suffix)
  {
    if |t| == 5 + |suffix| {
      assert t[4] in t;
      assert (prefix + t)[|prefix| + 4] == t[4];
      assert TempKey(prefix, suffix)[|prefix| + 4] == ':';
    }
  }
}
