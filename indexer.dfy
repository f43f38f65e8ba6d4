/** `handle_content`: index a document under a key prefix, or take it out
    of the index. The prefix followed by `indexed:` names the set of indexed
    document ids; the prefix followed by a term names the sorted set that
    maps each document holding the term to the term's weight in it. */
module Indexer {
  import opened Seqs
  import opened Dicts
  import opened Tokenizer
  import opened TermWeights
  import opened RedisModel
  import opened RedisStore

  /** The key of the set of indexed documents. */
  function IndexedKey(prefix: string): Key
  {
    prefix + "indexed:"
  }

  /** `k` is the prefix followed by one of `terms`. */
  ghost predicate IsTermKey(prefix: string, terms: seq<string>, k: Key)
  {
    |prefix| <= |k| && k[..|prefix|] == prefix && k[|prefix|..] in terms
  }

  /** The ZADD of every weighted term, in dict order. */
  function ZAddAll(db: Db, prefix: string, id: Member, tf: Dict<real>): Db
  {
    if tf == [] then db
    else
      var last := tf[|tf| - 1];
      ZAdd(ZAddAll(db, prefix, id, tf[..|tf| - 1]), prefix + last.0, id, last.1)
  }

  /** The ZREM of every term, in order. */
  function ZRemAll(db: Db, prefix: string, id: Member, terms: seq<string>): Db
  {
    if terms == [] then db
    else ZRem(ZRemAll(db, prefix, id, terms[..|terms| - 1]), prefix + terms[|terms| - 1], id)
  }

  /** The commands the add branch queues, applied in order. */
  function AddDocument(db: Db, prefix: string, id: Member, tf: Dict<real>): Db
  {
    ZAddAll(SAdd(db, IndexedKey(prefix), id), prefix, id, tf)
  }

  /** The commands the remove branch queues, applied in order. */
  function RemoveDocument(db: Db, prefix: string, id: Member, tf: Dict<real>): Db
  {
    ZRemAll(SRem(db, IndexedKey(prefix), id), prefix, id, Keys(tf))
  }

  /** `handle_content`: tokenize and weigh the content, queue and run the
      commands, and answer the number of distinct terms. */
  method HandleContent(store: Store, prefix: string, id: Member, content: string, add: bool := true) returns (n: nat)
    requires store.Valid()
    modifies store
    ensures store.Valid()
    ensures store.State() == (if add then AddDocument(old(store.State()), prefix, id, TermFrequencies(Tokens(content)))
                              else RemoveDocument(old(store.State()), prefix, id, TermFrequencies(Tokens(content))))
    ensures n == |set t | t in Tokens(content)|
  {
    var words := Tokens(content);
    var keys := Weigh(words);
    RunPipeline(store, prefix, id, keys, add);
    n := |keys|;
    TermFrequenciesKeys(words);
  }

  /** The pipeline of `handle_content`: the SADD and one ZADD per weighted
      term, or the SREM and one ZREM per term. */
  method RunPipeline(store: Store, prefix: string, id: Member, keys: Dict<real>, add: bool)
    requires store.Valid()
    modifies store
    ensures store.Valid()
    ensures store.State() == (if add then AddDocument(old(store.State()), prefix, id, keys)
                              else RemoveDocument(old(store.State()), prefix, id, keys))
  {
    if add {
      AddPipeline(store, prefix, id, keys);
    } else {
      RemovePipeline(store, prefix, id, keys);
    }
  }

  /** SADD of the document, then a ZADD of its weight for every term. */
  method AddPipeline(store: Store, prefix: string, id: Member, keys: Dict<real>)
    requires store.Valid()
    modifies store
    ensures store.Valid()
    ensures store.State() == AddDocument(old(store.State()), prefix, id, keys)
  {
    store.SAdd(IndexedKey(prefix), id);
    ghost var start := store.State();
    for i := 0 to |keys|
      invariant store.Valid()
      invariant store.State() == ZAddAll(start, prefix, id, keys[..i])
    {
      assert keys[..i + 1][..i] == keys[..i];
      store.ZAdd(prefix + keys[i].0, id, keys[i].1);
    }
    assert keys[..|keys|] == keys;
  }

  /** SREM of the document, then a ZREM from the sorted set of every term. */
  method RemovePipeline(store: Store, prefix: string, id: Member, keys: Dict<real>)
    requires store.Valid()
    modifies store
    ensures store.Valid()
    ensures store.State() == RemoveDocument(old(store.State()), prefix, id, keys)
  {
    store.SRem(IndexedKey(prefix), id);
    ghost var start := store.State();
    ghost var terms := Keys(keys);
    for i := 0 to |keys|
      invariant store.Valid()
      invariant store.State() == ZRemAll(start, prefix, id, terms[..i])
    {
      assert terms[..i + 1][..i] == terms[..i];
      store.ZRem(prefix + keys[i].0, id);
    }
    assert terms[..|keys|] == terms;
  }

  /** The key of a term names that term and no other. */
  lemma TermKeyParts(prefix: string, t: string)
    ensures |prefix| <= |prefix + t|
    ensures (prefix + t)[..|prefix|] == prefix
    ensures (prefix + t)[|prefix|..] == t
  {
  }

  /** A key that starts with the prefix is the prefix followed by the rest. */
  lemma SplitTermKey(prefix: string, k: Key)
    requires |prefix| <= |k| && k[..|prefix|] == prefix
    ensures k == prefix + k[|prefix|..]
  {
  }

  /** The ZADDs leave the plain sets alone and give the document its weight
      in the sorted set of each term, and in no other. */
  lemma {:induction false} ZAddAllEffect(db: Db, prefix: string, id: Member, tf: Dict<real>)
    requires DistinctKeys(tf)
    ensures ZAddAll(db, prefix, id, tf).sets == db.sets
    ensures forall k :: Scores(ZAddAll(db, prefix, id, tf), k) ==
                        if IsTermKey(prefix, Keys(tf), k) then Scores(db, k)[id := Get(tf, k[|prefix|..], 0.0)] else Scores(db, k)
    ensures WellFormed(db) ==> WellFormed(ZAddAll(db, prefix, id, tf))
  {
    if tf != [] {
      var p := tf[..|tf| - 1];
      var e := tf[|tf| - 1];
      assert Keys(tf) == Keys(p) + [e.0];
      assert forall i :: 0 <= i < |p| ==> Keys(p)[i] == Keys(tf)[i];
      assert DistinctKeys(p);
      assert e.0 !in Keys(p) by {
        assert Keys(tf)[|p|] == e.0;
      }
      ZAddAllEffect(db, prefix, id, p);
      var before := ZAddAll(db, prefix, id, p);
      ZAddEffect(before, prefix + e.0, id, e.1);
      TermKeyParts(prefix, e.0);
      forall k
        ensures Scores(ZAddAll(db, prefix, id, tf), k) ==
          if IsTermKey(prefix, Keys(tf), k) then Scores(db, k)[id := Get(tf, k[|prefix|..], 0.0)] else Scores(db, k)
      {
        if k == prefix + e.0 {
          GetAt(tf, |p|, 0.0);
          assert !IsTermKey(prefix, Keys(p), k);
        } else if IsTermKey(prefix, Keys(tf), k) {
          var t := k[|prefix|..];
          SplitTermKey(prefix, k);
          assert t != e.0;
          var j :| 0 <= j < |p| && Keys(p)[j] == t;
          GetAt(p, j, 0.0);
          GetAt(tf, j, 0.0);
          assert IsTermKey(prefix, Keys(p), k);
        } else {
          assert !IsTermKey(prefix, Keys(p), k);
        }
      }
    }
  }

  /** The ZREMs leave the plain sets alone and take the document out of the
      sorted set of each term, and of no other. */
  lemma {:induction false} ZRemAllEffect(db: Db, prefix: string, id: Member, terms: seq<string>)
    ensures ZRemAll(db, prefix, id, terms).sets == db.sets
    ensures forall k :: Scores(ZRemAll(db, prefix, id, terms), k) ==
                        if IsTermKey(prefix, terms, k) then Scores(db, k) - {id} else Scores(db, k)
    ensures WellFormed(db) ==> WellFormed(ZRemAll(db, prefix, id, terms))
  {
    if terms != [] {
      var p := terms[..|terms| - 1];
      var x := terms[|terms| - 1];
      assert terms == p + [x];
      ZRemAllEffect(db, prefix, id, p);
      var before := ZRemAll(db, prefix, id, p);
      ZRemEffect(before, prefix + x, id);
      TermKeyParts(prefix, x);
      forall k
        ensures Scores(ZRemAll(db, prefix, id, terms), k) ==
          if IsTermKey(prefix, terms, k) then Scores(db, k) - {id} else Scores(db, k)
      {
        if k == prefix + x {
          assert IsTermKey(prefix, terms, k);
          assert Scores(db, k) - {id} - {id} == Scores(db, k) - {id};
        } else if IsTermKey(prefix, terms, k) {
          SplitTermKey(prefix, k);
          assert IsTermKey(prefix, p, k);
        } else {
          assert !IsTermKey(prefix, p, k);
        }
      }
    }
  }

  /** Indexing a document adds it to the indexed set and sets its weight in
      the sorted set of each of its terms; every other key keeps its value. */
  lemma AddDocumentEffect(db: Db, prefix: string, id: Member, tf: Dict<real>)
    requires DistinctKeys(tf)
    ensures forall k :: Members(AddDocument(db, prefix, id, tf), k) ==
                        if k == IndexedKey(prefix) then Members(db, k) + {id} else Members(db, k)
    ensures forall k :: Scores(AddDocument(db, prefix, id, tf), k) ==
                        if IsTermKey(prefix, Keys(tf), k) then Scores(db, k)[id := Get(tf, k[|prefix|..], 0.0)] else Scores(db, k)
    ensures WellFormed(db) ==> WellFormed(AddDocument(db, prefix, id, tf))
  {
    SAddEffect(db, IndexedKey(prefix), id);
    ZAddAllEffect(SAdd(db, IndexedKey(prefix), id), prefix, id, tf);
  }

  /** After indexing, the document is in the indexed set and has weight
      `tf[i].1` under the key of every term `tf[i].0`. */
  lemma AddDocumentPostings(db: Db, prefix: string, id: Member, tf: Dict<real>, i: nat)
    requires DistinctKeys(tf) && i < |tf|
    ensures id in Members(AddDocument(db, prefix, id, tf), IndexedKey(prefix))
    ensures id in Scores(AddDocument(db, prefix, id, tf), prefix + tf[i].0)
    ensures Scores(AddDocument(db, prefix, id, tf), prefix + tf[i].0)[id] == tf[i].1
  {
    AddDocumentEffect(db, prefix, id, tf);
    TermKeyParts(prefix, tf[i].0);
    assert Keys(tf)[i] == tf[i].0;
    GetAt(tf, i, 0.0);
  }

  /** Taking a document out removes it from the indexed set and from the
      sorted set of each of its terms; every other key keeps its value. */
  lemma RemoveDocumentEffect(db: Db, prefix: string, id: Member, tf: Dict<real>)
    ensures forall k :: Members(RemoveDocument(db, prefix, id, tf), k) ==
                        if k == IndexedKey(prefix) then Members(db, k) - {id} else Members(db, k)
    ensures forall k :: Scores(RemoveDocument(db, prefix, id, tf), k) ==
                        if IsTermKey(prefix, Keys(tf), k) then Scores(db, k) - {id} else Scores(db, k)
    ensures WellFormed(db) ==> WellFormed(RemoveDocument(db, prefix, id, tf))
  {
    SRemEffect(db, IndexedKey(prefix), id);
    ZRemAllEffect(SRem(db, IndexedKey(prefix), id), prefix, id, Keys(tf));
  }

  /** After taking a document out, it is in neither the indexed set nor the
      sorted set of any of its terms. */
  lemma RemoveDocumentPostings(db: Db, prefix: string, id: Member, tf: Dict<real>, i: nat)
    requires i < |tf|
    ensures id !in Members(RemoveDocument(db, prefix, id, tf), IndexedKey(prefix))
    ensures id !in Scores(RemoveDocument(db, prefix, id, tf), prefix + tf[i].0)
  {
    RemoveDocumentEffect(db, prefix, id, tf);
    TermKeyParts(prefix, tf[i].0);
    assert Keys(tf)[i] == tf[i].0;
  }

  /** Indexing the same document twice is the same as indexing it once. */
  lemma AddDocumentIdempotent(db: Db, prefix: string, id: Member, tf: Dict<real>)
    requires WellFormed(db) && DistinctKeys(tf)
    ensures AddDocument(AddDocument(db, prefix, id, tf), prefix, id, tf) == AddDocument(db, prefix, id, tf)
  {
    var once := AddDocument(db, prefix, id, tf);
    var twice := AddDocument(once, prefix, id, tf);
    assert WellFormed(once) && WellFormed(twice) by {
      AddDocumentEffect(db, prefix, id, tf);
      AddDocumentEffect(once, prefix, id, tf);
    }
    forall k
      ensures Members(twice, k) == Members(once, k)
    {
      AddDocumentEffect(db, prefix, id, tf);
      AddDocumentEffect(once, prefix, id, tf);
    }
    forall k
      ensures Scores(twice, k) == Scores(once, k)
    {
      AddTwiceScores(db, prefix, id, tf, k);
    }
    DbExt(twice, once);
  }

  lemma AddTwiceScores(db: Db, prefix: string, id: Member, tf: Dict<real>, k: Key)
    requires DistinctKeys(tf)
    ensures Scores(AddDocument(AddDocument(db, prefix, id, tf), prefix, id, tf), k) == Scores(AddDocument(db, prefix, id, tf), k)
  {
    var once := AddDocument(db, prefix, id, tf);
    AddDocumentEffect(db, prefix, id, tf);
    AddDocumentEffect(once, prefix, id, tf);
    if IsTermKey(prefix, Keys(tf), k) {
      var v := Get(tf, k[|prefix|..], 0.0);
      assert Scores(db, k)[id := v][id := v] == Scores(db, k)[id := v];
    }
  }

  /** Taking a document out twice is the same as taking it out once. */
  lemma RemoveDocumentIdempotent(db: Db, prefix: string, id: Member, tf: Dict<real>)
    requires WellFormed(db)
    ensures RemoveDocument(RemoveDocument(db, prefix, id, tf), prefix, id, tf) == RemoveDocument(db, prefix, id, tf)
  {
    var once := RemoveDocument(db, prefix, id, tf);
    var twice := RemoveDocument(once, prefix, id, tf);
    assert WellFormed(once) && WellFormed(twice) by {
      RemoveDocumentEffect(db, prefix, id, tf);
      RemoveDocumentEffect(once, prefix, id, tf);
    }
    forall k
      ensures Members(twice, k) == Members(once, k)
    {
      RemoveDocumentEffect(db, prefix, id, tf);
      RemoveDocumentEffect(once, prefix, id, tf);
    }
    forall k
      ensures Scores(twice, k) == Scores(once, k)
    {
      RemoveDocumentEffect(db, prefix, id, tf);
      RemoveDocumentEffect(once, prefix, id, tf);
      assert Scores(db, k) - {id} - {id} == Scores(db, k) - {id};
    }
    DbExt(twice, once);
  }

  /** Taking out a document that was just indexed, and that appeared under
      none of the keys indexing touched, restores the database. */
  lemma RemoveUndoesAdd(db: Db, prefix: string, id: Member, tf: Dict<real>)
    requires WellFormed(db) && DistinctKeys(tf)
    requires id !in Members(db, IndexedKey(prefix))
    requires forall t :: t in Keys(tf) ==> id !in Scores(db, prefix + t)
    ensures RemoveDocument(AddDocument(db, prefix, id, tf), prefix, id, tf) == db
  {
    var added := AddDocument(db, prefix, id, tf);
    var back := RemoveDocument(added, prefix, id, tf);
    AddDocumentEffect(db, prefix, id, tf);
    RemoveDocumentEffect(added, prefix, id, tf);
    forall k
      ensures Members(back, k) == Members(db, k)
    {
      if k == IndexedKey(prefix) {
        assert Members(db, k) + {id} - {id} == Members(db, k);
      }
    }
    forall k
      ensures Scores(back, k) == Scores(db, k)
    {
      if IsTermKey(prefix, Keys(tf), k) {
        var v := Get(tf, k[|prefix|..], 0.0);
        assert id !in Scores(db, k) by {
          SplitTermKey(prefix, k);
        }
        assert Scores(back, k) == Scores(db, k)[id := v] - {id};
        ForgetNewMember(Scores(db, k), id, v);
      }
    }
    DbExt(back, db);
  }

  lemma ForgetNewMember(z: map<Member, real>, id: Member, v: real)
    requires id !in z
    ensures z[id := v] - {id} == z
  {
  }

  /** No term key is the key of the indexed set, since a term holds no
      colon (every token is such a term, by `TokensAreWellFormed`). This is
      why the model may keep plain sets and sorted sets apart. */
  lemma IndexedKeyIsNotTermKey(prefix: string, t: string)
    requires forall c :: c in t ==> IsWordChar(c)
    ensures prefix + t != IndexedKey(prefix)
  {
    if |t| == 8 {
      assert t[7] in t;
      assert (prefix + t)[|prefix| + 7] == t[7];
      assert IndexedKey(prefix)[|prefix| + 7] == ':';
    }
  }
}
