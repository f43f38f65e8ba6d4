/** The connection the search engine writes through: an in-memory Redis
    whose commands update its two key spaces in place. Each command is
    specified by the matching function of `RedisModel`. */
module RedisStore {
  import opened Seqs
  import opened Dicts
  import opened RedisModel

  class Store {
    var sets: map<Key, set<Member>>
    var zsets: map<Key, map<Member, real>>

    /** The database the store holds. */
    function State(): Db
      reads this
    {
      Db(sets, zsets)
    }

    ghost predicate Valid()
      reads this
    {
      WellFormed(State())
    }

    /** A server with no keys. */
    constructor ()
      ensures State() == Db(map[], map[])
      ensures Valid()
    {
      sets := map[];
      zsets := map[];
    }

    method SAdd(k: Key, m: Member)
      requires Valid()
      modifies this
      ensures State() == RedisModel.SAdd(old(State()), k, m)
      ensures Valid()
    {
      SAddEffect(State(), k, m);
      var s := if k in sets then sets[k] else {};
      sets := sets[k := s + {m}];
    }

    method SRem(k: Key, m: Member)
      requires Valid()
      modifies this
      ensures State() == RedisModel.SRem(old(State()), k, m)
      ensures Valid()
    {
      SRemEffect(State(), k, m);
      var s := (if k in sets then sets[k] else {}) - {m};
      if s == {} {
        sets := sets - {k};
      } else {
        sets := sets[k := s];
      }
    }

    method SCard(k: Key) returns (n: nat)
      ensures n == |Members(State(), k)|
    {
      n := if k in sets then |sets[k]| else 0;
    }

    method ZAdd(k: Key, m: Member, score: real)
      requires Valid()
      modifies this
      ensures State() == RedisModel.ZAdd(old(State()), k, m, score)
      ensures Valid()
    {
      ZAddEffect(State(), k, m, score);
      var z := if k in zsets then zsets[k] else map[];
      zsets := zsets[k := z[m := score]];
    }

    method ZRem(k: Key, m: Member)
      requires Valid()
      modifies this
      ensures State() == RedisModel.ZRem(old(State()), k, m)
      ensures Valid()
    {
      ZRemEffect(State(), k, m);
      var z := (if k in zsets then zsets[k] else map[]) - {m};
      if z == map[] {
        zsets := zsets - {k};
      } else {
        zsets := zsets[k := z];
      }
    }

    method ZCard(k: Key) returns (n: nat)
      ensures n == |Scores(State(), k)|
    {
      n := if k in zsets then |zsets[k]| else 0;
    }

    /** ZUNIONSTORE dest with WEIGHTS, answering the size of the union. */
    method ZUnionStore(dest: Key, weights: Dict<real>) returns (n: nat)
      requires Valid()
      modifies this
      ensures State() == RedisModel.ZUnionStore(old(State()), dest, weights)
      ensures n == |Union(old(State()), weights)|
      ensures Valid()
    {
      ZUnionStoreEffect(State(), dest, weights);
      var u := Union(State(), weights);
      n := |u|;
      if u == map[] {
        sets := sets - {dest};
        zsets := zsets - {dest};
      } else {
        sets := sets - {dest};
        zsets := zsets[dest := u];
      }
    }

    /** ZREVRANGE k start stop WITHSCORES: rank the sorted set by picking
        the highest remaining score again and again, then read the range. */
    method ZRevRange(k: Key, start: int, stop: int) returns (page: seq<(Member, real)>)
      ensures IsPage(Scores(State(), k), page, start, stop)
    {
      var z := if k in zsets then zsets[k] else map[];
      var ranked: seq<(Member, real)> := [];
      var rest := z.Keys;
      RankingStart(z);
      while rest != {}
        invariant PartialRanking(z, ranked, rest)
        decreases |rest|
      {
        MaxExists(z, rest);
        var m :| m in rest && forall r :: r in rest ==> z[r] <= z[m];
        RankingStep(z, ranked, rest, m);
        ranked := ranked + [(m, z[m])];
        rest := rest - {m};
      }
      RankingDone(z, ranked);
      page := RangeDesc(ranked, start, stop);
    }

    method Delete(k: Key)
      modifies this
      ensures State() == Del(old(State()), k)
      ensures old(Valid()) ==> Valid()
    {
      sets := sets - {k};
      zsets := zsets - {k};
    }
  }
}
