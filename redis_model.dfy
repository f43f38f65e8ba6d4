/** The part of a Redis server the search engine talks to: plain sets and
    sorted sets held under string keys, and the commands SADD, SREM, SCARD,
    ZADD, ZREM, ZCARD, ZUNIONSTORE, ZREVRANGE and DEL. Each command is a
    function from the old database to the new one. Redis deletes a key whose
    collection becomes empty, so to every command a missing key and an empty
    collection are the same thing. */
module RedisModel {
  import opened Seqs
  import opened Dicts

  type Key = string
  type Member = string

  /** The keys holding plain sets and the keys holding sorted sets, each
      sorted set a map from member to score. */
  datatype Db = Db(sets: map<Key, set<Member>>, zsets: map<Key, map<Member, real>>)

  /** No key holds an empty collection. */
  ghost predicate WellFormed(db: Db)
  {
    && (forall k :: k in db.sets ==> db.sets[k] != {})
    && (forall k :: k in db.zsets ==> db.zsets[k] != map[])
  }

  /** The set stored at `k`, empty when there is none. */
  function Members(db: Db, k: Key): set<Member>
  {
    if k in db.sets then db.sets[k] else {}
  }

  /** The sorted set stored at `k`, empty when there is none. */
  function Scores(db: Db, k: Key): map<Member, real>
  {
    if k in db.zsets then db.zsets[k] else map[]
  }

  function SAdd(db: Db, k: Key, m: Member): Db
  {
    db.(sets := db.sets[k := Members(db, k) + {m}])
  }

  function SRem(db: Db, k: Key, m: Member): Db
  {
    var s := Members(db, k) - {m};
    if s == {} then db.(sets := db.sets - {k}) else db.(sets := db.sets[k := s])
  }

  function SCard(db: Db, k: Key): nat
  {
    |Members(db, k)|
  }

  function ZAdd(db: Db, k: Key, m: Member, score: real): Db
  {
    db.(zsets := db.zsets[k := Scores(db, k)[m := score]])
  }

  function ZRem(db: Db, k: Key, m: Member): Db
  {
    var z := Scores(db, k) - {m};
    if z == map[] then db.(zsets := db.zsets - {k}) else db.(zsets := db.zsets[k := z])
  }

  function ZCard(db: Db, k: Key): nat
  {
    |Scores(db, k)|
  }

  function Del(db: Db, k: Key): Db
  {
    Db(db.sets - {k}, db.zsets - {k})
  }

  /** Every member of the sorted sets the weights name. */
  function UnionMembers(db: Db, weights: Dict<real>): set<Member>
  {
    if weights == [] then {}
    else UnionMembers(db, weights[..|weights| - 1]) + Scores(db, weights[|weights| - 1].0).Keys
  }

  /** A member's score in a sorted set; a set it is not in adds nothing to
      the SUM aggregate. */
  function ScoreIn(z: map<Member, real>, m: Member): real
  {
    if m in z then z[m] else 0.0
  }

  /** The SUM aggregate of ZUNIONSTORE: the member's score in each weighted
      set times that set's weight, added up. */
  function WeightedScore(db: Db, weights: Dict<real>, m: Member): real
  {
    if weights == [] then 0.0
    else
      var last := weights[|weights| - 1];
      WeightedScore(db, weights[..|weights| - 1], m) + last.1 * ScoreIn(Scores(db, last.0), m)
  }

  /** The sorted set ZUNIONSTORE computes. */
  function Union(db: Db, weights: Dict<real>): map<Member, real>
  {
    map m | m in UnionMembers(db, weights) :: WeightedScore(db, weights, m)
  }

  /** ZUNIONSTORE dest with WEIGHTS: `dest`, whatever it held, becomes the
      union, or is deleted when the union is empty. */
  function ZUnionStore(db: Db, dest: Key, weights: Dict<real>): Db
  {
    var u := Union(db, weights);
    if u == map[] then Del(db, dest) else Db(db.sets - {dest}, db.zsets[dest := u])
  }

  /** `ranked` lists every member of `z` once, with its score, highest score
      first. Members with equal scores may come in any order. */
  ghost predicate IsRanking(z: map<Member, real>, ranked: seq<(Member, real)>)
  {
    && NoDup(Keys(ranked))
    && (forall i :: 0 <= i < |ranked| ==> ranked[i].0 in z && ranked[i].1 == z[ranked[i].0])
    && (forall m :: m in z ==> m in Keys(ranked))
    && (forall i, j :: 0 <= i < j < |ranked| ==> ranked[i].1 >= ranked[j].1)
  }

  /** The ranks `start` to `stop`, both included, the way ZREVRANGE reads
      them from `n` ranks, as the half-open index range `b.0 .. b.1`: a
      negative index counts from the end, a start before the first rank is
      moved to it, a stop after the last rank is moved to it, and a range
      that is empty after that gives nothing. */
  function RangeBounds(n: nat, start: int, stop: int): (b: (nat, nat))
    ensures b.0 <= b.1 <= n
    ensures b.0 < b.1 ==> b.0 == (if start < 0 then (if start + n < 0 then 0 else start + n) else start)
  {
    var s0 := if start < 0 then start + n else start;
    var e := if stop < 0 then stop + n else stop;
    var s := if s0 < 0 then 0 else s0;
    if s > e || s >= n then (0, 0)
    else (s, if e >= n then n else e + 1)
  }

  /** ZREVRANGE start stop WITHSCORES over a ranking. */
  function RangeDesc(ranked: seq<(Member, real)>, start: int, stop: int): seq<(Member, real)>
  {
    var b := RangeBounds(|ranked|, start, stop);
    ranked[b.0..b.1]
  }

  /** `page` is what ZREVRANGE start stop WITHSCORES answers for `z`. */
  ghost predicate IsPage(z: map<Member, real>, page: seq<(Member, real)>, start: int, stop: int)
  {
    exists ranked :: IsRanking(z, ranked) && page == RangeDesc(ranked, start, stop)
  }

  /** Two well-formed databases that agree on every key are equal. */
  lemma DbExt(a: Db, b: Db)
    requires WellFormed(a) && WellFormed(b)
    requires forall k :: Members(a, k) == Members(b, k)
    requires forall k :: Scores(a, k) == Scores(b, k)
    ensures a == b
  {
    forall k
      ensures k in a.sets <==> k in b.sets
      ensures k in a.zsets <==> k in b.zsets
    {
      assert Members(a, k) == Members(b, k);
      assert Scores(a, k) == Scores(b, k);
    }
    forall k | k in a.sets
      ensures a.sets[k] == b.sets[k]
    {
      assert Members(a, k) == Members(b, k);
    }
    forall k | k in a.zsets
      ensures a.zsets[k] == b.zsets[k]
    {
      assert Scores(a, k) == Scores(b, k);
    }
    assert a.sets == b.sets;
    assert a.zsets == b.zsets;
  }

  /** What SADD, SREM, ZADD and ZREM do to each key, and that they keep the
      database well formed. */
  lemma SAddEffect(db: Db, k: Key, m: Member)
    ensures forall x :: Members(SAdd(db, k, m), x) == if x == k then Members(db, k) + {m} else Members(db, x)
    ensures SAdd(db, k, m).zsets == db.zsets
    ensures WellFormed(db) ==> WellFormed(SAdd(db, k, m))
  {
  }

  lemma SRemEffect(db: Db, k: Key, m: Member)
    ensures forall x :: Members(SRem(db, k, m), x) == if x == k then Members(db, k) - {m} else Members(db, x)
    ensures SRem(db, k, m).zsets == db.zsets
    ensures WellFormed(db) ==> WellFormed(SRem(db, k, m))
  {
  }

  lemma ZAddEffect(db: Db, k: Key, m: Member, score: real)
    ensures forall x :: Scores(ZAdd(db, k, m, score), x) == if x == k then Scores(db, k)[m := score] else Scores(db, x)
    ensures ZAdd(db, k, m, score).sets == db.sets
    ensures WellFormed(db) ==> WellFormed(ZAdd(db, k, m, score))
  {
    assert m in Scores(db, k)[m := score];
  }

  lemma ZRemEffect(db: Db, k: Key, m: Member)
    ensures forall x :: Scores(ZRem(db, k, m), x) == if x == k then Scores(db, k) - {m} else Scores(db, x)
    ensures ZRem(db, k, m).sets == db.sets
    ensures WellFormed(db) ==> WellFormed(ZRem(db, k, m))
  {
  }

  /** SREM undoes an SADD of a new member. */
  lemma SRemUndoesSAdd(db: Db, k: Key, m: Member)
    requires WellFormed(db) && m !in Members(db, k)
    ensures SRem(SAdd(db, k, m), k, m) == db
  {
    SAddEffect(db, k, m);
    SRemEffect(SAdd(db, k, m), k, m);
    assert Members(db, k) + {m} - {m} == Members(db, k);
    DbExt(SRem(SAdd(db, k, m), k, m), db);
  }

  /** ZREM undoes a ZADD of a new member. */
  lemma ZRemUndoesZAdd(db: Db, k: Key, m: Member, score: real)
    requires WellFormed(db) && m !in Scores(db, k)
    ensures ZRem(ZAdd(db, k, m, score), k, m) == db
  {
    ZAddEffect(db, k, m, score);
    ZRemEffect(ZAdd(db, k, m, score), k, m);
    assert Scores(db, k)[m := score] - {m} == Scores(db, k);
    DbExt(ZRem(ZAdd(db, k, m, score), k, m), db);
  }

  /** The union holds exactly the members of the weighted sets. */
  lemma {:induction false} UnionMembersSpec(db: Db, weights: Dict<real>, m: Member)
    ensures m in Union(db, weights) <==> exists i :: 0 <= i < |weights| && m in Scores(db, weights[i].0)
  {
    if weights != [] {
      var p := weights[..|weights| - 1];
      UnionMembersSpec(db, p, m);
      if m in Union(db, p) {
        var i :| 0 <= i < |p| && m in Scores(db, p[i].0);
        assert weights[i] == p[i];
      }
      if exists i :: 0 <= i < |weights| && m in Scores(db, weights[i].0) {
        var i :| 0 <= i < |weights| && m in Scores(db, weights[i].0);
        if i < |p| {
          assert p[i] == weights[i];
        }
      }
    }
  }

  /** A weight on a non-empty sorted set makes the union non-empty. */
  lemma UnionNonEmpty(db: Db, weights: Dict<real>, i: nat)
    requires i < |weights| && ZCard(db, weights[i].0) > 0
    ensures |Union(db, weights)| > 0
  {
    var m :| m in Scores(db, weights[i].0);
    UnionMembersSpec(db, weights, m);
  }

  /** With non-negative weights, a member that scores at least as high as
      another in every weighted set scores at least as high in the union. */
  lemma {:induction false} WeightedScoreMonotone(db: Db, weights: Dict<real>, a: Member, b: Member)
    requires forall i :: 0 <= i < |weights| ==> weights[i].1 >= 0.0
    requires forall i :: 0 <= i < |weights| ==> ScoreIn(Scores(db, weights[i].0), a) >= ScoreIn(Scores(db, weights[i].0), b)
    ensures WeightedScore(db, weights, a) >= WeightedScore(db, weights, b)
  {
    if weights != [] {
      var p := weights[..|weights| - 1];
      var last := weights[|weights| - 1];
      assert forall i :: 0 <= i < |p| ==> p[i] == weights[i];
      WeightedScoreMonotone(db, p, a, b);
      ScaleMonotone(last.1, ScoreIn(Scores(db, last.0), a), ScoreIn(Scores(db, last.0), b));
    }
  }

  lemma ScaleMonotone(w: real, x: real, y: real)
    requires w >= 0.0 && x >= y
    ensures w * x >= w * y
  {
  }

  /** Deleting the destination of a ZUNIONSTORE that did not exist before
      restores the database. */
  lemma DelUndoesZUnionStore(db: Db, dest: Key, weights: Dict<real>)
    requires dest !in db.sets && dest !in db.zsets
    ensures Del(ZUnionStore(db, dest, weights), dest) == db
  {
    assert db.sets - {dest} == db.sets;
    assert db.zsets - {dest} == db.zsets;
    assert db.sets - {dest} - {dest} == db.sets;
    assert db.zsets[dest := Union(db, weights)] - {dest} == db.zsets;
  }

  /** What ZUNIONSTORE leaves at the destination and elsewhere. */
  lemma ZUnionStoreEffect(db: Db, dest: Key, weights: Dict<real>)
    ensures Scores(ZUnionStore(db, dest, weights), dest) == Union(db, weights)
    ensures forall k :: k != dest ==> Scores(ZUnionStore(db, dest, weights), k) == Scores(db, k)
    ensures forall k :: k != dest ==> Members(ZUnionStore(db, dest, weights), k) == Members(db, k)
    ensures WellFormed(db) ==> WellFormed(ZUnionStore(db, dest, weights))
  {
  }

  /** A ranking has one entry per member. */
  lemma RankingLength(z: map<Member, real>, ranked: seq<(Member, real)>)
    requires IsRanking(z, ranked)
    ensures |ranked| == |z|
  {
    var ms := Keys(ranked);
    NoDupCardinality(ms);
    assert (set x | x in ms) == z.Keys;
  }

  /** Reading `count` ranks from `offset` gives `count` entries, fewer when
      the ranking ends first, and none when it ends before `offset`. */
  lemma PageLength(z: map<Member, real>, page: seq<(Member, real)>, offset: int, count: int)
    requires offset >= 0 && count >= 1
    requires IsPage(z, page, offset, offset + count - 1)
    ensures |page| == if offset >= |z| then 0 else if offset + count <= |z| then count else |z| - offset
  {
    var ranked :| IsRanking(z, ranked) && page == RangeDesc(ranked, offset, offset + count - 1);
    RankingLength(z, ranked);
  }

  /** A page lists distinct members with their scores, highest first. */
  lemma PageIsSorted(z: map<Member, real>, page: seq<(Member, real)>, start: int, stop: int)
    requires IsPage(z, page, start, stop)
    ensures NoDup(Keys(page))
    ensures forall i :: 0 <= i < |page| ==> page[i].0 in z && page[i].1 == z[page[i].0]
    ensures forall i, j :: 0 <= i < j < |page| ==> page[i].1 >= page[j].1
  {
    var ranked :| IsRanking(z, ranked) && page == RangeDesc(ranked, start, stop);
    var b := RangeBounds(|ranked|, start, stop);
    SliceOfRanking(z, ranked, b.0, b.1);
  }

  /** A slice of a ranking lists distinct members with their scores, highest
      first. */
  lemma SliceOfRanking(z: map<Member, real>, ranked: seq<(Member, real)>, s: nat, t: nat)
    requires IsRanking(z, ranked) && s <= t <= |ranked|
    ensures NoDup(Keys(ranked[s..t]))
    ensures forall i :: 0 <= i < t - s ==> ranked[s..t][i].0 in z && ranked[s..t][i].1 == z[ranked[s..t][i].0]
    ensures forall i, j :: 0 <= i < j < t - s ==> ranked[s..t][i].1 >= ranked[s..t][j].1
  {
    var page := ranked[s..t];
    assert forall i :: 0 <= i < |page| ==> page[i] == ranked[s + i];
    var pm := Keys(page);
    var rm := Keys(ranked);
    assert forall i :: 0 <= i < |page| ==> pm[i] == rm[s + i];
    forall i, j | 0 <= i < j < |page|
      ensures pm[i] != pm[j]
    {
      assert rm[s + i] != rm[s + j];
    }
  }

  /** A page read from the first rank holds the best scores: any member
      left off it scores no higher than every member on it. */
  lemma FirstPageIsBest(z: map<Member, real>, page: seq<(Member, real)>, stop: int, m: Member)
    requires IsPage(z, page, 0, stop)
    requires m in z && m !in Keys(page)
    ensures forall i :: 0 <= i < |page| ==> page[i].1 >= z[m]
  {
    var ranked :| IsRanking(z, ranked) && page == RangeDesc(ranked, 0, stop);
    var ms := Keys(ranked);
    var j :| 0 <= j < |ms| && ms[j] == m;
    var k := |page|;
    assert page == ranked[..k];
    forall i | 0 <= i < k
      ensures ms[i] != m
    {
      assert Keys(page)[i] == ms[i];
    }
    forall i | 0 <= i < k
      ensures page[i].1 >= z[m]
    {
      assert page[i] == ranked[i];
    }
  }

  /** A stop of -1 reaches the last rank, so reading from rank 0 to -1 gives
      every member. */
  lemma WholeRangeFromZeroToMinusOne(z: map<Member, real>, page: seq<(Member, real)>)
    requires IsPage(z, page, 0, -1)
    ensures |page| == |z|
  {
    var ranked :| IsRanking(z, ranked) && page == RangeDesc(ranked, 0, -1);
    RankingLength(z, ranked);
  }

  /** `ranked` lists the members of `z` outside `rest` with their scores,
      each once and highest first, each at least as high as every member
      still in `rest`: ZREVRANGE's ranking half built. */
  ghost predicate PartialRanking(z: map<Member, real>, ranked: seq<(Member, real)>, rest: set<Member>)
  {
    && rest <= z.Keys
    && (forall i :: 0 <= i < |ranked| ==> ranked[i].0 in z && ranked[i].1 == z[ranked[i].0] && ranked[i].0 !in rest)
    && NoDup(Keys(ranked))
    && (forall m :: m in z ==> m in rest || m in Keys(ranked))
    && (forall i, j :: 0 <= i < j < |ranked| ==> ranked[i].1 >= ranked[j].1)
    && (forall i, m :: 0 <= i < |ranked| && m in rest ==> ranked[i].1 >= z[m])
  }

  lemma RankingStart(z: map<Member, real>)
    ensures PartialRanking(z, [], z.Keys)
  {
  }

  /** Taking a highest-scored member out of `rest` extends the ranking. */
  lemma RankingStep(z: map<Member, real>, ranked: seq<(Member, real)>, rest: set<Member>, m: Member)
    requires PartialRanking(z, ranked, rest)
    requires m in rest && forall r :: r in rest ==> z[r] <= z[m]
    ensures PartialRanking(z, ranked + [(m, z[m])], rest - {m})
  {
    assert Keys(ranked + [(m, z[m])]) == Keys(ranked) + [m];
  }

  /** With nothing left to rank, the ranking is complete. */
  lemma RankingDone(z: map<Member, real>, ranked: seq<(Member, real)>)
    requires PartialRanking(z, ranked, {})
    ensures IsRanking(z, ranked)
  {
  }

  /** There is a highest score among the members still to be ranked. */
  lemma {:induction false} MaxExists(z: map<Member, real>, rest: set<Member>)
    requires rest != {} && rest <= z.Keys
    ensures exists m :: m in rest && forall r :: r in rest ==> z[r] <= z[m]
    decreases rest
  {
    var x :| x in rest;
    if rest - {x} != {} {
      MaxExists(z, rest - {x});
      var m :| m in rest - {x} && forall r :: r in rest - {x} ==> z[r] <= z[m];
      if z[x] > z[m] {
        assert forall r :: r in rest ==> z[r] <= z[x];
      } else {
        assert forall r :: r in rest ==> z[r] <= z[m];
      }
    } else {
      assert rest == {x};
    }
  }
}
