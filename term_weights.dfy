/** The term weighter of `get_index_keys` with `add=True`: count every token
    and divide each count by the number of tokens. */
module TermWeights {
  import opened Seqs
  import opened Dicts

  /** The `counts` defaultdict after counting `words`: each distinct word in
      order of first appearance, with its number of occurrences. */
  function CountsOf(words: seq<string>): (d: Dict<real>)
  {
    var ks := Distinct(words);
    seq(|ks|, i requires 0 <= i < |ks| => (ks[i], Count(words, ks[i]) as real))
  }

  lemma CountsOfKeys(words: seq<string>)
    ensures Keys(CountsOf(words)) == Distinct(words)
  {
  }

  /** `dict((word, count / wordcount) for word, count in counts.items())`;
      the division only happens for an entry, so an empty `counts` needs no
      non-zero `wordcount`. */
  function Normalized(counts: Dict<real>, wordcount: nat): (tf: Dict<real>)
    requires counts == [] || wordcount > 0
    ensures Keys(tf) == Keys(counts)
  {
    seq(|counts|, i requires 0 <= i < |counts| => (counts[i].0, counts[i].1 / wordcount as real))
  }

  /** The weights of a token list: every distinct token with its count
      divided by the number of tokens. */
  function TermFrequencies(words: seq<string>): (tf: Dict<real>)
  {
    var counts := CountsOf(words);
    assert counts != [] ==> counts[0].0 in words;
    Normalized(counts, |words|)
  }

  /** Sum of the values of a dict, in iteration order. */
  function SumOfValues(d: Dict<real>): real
  {
    if d == [] then 0.0 else d[0].1 + SumOfValues(d[1..])
  }

  /** The add=True half of `get_index_keys`, applied to the tokens: the
      counting loop, then the normalisation. */
  method Weigh(words: seq<string>) returns (tf: Dict<real>)
    ensures tf == TermFrequencies(words)
  {
    var counts: Dict<real> := [];
    for i := 0 to |words|
      invariant counts == CountsOf(words[..i])
    {
      var word := words[i];
      assert CountsOf(words[..i + 1]) == Put(counts, word, Get(counts, word, 0.0) + 1.0) by {
        assert words[..i + 1] == words[..i] + [word];
        CountsOfSnoc(words[..i], word);
      }
      counts := Put(counts, word, Get(counts, word, 0.0) + 1.0);
    }
    assert counts == CountsOf(words) by {
      assert words[..|words|] == words;
    }
    assert counts != [] ==> counts[0].0 in words;
    tf := Normalized(counts, |words|);
  }

  /** Counting one more word bumps its count, adding it at the end when it is
      new: the step of the counting loop. */
  lemma CountsOfSnoc(p: seq<string>, x: string)
    ensures CountsOf(p + [x]) == Put(CountsOf(p), x, Get(CountsOf(p), x, 0.0) + 1.0)
  {
    if x in p {
      var j :| 0 <= j < |Distinct(p)| && Distinct(p)[j] == x;
      CountsOfSnocSeen(p, x, j);
    } else {
      CountsOfSnocNew(p, x);
    }
  }

  lemma CountsOfSnocSeen(p: seq<string>, x: string, j: nat)
    requires j < |Distinct(p)| && Distinct(p)[j] == x
    ensures CountsOf(p + [x]) == Put(CountsOf(p), x, Get(CountsOf(p), x, 0.0) + 1.0)
  {
    var c := CountsOf(p);
    var v := Count(p, x) as real + 1.0;
    assert Get(c, x, 0.0) + 1.0 == v by {
      CountsOfKeys(p);
      GetAt(c, j, 0.0);
    }
    assert Put(c, x, v) == c[j := (x, v)] by {
      CountsOfKeys(p);
      PutExisting(c, j, v);
    }
    assert CountsOf(p + [x]) == c[j := (x, v)] by {
      RecountSeen(p, x, j);
    }
  }

  /** The entries after counting a word seen before. */
  lemma RecountSeen(p: seq<string>, x: string, j: nat)
    requires j < |Distinct(p)| && Distinct(p)[j] == x
    ensures CountsOf(p + [x]) == CountsOf(p)[j := (x, Count(p, x) as real + 1.0)]
  {
    var cw := CountsOf(p + [x]);
    var r := CountsOf(p)[j := (x, Count(p, x) as real + 1.0)];
    assert |cw| == |r| by {
      DistinctSnoc(p, x);
    }
    forall i | 0 <= i < |r|
      ensures cw[i] == r[i]
    {
      RecountSeenAt(p, x, j, i);
    }
  }

  lemma RecountSeenAt(p: seq<string>, x: string, j: nat, i: nat)
    requires j < |Distinct(p)| && Distinct(p)[j] == x && i < |Distinct(p)|
    ensures i < |CountsOf(p + [x])|
    ensures CountsOf(p + [x])[i] == CountsOf(p)[j := (x, Count(p, x) as real + 1.0)][i]
  {
    var d := Distinct(p);
    var w := p + [x];
    assert Distinct(w) == d by {
      DistinctSnoc(p, x);
    }
    CountsOfAt(w, i);
    CountsOfAt(p, i);
    var t := d[i];
    assert Count(w, t) == Count(p, t) + (if t == x then 1 else 0) by {
      CountSnoc(p, x, t);
    }
    if i != j {
      assert t != x by {
        assert NoDup(d);
      }
    }
  }

  lemma CountsOfSnocNew(p: seq<string>, x: string)
    requires x !in p
    ensures CountsOf(p + [x]) == Put(CountsOf(p), x, Get(CountsOf(p), x, 0.0) + 1.0)
  {
    var c := CountsOf(p);
    assert Get(c, x, 0.0) == 0.0 by {
      CountsOfKeys(p);
      GetMissing(c, x, 0.0);
    }
    assert Put(c, x, 1.0) == c + [(x, 1.0)] by {
      CountsOfKeys(p);
      PutNew(c, x, 1.0);
    }
    assert CountsOf(p + [x]) == c + [(x, 1.0)] by {
      RecountNew(p, x);
    }
  }

  /** The entries after counting a new word. */
  lemma RecountNew(p: seq<string>, x: string)
    requires x !in p
    ensures CountsOf(p + [x]) == CountsOf(p) + [(x, 1.0)]
  {
    var cw := CountsOf(p + [x]);
    var r := CountsOf(p) + [(x, 1.0)];
    assert |cw| == |r| by {
      DistinctSnoc(p, x);
    }
    forall i | 0 <= i < |r|
      ensures cw[i] == r[i]
    {
      RecountNewAt(p, x, i);
    }
  }

  lemma RecountNewAt(p: seq<string>, x: string, i: nat)
    requires x !in p && i <= |Distinct(p)|
    ensures i < |CountsOf(p + [x])|
    ensures CountsOf(p + [x])[i] == (CountsOf(p) + [(x, 1.0)])[i]
  {
    if i < |Distinct(p)| {
      RecountNewOld(p, x, i);
    } else {
      RecountNewLast(p, x);
    }
  }

  lemma RecountNewOld(p: seq<string>, x: string, i: nat)
    requires x !in p && i < |Distinct(p)|
    ensures i < |CountsOf(p + [x])|
    ensures CountsOf(p + [x])[i] == CountsOf(p)[i]
  {
    var d := Distinct(p);
    var w := p + [x];
    assert Distinct(w) == d + [x] by {
      DistinctSnoc(p, x);
    }
    CountsOfAt(w, i);
    CountsOfAt(p, i);
    var t := d[i];
    assert (d + [x])[i] == t;
    assert t != x by {
      assert t in d;
    }
    assert Count(w, t) == Count(p, t) by {
      CountSnoc(p, x, t);
    }
  }

  lemma RecountNewLast(p: seq<string>, x: string)
    requires x !in p
    ensures |CountsOf(p + [x])| == |Distinct(p)| + 1
    ensures CountsOf(p + [x])[|Distinct(p)|] == (x, 1.0)
  {
    var d := Distinct(p);
    var w := p + [x];
    assert Distinct(w) == d + [x] by {
      DistinctSnoc(p, x);
    }
    CountsOfAt(w, |d|);
    assert (d + [x])[|d|] == x;
    assert Count(w, x) == 1 by {
      CountSnoc(p, x, x);
    }
  }

  /** The `i`-th entry of the counts. */
  lemma CountsOfAt(words: seq<string>, i: nat)
    requires i < |Distinct(words)|
    ensures |CountsOf(words)| == |Distinct(words)|
    ensures CountsOf(words)[i] == (Distinct(words)[i], Count(words, Distinct(words)[i]) as real)
  {
  }

  lemma CountSnoc(p: seq<string>, x: string, t: string)
    ensures Count(p + [x], t) == Count(p, t) + (if t == x then 1 else 0)
  {
    assert (p + [x])[..|p|] == p;
  }

  lemma DistinctSnoc(p: seq<string>, x: string)
    ensures Distinct(p + [x]) == if x in p then Distinct(p) else Distinct(p) + [x]
  {
    assert (p + [x])[..|p|] == p;
  }

  lemma {:induction false} SumOfValuesAppend(d: Dict<real>, e: (string, real))
    ensures SumOfValues(d + [e]) == SumOfValues(d) + e.1
  {
    if d != [] {
      assert (d + [e])[1..] == d[1..] + [e];
      SumOfValuesAppend(d[1..], e);
    }
  }

  lemma {:induction false} SumOfValuesReplace(d: Dict<real>, j: nat, e: (string, real))
    requires j < |d|
    ensures SumOfValues(d[j := e]) == SumOfValues(d) - d[j].1 + e.1
  {
    if j > 0 {
      assert d[j := e][1..] == d[1..][j - 1 := e];
      SumOfValuesReplace(d[1..], j - 1, e);
    }
  }

  /** The counts add up to the number of words. */
  lemma {:induction false} CountsSumToLength(words: seq<string>)
    ensures SumOfValues(CountsOf(words)) == |words| as real
  {
    if words != [] {
      var p := words[..|words| - 1];
      var x := words[|words| - 1];
      assert words == p + [x];
      CountsSumToLength(p);
      CountsOfSnoc(p, x);
      var c := CountsOf(p);
      var d := Distinct(p);
      if x in p {
        var j :| 0 <= j < |d| && d[j] == x;
        GetAt(c, j, 0.0);
        PutExisting(c, j, c[j].1 + 1.0);
        SumOfValuesReplace(c, j, (x, c[j].1 + 1.0));
      } else {
        GetMissing(c, x, 0.0);
        PutNew(c, x, 1.0);
        SumOfValuesAppend(c, (x, 1.0));
      }
    }
  }

  /** Dividing every value by `n` divides the sum by `n`. */
  lemma {:induction false} NormalizedSum(counts: Dict<real>, n: nat)
    requires n > 0
    ensures SumOfValues(Normalized(counts, n)) == SumOfValues(counts) / n as real
  {
    if counts != [] {
      assert Normalized(counts, n)[1..] == Normalized(counts[1..], n);
      NormalizedSum(counts[1..], n);
    }
  }

  /** The keys of the weights are exactly the distinct tokens, each once, and
      there are as many weights as distinct tokens; no tokens, no weights. */
  lemma TermFrequenciesKeys(words: seq<string>)
    ensures forall t :: t in Keys(TermFrequencies(words)) <==> t in words
    ensures DistinctKeys(TermFrequencies(words))
    ensures |TermFrequencies(words)| == |set t | t in words|
    ensures words == [] ==> TermFrequencies(words) == []
  {
    CountsOfKeys(words);
    NoDupCardinality(Distinct(words));
    assert (set t | t in Distinct(words)) == (set t | t in words);
  }

  /** Each weight is the token's count over the number of tokens, so it lies
      in (0, 1]. */
  lemma TermFrequencyValues(words: seq<string>, i: nat)
    requires i < |TermFrequencies(words)|
    ensures TermFrequencies(words)[i].1 == Count(words, TermFrequencies(words)[i].0) as real / |words| as real
    ensures 0.0 < TermFrequencies(words)[i].1 <= 1.0
  {
    var t := TermFrequencies(words)[i].0;
    assert t == Distinct(words)[i];
    var c := Count(words, t) as real;
    var n := |words| as real;
    assert 0.0 < c <= n;
    FractionBounds(c, n);
  }

  lemma FractionBounds(c: real, n: real)
    requires 0.0 < c <= n
    ensures 0.0 < c / n <= 1.0
    ensures c == n ==> c / n == 1.0
  {
  }

  /** The weights of a non-empty token list sum to one. */
  lemma TermFrequenciesSumToOne(words: seq<string>)
    requires words != []
    ensures SumOfValues(TermFrequencies(words)) == 1.0
  {
    CountsSumToLength(words);
    NormalizedSum(CountsOf(words), |words|);
    var n := |words| as real;
    assert SumOfValues(TermFrequencies(words)) == n / n;
    FractionBounds(n, n);
  }
}
