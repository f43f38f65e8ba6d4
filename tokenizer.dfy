/** The tokenizer of `get_index_keys` with `add=False`: lowercase the text,
    blank out every character other than a-z, 0-9 and the apostrophe, split
    on spaces, strip apostrophes from both ends of each word and drop stop
    words and words shorter than two characters. */
module Tokenizer {
  import opened Seqs

  /** The characters that survive `NON_WORDS` besides the space. */
  predicate IsWordChar(c: char)
  {
    'a' <= c <= 'z' || '0' <= c <= '9' || c == '\''
  }

  /** The fixed stop-word list (a function rather than a constant, so that
      the solver only sees the list where it is used). */
  function StopWords(): set<string>
  {
    {
      "a", "able", "about", "across", "after", "all", "almost", "also", "am",
      "among", "an", "and", "any", "are", "as", "at", "be", "because", "been",
      "but", "by", "can", "cannot", "could", "dear", "did", "do", "does",
      "either", "else", "ever", "every", "for", "from", "get", "got", "had",
      "has", "have", "he", "her", "hers", "him", "his", "how", "however", "i",
      "if", "in", "into", "is", "it", "its", "just", "least", "let", "like",
      "likely", "may", "me", "might", "most", "must", "my", "neither", "no",
      "nor", "not", "of", "off", "often", "on", "only", "or", "other", "our",
      "own", "rather", "said", "say", "says", "she", "should", "since", "so",
      "some", "than", "that", "the", "their", "them", "then", "there", "these",
      "they", "this", "tis", "to", "too", "twas", "us", "wants", "was", "we",
      "were", "what", "when", "where", "which", "while", "who", "whom", "why",
      "will", "with", "would", "yet", "you", "your"
    }
  }

  /** What every token looks like. */
  ghost predicate IsToken(t: string)
  {
    && |t| >= 2
    && t !in StopWords()
    && (forall c :: c in t ==> IsWordChar(c))
    && t[0] != '\''
    && t[|t| - 1] != '\''
  }

  /** ASCII lowercasing of one character. */
  function LowerChar(c: char): (l: char)
    ensures !('A' <= l <= 'Z')
    ensures 'a' <= l <= 'z' <==> 'a' <= c <= 'z' || 'A' <= c <= 'Z'
    ensures !('A' <= c <= 'Z') ==> l == c
    ensures 'A' <= c <= 'Z' ==> l as int - 'a' as int == c as int - 'A' as int
  {
    if 'A' <= c <= 'Z' then (c as int - 'A' as int + 'a' as int) as char else c
  }

  /** `content.lower()` on ASCII text. */
  function Lower(s: string): (r: string)
    ensures |r| == |s|
    ensures forall i :: 0 <= i < |s| ==> r[i] == LowerChar(s[i])
  {
    seq(|s|, i requires 0 <= i < |s| => LowerChar(s[i]))
  }

  /** `NON_WORDS.sub(' ', s)`: every character outside a-z, 0-9, the
      apostrophe and the space becomes a space. */
  function BlankNonWords(s: string): (r: string)
    ensures |r| == |s|
    ensures forall i :: 0 <= i < |s| ==> r[i] == (if IsWordChar(s[i]) || s[i] == ' ' then s[i] else ' ')
    ensures forall c :: c in r ==> IsWordChar(c) || c == ' '
  {
    seq(|s|, i requires 0 <= i < |s| => if IsWordChar(s[i]) || s[i] == ' ' then s[i] else ' ')
  }

  /** Length of the run of non-space characters that `s` starts with. */
  function WordLength(s: string): (n: nat)
    ensures n <= |s|
    ensures forall i :: 0 <= i < n ==> s[i] != ' '
    ensures n < |s| ==> s[n] == ' '
  {
    if s == [] || s[0] == ' ' then 0 else 1 + WordLength(s[1..])
  }

  /** `s.split()` on a text whose only white space is the space character:
      the maximal runs of non-space characters, in order. */
  function SplitWords(s: string): (ws: seq<string>)
    ensures forall w :: w in ws ==> w != [] && forall c :: c in w ==> c in s && c != ' '
    decreases |s|
  {
    if s == [] then []
    else if s[0] == ' ' then SplitWords(s[1..])
    else
      var n := WordLength(s);
      [s[..n]] + SplitWords(s[n..])
  }

  /** `w.lstrip("'")`. */
  function StripLeading(w: string): (r: string)
    ensures |r| <= |w| && r == w[|w| - |r|..]
    ensures forall c :: c in r ==> c in w
    ensures r == [] || r[0] != '\''
    ensures forall i :: 0 <= i < |w| - |r| ==> w[i] == '\''
  {
    if w != [] && w[0] == '\'' then StripLeading(w[1..]) else w
  }

  /** `w.rstrip("'")`. */
  function StripTrailing(w: string): (r: string)
    ensures |r| <= |w| && r == w[..|r|]
    ensures forall c :: c in r ==> c in w
    ensures r == [] || r[|r| - 1] != '\''
    ensures forall i :: |r| <= i < |w| ==> w[i] == '\''
  {
    if w != [] && w[|w| - 1] == '\'' then StripTrailing(w[..|w| - 1]) else w
  }

  /** Every character of `s` is an apostrophe. */
  predicate AllApostrophes(s: string)
  {
    forall k :: 0 <= k < |s| ==> s[k] == '\''
  }

  /** `w.strip("'")`: the word without the apostrophes at either end. */
  function StripApostrophes(w: string): (r: string)
    ensures forall c :: c in r ==> c in w
    ensures r == [] || (r[0] != '\'' && r[|r| - 1] != '\'')
    ensures exists a, b :: w == a + r + b && AllApostrophes(a) && AllApostrophes(b)
  {
    var l := StripLeading(w);
    var r := StripTrailing(l);
    SuffixThenPrefix(w, l, r);
    r
  }

  /** A prefix `r` of a suffix `l` of `w`, where both cuts removed only apostrophes. */
  lemma SuffixThenPrefix(w: string, l: string, r: string)
    requires |l| <= |w| && l == w[|w| - |l|..] && forall i :: 0 <= i < |w| - |l| ==> w[i] == '\''
    requires |r| <= |l| && r == l[..|r|] && forall i :: |r| <= i < |l| ==> l[i] == '\''
    ensures w == w[..|w| - |l|] + r + l[|r|..]
    ensures AllApostrophes(w[..|w| - |l|]) && AllApostrophes(l[|r|..])
  {
    var a := w[..|w| - |l|];
    var b := l[|r|..];
    assert w == a + l;
    assert l == r + b;
    assert a + (r + b) == a + r + b;
  }

  /** Stripping a stripped word changes nothing more. */
  lemma StripApostrophesIdempotent(w: string)
    ensures StripApostrophes(StripApostrophes(w)) == StripApostrophes(w)
  {
    var r := StripApostrophes(w);
    assert StripLeading(r) == r;
    assert StripTrailing(r) == r;
  }

  /** The filter condition of the last comprehension. */
  predicate Keep(w: string)
  {
    w !in StopWords() && |w| > 1
  }

  /** `[w for w in ws if Keep(w)]`. */
  function Filter(ws: seq<string>): (r: seq<string>)
    ensures forall w :: w in r ==> w in ws
  {
    if ws == [] then []
    else Filter(ws[..|ws| - 1]) + (if Keep(ws[|ws| - 1]) then [ws[|ws| - 1]] else [])
  }

  /** The words after splitting and stripping, before the filter. */
  function Words(content: string): (ws: seq<string>)
    ensures forall w :: w in ws ==> (forall c :: c in w ==> IsWordChar(c)) && (w == [] || (w[0] != '\'' && w[|w| - 1] != '\''))
  {
    var blanked := BlankNonWords(Lower(content));
    var split := SplitWords(blanked);
    assert forall w, c :: w in split && c in w ==> c in blanked && c != ' ';
    assert forall i :: 0 <= i < |split| ==> split[i] in split;
    seq(|split|, i requires 0 <= i < |split| => StripApostrophes(split[i]))
  }

  /** `get_index_keys(content, False)`. */
  function Tokens(content: string): seq<string>
  {
    Filter(Words(content))
  }

  /** Only words that pass the filter survive it. */
  lemma {:induction false} FilterKeeps(ws: seq<string>)
    ensures forall w :: w in Filter(ws) ==> Keep(w)
  {
    if ws != [] {
      FilterKeeps(ws[..|ws| - 1]);
    }
  }

  /** Every token has at least two characters, is not a stop word, uses
      only a-z, 0-9 and the apostrophe, and neither starts nor ends with an
      apostrophe. */
  lemma TokensAreWellFormed(content: string)
    ensures forall t :: t in Tokens(content) ==> IsToken(t)
  {
    FilterKeeps(Words(content));
  }

  /** Splitting at a space splits the two sides independently. */
  lemma {:induction false} SplitWordsAtSpace(a: string, b: string)
    ensures SplitWords(a + [' '] + b) == SplitWords(a) + SplitWords(b)
    decreases |a|
  {
    var s := a + [' '] + b;
    if a == [] {
      assert s[1..] == b;
    } else if a[0] == ' ' {
      assert s[1..] == a[1..] + [' '] + b;
      SplitWordsAtSpace(a[1..], b);
    } else {
      var n := WordLength(s);
      var m := WordLength(a);
      if m < |a| {
        assert s[m] == a[m];
      } else {
        assert s[m] == ' ';
      }
      assert n == m;
      assert s[..n] == a[..m];
      assert s[n..] == a[m..] + [' '] + b;
      SplitWordsAtSpace(a[m..], b);
    }
  }

  /** A non-empty run of non-space characters is a single word. */
  lemma {:induction false} SplitWordsSingleWord(w: string)
    requires w != [] && ' ' !in w
    ensures SplitWords(w) == [w]
  {
    var n := WordLength(w);
    assert n == |w|;
    assert w[..n] == w;
    assert w[n..] == [];
  }

  /** The filter keeps the words in order and does not merge duplicates. */
  lemma FilterKeepsOrderAndCounts(ws: seq<string>)
    ensures IsSubsequence(Filter(ws), ws)
    ensures forall w :: Count(Filter(ws), w) == if Keep(w) then Count(ws, w) else 0
  {
    FilterKeepsOrder(ws);
    FilterCounts(ws);
  }

  /** The words the filter keeps are a subsequence of its input. */
  lemma {:induction false} FilterKeepsOrder(ws: seq<string>)
    ensures IsSubsequence(Filter(ws), ws)
  {
    if ws != [] {
      var p := ws[..|ws| - 1];
      var x := ws[|ws| - 1];
      FilterKeepsOrder(p);
      var f := Filter(p);
      if Keep(x) {
        assert Filter(ws) == f + [x];
        assert (f + [x])[..|f|] == f;
      } else {
        assert Filter(ws) == f;
        if f != [] {
          assert IsSubsequence(f, p);
        }
      }
    }
  }

  /** A kept word occurs as often as in the input, a dropped word not at all. */
  lemma {:induction false} FilterCounts(ws: seq<string>)
    ensures forall w :: Count(Filter(ws), w) == if Keep(w) then Count(ws, w) else 0
  {
    if ws != [] {
      var p := ws[..|ws| - 1];
      var x := ws[|ws| - 1];
      FilterCounts(p);
      var f := Filter(p);
      if Keep(x) {
        assert Filter(ws) == f + [x];
        assert (f + [x])[..|f|] == f;
      } else {
        assert Filter(ws) == f;
      }
    }
  }

  /** Tokens are the stripped words that pass the filter, in the order they
      appear, each as often as it appears. */
  lemma TokensAreFilteredWords(content: string)
    ensures IsSubsequence(Tokens(content), Words(content))
    ensures forall w :: Count(Tokens(content), w) == if Keep(w) then Count(Words(content), w) else 0
  {
    FilterKeepsOrderAndCounts(Words(content));
  }

  /** Tokenizing ignores ASCII case. */
  lemma TokensIgnoreCase(content: string)
    ensures Tokens(Lower(content)) == Tokens(content)
  {
    assert Lower(Lower(content)) == Lower(content);
  }
}
