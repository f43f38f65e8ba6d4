# A TF-IDF search engine over Redis, in Dafny

This project models `search_engine.py`, a small full-text search engine.
It keeps an inverted index in Redis:

- every indexed document id is a member of the plain set `prefix + "indexed:"`;
- every term `t` has a sorted set `prefix + t` that maps each document
  holding the term to the term's frequency in that document.

The model covers the three functions that make up the engine.

- **`get_index_keys`**.
  - The tokenizer (modules `Tokenizer` and `Seqs`): it lowercases the text,
    blanks out everything except `a-z`, `0-9`, the apostrophe and the space,
    splits on spaces, strips apostrophes from both ends of each word, and drops
    the stop words and the words shorter than two characters.
  - The term weighter (module `TermWeights`): it counts each token with a
    counting loop and divides each count by the number of tokens.
  - Python's insertion-ordered `dict` is an association list in module
    `Dicts`. Assigning to a key overwrites it in place, and a new key is
    appended.
- **`handle_content`** (module `Indexer`): it indexes a document or takes it
  out again. This is one SADD/SREM of the indexed set, then one ZADD/ZREM per
  term, run on the store one after another.
- **`search`** (module `Search`):
  - it turns the query into term keys;
  - it reads the number of indexed documents and the size of each term's
    sorted set;
  - it weighs each term by its inverse document frequency;
  - it stores the weighted union of the sorted sets under a temporary key,
    reads a page of it, best first, and deletes the key again.

The Redis server is modelled in two parts:

- `RedisModel` gives the database as a value and each command (SADD, SREM,
  SCARD, ZADD, ZREM, ZCARD, ZUNIONSTORE with WEIGHTS and SUM, ZREVRANGE
  WITHSCORES, DEL) as a function of it.
- `RedisStore.Store` is the connection: a class whose fields the command
  methods update in place, each method proved against the matching function.

Redis deletes a key once its collection is empty, so the model never keeps an
empty collection (`RedisModel.WellFormed`).

ZREVRANGE is modelled with Redis's own index rules:

- a negative index counts from the end;
- the start is clamped to the first rank and the stop to the last;
- an empty range gives nothing.

So `search(..., offset=0, count=0)` asks for ranks 0 to -1 and gets every
match (`RedisModel.WholeRangeFromZeroToMinusOne`).

Several inputs are parameters of the model:

- The logarithm in `idf` is a parameter `log2: real -> real`. The properties
  of `search` hold for any function in its place.
- The random suffix of the temporary key, eight bytes from `os.urandom` as hex,
  is a parameter `suffix`. `search` requires that the key it names is not in
  use.

## Model

| member | source | states |
|---|---|---|
| Tokenizer.LowerChar | search_engine.py:25 | a capital A-Z becomes the lower-case letter at the same place in the alphabet, and every other character is unchanged |
| Tokenizer.Lower | search_engine.py:25 | `content.lower()` keeps the length and lowercases every character in its place |
| Tokenizer.BlankNonWords | search_engine.py:21-25 | `NON_WORDS.sub(' ', s)` keeps the length, keeps a-z, 0-9, the apostrophe and the space, turns every other character into a space, and leaves only those characters |
| Tokenizer.WordLength | search_engine.py:25 | the length of the leading run of non-spaces: all characters before it are non-spaces, and the one after it is a space |
| Tokenizer.SplitWords | search_engine.py:25 | every word of `split()` is non-empty, contains no space, and is made of the text's own characters |
| Tokenizer.SplitWordsAtSpace | search_engine.py:25 | splitting `a + " " + b` gives the words of `a` followed by the words of `b` |
| Tokenizer.SplitWordsSingleWord | search_engine.py:25 | a text without spaces splits into itself alone |
| Tokenizer.StripLeading | search_engine.py:26 | `lstrip("'")` returns a suffix of the word that does not start with an apostrophe, and everything it removed is apostrophes |
| Tokenizer.StripTrailing | search_engine.py:26 | `rstrip("'")` returns a prefix of the word that does not end with an apostrophe, and everything it removed is apostrophes |
| Tokenizer.StripApostrophes | search_engine.py:26 | `strip("'")`: the word is some apostrophes, then the result, then some apostrophes, and the result neither starts nor ends with an apostrophe |
| Tokenizer.StripApostrophesIdempotent | search_engine.py:26 | stripping a stripped word again changes nothing |
| Tokenizer.Words | search_engine.py:25-26 | every stripped word uses only a-z, 0-9 and the apostrophe, and is empty or neither starts nor ends with an apostrophe |
| Tokenizer.Filter | search_engine.py:27 | the filter returns only words of its input |
| Tokenizer.FilterKeeps | search_engine.py:22-27 | every word the filter keeps is not a stop word and is longer than one character |
| Tokenizer.TokensAreWellFormed | search_engine.py:21-27 | every token has at least two characters, is not a stop word, uses only a-z, 0-9 and the apostrophe, and neither starts nor ends with an apostrophe |
| Tokenizer.FilterKeepsOrderAndCounts | search_engine.py:27 | the filter's output is a subsequence of its input, and each kept word occurs exactly as often as in the input, each dropped word not at all |
| Tokenizer.TokensAreFilteredWords | search_engine.py:25-27 | the tokens are the stripped words in order, only filtered: never reordered or de-duplicated |
| Tokenizer.StopWords | search_engine.py:22 | the set of the 119 stop words of `STOP_WORDS`, as a definition; TokensAreWellFormed states that no token is one |
| Tokenizer.Keep | search_engine.py:27 | the filter condition `word not in STOP_WORDS and len(word) > 1`, as a definition; FilterKeeps and FilterKeepsOrderAndCounts state what it keeps |
| Tokenizer.Tokens | search_engine.py:24-29 | `get_index_keys(content, False)`: the filter applied to the stripped words, as a definition; TokensAreWellFormed, TokensAreFilteredWords and TokensIgnoreCase state its properties |
| Tokenizer.TokensIgnoreCase | search_engine.py:25 | tokenizing the lowercased text gives the same tokens as the text itself |
| Seqs.Count | search_engine.py:31-32 | an occurrence count is at most the length, and is positive exactly when the element occurs |
| Seqs.Distinct | search_engine.py:30-34 | the key order of a dict filled from a list: the same elements, each once, no more of them than the list has |
| Seqs.NoDupCardinality | search_engine.py:66 | a list without duplicates has as many elements as its set of elements |
| Dicts.Get | search_engine.py:32 | `d.get(k, default)`, the read of `counts[word]` on a defaultdict, as a definition; GetAt and GetMissing state its properties |
| Dicts.Put | search_engine.py:32 | `d[k] = v`, the defaultdict write at :32 and each assignment of the weight comprehension at :89, as a definition; PutExisting, PutNew and PutKeys state its properties |
| Dicts.Keys | search_engine.py:34 | the key list has one key per item, in item order |
| Dicts.GetAt | search_engine.py:32 | reading the key at a position gives the value stored there |
| Dicts.GetMissing | search_engine.py:32 | reading a missing key of a defaultdict gives the default |
| Dicts.PutExisting | search_engine.py:32 | assigning to an existing key replaces its item in place |
| Dicts.PutNew | search_engine.py:32 | assigning to a new key appends it |
| Dicts.PutKeys | search_engine.py:32 | after an assignment the keys are the old keys plus the assigned one, and they stay distinct |
| Dicts.EmptyWhenNoKeys | search_engine.py:91 | a dict with no key is empty |
| TermWeights.CountsOf | search_engine.py:30-32 | the `counts` defaultdict after the loop: each distinct token in order of first appearance with its number of occurrences, as a definition; Weigh's loop is proved to build it, and CountsOfKeys and CountsSumToLength state its properties |
| TermWeights.TermFrequencies | search_engine.py:30-35 | `get_index_keys(content, True)` applied to the tokens: every count divided by the number of tokens, as a definition; TermFrequenciesKeys, TermFrequencyValues and TermFrequenciesSumToOne state its properties |
| TermWeights.CountsOfKeys | search_engine.py:30-32 | the counts have the distinct tokens as keys, in order of first appearance |
| TermWeights.Normalized | search_engine.py:34 | dividing the counts keeps their keys |
| TermWeights.Weigh | search_engine.py:30-34 | the counting loop and the division give the term frequencies of the tokens |
| TermWeights.CountsOfSnoc | search_engine.py:31-32 | one step of the counting loop adds one to the count of a word seen before in its place, or appends a new word with count 1 |
| TermWeights.CountsSumToLength | search_engine.py:30-33 | the counts add up to the number of tokens |
| TermWeights.NormalizedSum | search_engine.py:34 | dividing every count by the number of tokens divides their sum by it |
| TermWeights.TermFrequenciesKeys | search_engine.py:30-35 | the weights have the distinct tokens as keys, each once, and there are as many as distinct tokens; no tokens give the empty dict |
| TermWeights.TermFrequencyValues | search_engine.py:33-34 | each weight is its token's count over the number of tokens, and lies in (0, 1] |
| TermWeights.FractionBounds | search_engine.py:34 | a positive count at most the total gives a fraction in (0, 1], and 1 when they are equal |
| TermWeights.TermFrequenciesSumToOne | search_engine.py:33-34 | the weights of a non-empty token list sum to one |
| RedisModel.SAdd | search_engine.py:57 | SADD, as a definition; SAddEffect and SRemUndoesSAdd state its properties |
| RedisModel.SRem | search_engine.py:61 | SREM, deleting a key whose set becomes empty, as a definition; SRemEffect and SRemUndoesSAdd state its properties |
| RedisModel.SCard | search_engine.py:76 | SCARD, the size of the set at the key, as a definition; RedisStore.Store.SCard answers it |
| RedisModel.ZAdd | search_engine.py:59 | ZADD, setting or overwriting the member's score, as a definition; ZAddEffect and ZRemUndoesZAdd state its properties |
| RedisModel.ZRem | search_engine.py:63 | ZREM, deleting a key whose sorted set becomes empty, as a definition; ZRemEffect and ZRemUndoesZAdd state its properties |
| RedisModel.ZCard | search_engine.py:80 | ZCARD, the size of the sorted set at the key, as a definition; RedisStore.Store.ZCard answers it |
| RedisModel.Del | search_engine.py:99 | DEL of a key of either kind, as a definition; DelUndoesZUnionStore states its property |
| RedisModel.WeightedScore | search_engine.py:96 | the SUM aggregate with WEIGHTS: a member's score in each weighted sorted set times its weight, added up, as a definition; WeightedScoreMonotone states its property |
| RedisModel.Union | search_engine.py:96 | the sorted set ZUNIONSTORE computes, every member of a weighted set with its weighted sum, as a definition; UnionMembersSpec and UnionNonEmpty state its properties |
| RedisModel.ZUnionStore | search_engine.py:96 | ZUNIONSTORE with WEIGHTS, overwriting the destination with the union, or deleting it when the union is empty, as a definition; ZUnionStoreEffect and DelUndoesZUnionStore state its properties |
| RedisModel.SAddEffect | search_engine.py:57 | SADD adds the member to that key's set, leaves every other key and the sorted sets alone, and keeps the database well formed |
| RedisModel.SRemEffect | search_engine.py:61 | SREM removes the member from that key's set, leaves the rest alone, and keeps the database well formed |
| RedisModel.ZAddEffect | search_engine.py:59 | ZADD sets the member's score in that key's sorted set, leaves the rest alone, and keeps the database well formed |
| RedisModel.ZRemEffect | search_engine.py:63 | ZREM removes the member from that key's sorted set, leaves the rest alone, and keeps the database well formed |
| RedisModel.SRemUndoesSAdd | search_engine.py:57-61 | SREM of a member just added by SADD restores the database |
| RedisModel.ZRemUndoesZAdd | search_engine.py:59-63 | ZREM of a member just added by ZADD restores the database |
| RedisModel.DbExt | search_engine.py:56-63 | two well-formed databases that agree on every key are equal |
| RedisModel.UnionMembersSpec | search_engine.py:96 | a member is in the ZUNIONSTORE union exactly when it is in one of the weighted sorted sets |
| RedisModel.UnionNonEmpty | search_engine.py:89-96 | a weight on a non-empty sorted set makes the union non-empty |
| RedisModel.WeightedScoreMonotone | search_engine.py:96 | with non-negative weights, a member that scores at least as high as another in every weighted set scores at least as high in the union |
| RedisModel.ScaleMonotone | search_engine.py:96 | multiplying by a non-negative weight keeps the order of two scores |
| RedisModel.ZUnionStoreEffect | search_engine.py:96 | ZUNIONSTORE leaves the union at the destination, leaves every other key alone, and keeps the database well formed |
| RedisModel.DelUndoesZUnionStore | search_engine.py:96-99 | deleting the destination of a ZUNIONSTORE into a key that was not in use restores the database |
| RedisModel.RangeBounds | search_engine.py:97 | the index range ZREVRANGE reads lies within the ranking, and when it is non-empty it starts at the clamped start rank |
| RedisModel.RangeDesc | search_engine.py:97 | ZREVRANGE start stop WITHSCORES over a ranking: the slice RangeBounds picks, as a definition; SliceOfRanking states what such a slice keeps, and the IsPage lemmas rest on it |
| RedisModel.IsPage | search_engine.py:97 | what ZREVRANGE may answer for a sorted set: RangeDesc of some ranking by non-increasing score, as a definition; PageLength, PageIsSorted and FirstPageIsBest state its properties, and RedisStore.Store.ZRevRange produces one |
| RedisModel.RankingLength | search_engine.py:97 | a ranking has one entry per member of the sorted set |
| RedisModel.PageLength | search_engine.py:97 | reading `count` ranks from `offset` gives `count` entries, `known - offset` when the ranking ends first, and none when it ends before `offset` |
| RedisModel.PageIsSorted | search_engine.py:97 | a page lists distinct members with their scores in the sorted set, by non-increasing score |
| RedisModel.SliceOfRanking | search_engine.py:97 | any slice of a ranking lists distinct members with their own scores, highest first |
| RedisModel.FirstPageIsBest | search_engine.py:97 | every member on a page read from rank 0 scores at least as high as every member left off it |
| RedisModel.WholeRangeFromZeroToMinusOne | search_engine.py:97 | reading ranks 0 to -1 gives every member |
| RedisModel.RankingStep | search_engine.py:97 | taking a highest-scored remaining member extends a partial ranking |
| RedisModel.RankingDone | search_engine.py:97 | a partial ranking with nothing left to rank is a ranking |
| RedisModel.MaxExists | search_engine.py:97 | a non-empty set of members has one with the highest score |
| RedisStore.Store.SAdd | search_engine.py:57 | the store's new state is SADD of the old one, and stays well formed |
| RedisStore.Store.SRem | search_engine.py:61 | the store's new state is SREM of the old one, and stays well formed |
| RedisStore.Store.SCard | search_engine.py:76 | SCARD answers the size of the set at the key |
| RedisStore.Store.ZAdd | search_engine.py:59 | the store's new state is ZADD of the old one, and stays well formed |
| RedisStore.Store.ZRem | search_engine.py:63 | the store's new state is ZREM of the old one, and stays well formed |
| RedisStore.Store.ZCard | search_engine.py:80 | ZCARD answers the size of the sorted set at the key |
| RedisStore.Store.ZUnionStore | search_engine.py:96 | the new state is ZUNIONSTORE of the old one, and the answer is the size of the union |
| RedisStore.Store.ZRevRange | search_engine.py:97 | the selection loop ranks the sorted set highest first, and the answer is the requested ranks of that ranking |
| RedisStore.Store.Delete | search_engine.py:99 | the new state is DEL of the old one, and stays well formed |
| Indexer.ZAddAll | search_engine.py:58-59 | the ZADD of the document's weight under each term key, in dict order, as a definition; ZAddAllEffect states its effect |
| Indexer.ZRemAll | search_engine.py:62-63 | the ZREM of the document from each term key, in dict order, as a definition; ZRemAllEffect states its effect |
| Indexer.AddDocument | search_engine.py:56-59 | the SADD to the indexed set followed by the ZADDs, as a definition; AddDocumentEffect, AddDocumentPostings and AddDocumentIdempotent state its properties |
| Indexer.RemoveDocument | search_engine.py:60-63 | the SREM from the indexed set followed by the ZREMs, as a definition; RemoveDocumentEffect, RemoveDocumentPostings, RemoveDocumentIdempotent and RemoveUndoesAdd state its properties |
| Indexer.HandleContent | search_engine.py:51-66 | indexing or taking out a document leaves the store in the state AddDocument or RemoveDocument describes for the content's term frequencies, and answers the number of distinct terms |
| Indexer.RunPipeline | search_engine.py:54-65 | the queued commands, run in order, take the store from its old state to AddDocument or RemoveDocument of it |
| Indexer.AddPipeline | search_engine.py:56-59 | the SADD and the ZADD loop take the store to AddDocument of its old state |
| Indexer.RemovePipeline | search_engine.py:60-63 | the SREM and the ZREM loop take the store to RemoveDocument of its old state |
| Indexer.TermKeyParts | search_engine.py:59 | a term key is the prefix followed by the term |
| Indexer.SplitTermKey | search_engine.py:59 | a key that starts with the prefix is the prefix followed by the rest |
| Indexer.ZAddAllEffect | search_engine.py:58-59 | the ZADDs give the document its weight in the sorted set of each term and change no other sorted set and no plain set |
| Indexer.ZRemAllEffect | search_engine.py:62-63 | the ZREMs remove the document from the sorted set of each term and change nothing else |
| Indexer.AddDocumentEffect | search_engine.py:56-59 | indexing adds the document to the indexed set and sets its weight under each term key; every other key and every other member keeps its value |
| Indexer.AddDocumentPostings | search_engine.py:56-59 | after indexing, the document is in the indexed set and has weight `tf[t]` under the key of every term `t` |
| Indexer.RemoveDocumentEffect | search_engine.py:60-63 | taking out removes the document from the indexed set and from each term key; nothing else changes |
| Indexer.RemoveDocumentPostings | search_engine.py:60-63 | after taking out, the document is in neither the indexed set nor the sorted set of any of its terms |
| Indexer.AddDocumentIdempotent | search_engine.py:56-59 | indexing the same document twice gives the same database as indexing it once |
| Indexer.AddTwiceScores | search_engine.py:58-59 | indexing twice leaves the same sorted set under every key as indexing once |
| Indexer.RemoveDocumentIdempotent | search_engine.py:60-63 | taking the same document out twice gives the same database as taking it out once |
| Indexer.RemoveUndoesAdd | search_engine.py:56-63 | taking out a document just indexed, which was in none of the touched keys before, restores the database |
| Indexer.ForgetNewMember | search_engine.py:59-63 | removing a member just added to a sorted set gives back the old sorted set |
| Indexer.IndexedKey | search_engine.py:57 | `prefix + 'indexed:'`, the key used at :57, :61 and :76, as a definition; IndexedKeyIsNotTermKey states its property |
| Indexer.IndexedKeyIsNotTermKey | search_engine.py:57-59 | no term key is the indexed-set key, since a term has no colon |
| Search.TempKey | search_engine.py:94 | `prefix + 'temp:' + suffix`, as a definition; TempKeyIsNotTermKey states that it is never a term key of the same prefix |
| Search.WeightDict | search_engine.py:89 | the dict comprehension over `zip(keys, sizes, idfs)` keeping the keys with a non-zero size, a repeated key keeping its first position and its last value, as a definition; WeightDictKeys and WeightDictValues state its properties |
| Search.QueryWeights | search_engine.py:76-89 | the weights `search` computes from the database for the query keys, as a definition; QueryWeightsSpec states its properties |
| Search.TermKeys | search_engine.py:71 | one key per query term, in query order, each the prefix followed by the term |
| Search.TotalDocs | search_engine.py:76 | the document total is at least 1 and at least the size of the indexed set, and equals one of them |
| Search.Idf | search_engine.py:83-86 | the idf is never negative, is 0 for a term no document holds, and is otherwise the base-2 logarithm of total over size, cut off at 0 |
| Search.Sizes | search_engine.py:79-81 | one ZCARD per query key, in order |
| Search.Idfs | search_engine.py:87 | one idf per size, in order |
| Search.ComputeWeights | search_engine.py:76-89 | the SCARD, the ZCARD loop and the idfs give the weights of the query keys in the current state |
| Search.WeightDictKeys | search_engine.py:89 | the weights have each query key with a non-zero size, and no other key, each once |
| Search.WeightDictValues | search_engine.py:89 | each weight is the idf that one of the occurrences of its key with a non-zero size carries |
| Search.QueryWeightsSpec | search_engine.py:76-89 | the weights name each query key whose sorted set is not empty, once, even when its idf is 0; each is weighed by its idf; no keys give no weights |
| Search.NoPostingsNoWeights | search_engine.py:89-92 | when no query key has a non-empty sorted set, there are no weights |
| Search.KnownIsPositive | search_engine.py:91-96 | when there are weights, the union is not empty |
| Search.TempKeyIsNotTermKey | search_engine.py:94 | the temporary key is never a term key, since a term has no colon |
| Search.RankUnion | search_engine.py:94-99 | ZUNIONSTORE into a key not in use, then ZREVRANGE and DEL: the store ends as it began, `known` is the size of the union, and `ids` is the requested page of it |
| Search.PageFacts | search_engine.py:97 | the page is ordered by non-increasing score and has `count` entries, fewer when the union ends first, and none past its end |
| Search.SearchResult | search_engine.py:73-100 | the answer of `search` for the query keys on a database, as a definition: `([], 0)` without weights, otherwise the union's size and its requested page, best first, with the length offset and count allow; Search.Search and Search.SearchKeys ensure it, and PageFacts and KnownIsPositive support it |
| Search.SearchKeys | search_engine.py:73-100 | the body of `search` after the query keys are built, with the same contract as Search.Search |
| Search.Search | search_engine.py:70-100 | the store ends as it began; no tokens, or no query term with a non-empty sorted set, gives `([], 0)`; otherwise `known` is the size of the weighted union (at least 1), `ids` is ranks `offset` to `offset + count - 1` of it, ordered by non-increasing score, with `min(count, max(known - offset, 0))` entries when `offset >= 0` and `count >= 1` |

## Left out

- The code at search_engine.py:7-19 runs when the module is imported. It
  connects to Redis, runs smoke-test commands and prints the results. It is
  not part of this model, and neither are `main.py` and
  `test_search_engine.py`. The smoke test leaves keys behind: the plain sets
  `temp1` and `temp2` and the sorted set `temp3` (search_engine.py:11-18). With
  an empty prefix, the content or query `temp1` makes `handle_content` queue a
  ZADD on `temp1` and `search` send a ZCARD to it, which Redis refuses with
  WRONGTYPE. The model starts from a database where no term key holds a plain
  set, so it does not show these errors.
- The first definition of `handle_content` (search_engine.py:37-49) is
  replaced at once by the second one (search_engine.py:51-66). Only the
  second is modelled.
- `content.lower()` and the regular expression are modelled on ASCII only.
  Python lowercases non-ASCII letters too; the model leaves them unchanged and
  then blanks them out, as `NON_WORDS` does for every non-ASCII character
  after lowercasing. The few non-ASCII capitals that Python lowercases to
  ASCII letters, such as the Kelvin sign, are blanked out by the model
  instead.
- `split()` also splits at tabs and newlines. After `NON_WORDS` the only white
  space left is the space, so the model splits at spaces only.
- Floating point is not modelled. Scores and weights are reals, and `count /
  wordcount` is exact division.
- `math.log` is left out. `Search.Idf` takes the logarithm as a parameter, so
  every property of `search` holds for any function in its place. The
  integer 0 that `idf` returns for an empty set is the real 0.
- `os.urandom` is left out. The random suffix of the temporary key is a
  parameter, and `Search.Search` requires that the key is not in use, which
  is what the 64 random bits make likely.
- Connection errors are left out: every store command succeeds. So the
  `finally` only ever runs after ZREVRANGE, and `Search.RankUnion` deletes
  the temporary key there. The path where ZUNIONSTORE or ZREVRANGE fails is
  not modelled.
- Pipelines are left out. `pipeline(False)` only batches commands and is not
  atomic, so other clients could interleave; the model runs the commands one
  after another with no other client.
- RedisModel.RangeBounds: start and stop are unbounded integers. Redis reads
  them as signed 64-bit integers and answers "ERR value is not an integer or
  out of range" when one is outside that range, for instance when `offset +
  count - 1` (search_engine.py:97) overflows it. That error is not modelled.
- RedisStore.Store.ZRevRange: the order of members with equal scores is left
  open (Redis orders them lexicographically, in reverse). `RedisModel.IsPage`
  accepts every ranking by non-increasing score.
- Redis keeps plain sets and sorted sets in one keyspace and refuses a
  command on a key of the wrong type (WRONGTYPE). The model keeps the two kinds
  in separate maps. `Indexer.IndexedKeyIsNotTermKey` and
  `Search.TempKeyIsNotTermKey` show that, under one prefix, the indexed-set
  key and the temporary key are never a term key. Across prefixes they can
  be: the temporary key of prefix `p` with suffix `ab` is the term key of
  prefix `ptemp:` for the term `ab`. `Search.Search` only requires that its
  temporary key is not in use. The model therefore matches Redis when one
  prefix is in use and no term key holds a plain set; the WRONGTYPE errors
  Redis would give elsewhere are not modelled.
- Redis's ZUNIONSTORE also accepts plain sets, reading every member with
  score 1. `search` only passes term keys, which hold sorted sets, so this is
  not modelled.
- `get_index_keys` returns a list or a dict depending on its `add` flag. The
  model has the two results as separate functions, `Tokenizer.Tokens` for
  `add=False` and `TermWeights.TermFrequencies` for the default `add=True`.
  `Indexer.HandleContent` has the default `add := true`, and `Search.Search`
  has `offset := 0` and `count := 10`, as in the source.
- Document ids are strings. redis-py also accepts ids of other types and turns
  them into strings; that conversion is not modelled.
