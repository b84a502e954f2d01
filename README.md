# Yelp review vectorizer: vocabulary and one-hot encoding in Dafny

This project models the text-to-index layer of the Yelp review classifier in
`test.py`. The layer has two classes:

- `Vocabulary` is a two-way map between tokens and dense indices 0..n-1. It
  has an optional unknown-token sentinel (`<UNK>`) that absent tokens fall
  back to.
- `ReviewVectorizer` owns a review vocabulary and a rating vocabulary. It
  turns a review into a collapsed one-hot vector. It builds both
  vocabularies from a review table: the sorted distinct ratings, and the
  words counted more than `cutoff` times in first-occurrence order. It
  serializes both vocabularies as a nested record.

Modules:

- `Results`: the error kinds the code raises (`KeyError`, `AttributeError`)
  and a `Result` type.
- `Text`: `str.split(" ")` and the skip test `token not in
  string.punctuation`, which is a substring test.
- `StringOrder`: Python's `str` ordering and `sorted(set(xs))`.
- `Vocab`: the `Vocabulary` class. Its invariant is that `idxToToken` is
  the exact inverse of `tokenToIdx` over 0..Len()-1. The sentinel sits at
  `unkIndex` exactly when the fallback is on.
- `WordCount`: the `Counter` that `from_dataframe` fills. It is specified by
  occurrence counts and by first-occurrence order, which is the iteration
  order of `Counter.items()`.
- `Vectorizer`: the `ReviewVectorizer` class and the loops of
  `from_dataframe`.

The code mutates `Vocabulary` in place, so it is a Dafny class whose map
fields `AddToken` reassigns. `_add_unk` and `_unk_token` are only assigned
in `__init__`, so they are `const` fields. `vectorize` fills a zeroed array,
so `Vectorize` does the same.

Two loops of `from_dataframe` are separate methods: `AddRatings` and
`AddFrequent`. Each states its effect on the vocabulary as `AddAll` of the
tokens it adds. `FromDataframe` calls them in the source's order.

## Model

| member | source | states |
|---|---|---|
| Vocab.Vocabulary.constructor | test.py:92-113 | With a dense input map, the result is valid and the inverse map is rebuilt from the forward map. With the fallback on, the sentinel is added through `add_token`. From an empty map, the sentinel gets index 0 and becomes `unkIndex`; with the fallback off, `unkIndex` is -1 and the vocabulary is empty |
| Vocab.Vocabulary.AddToken | test.py:126-141 | The forward map becomes `WithToken(old map, token)`. A present token returns its index and changes nothing. A new token gets the old size as its index and grows the size by one. `LookupIndex` of the result is the token. The inverse invariant and `Valid` are preserved |
| Vocab.WithToken | test.py:134-139 | The forward map after `add_token`: the token is present, every old entry is kept, and a new token maps to the old size, growing the map by one |
| Vocab.WithTokenDense | test.py:134-139 | `add_token` keeps the forward map dense |
| Vocab.Invert | test.py:105 | `{idx: token for token, idx in ...}` of a dense map is its exact inverse |
| Vocab.InverseImpliesDense | test.py:105 | A forward map with an exact inverse over 0..n-1 is dense |
| Vocab.InverseUnique | test.py:105 | The inverse of a forward map is unique |
| Vocab.InverseWithToken | test.py:137-139 | Adding a new token at index n and the entry n -> token to the inverse keeps the two maps exact inverses |
| Vocab.InverseAfterInsert | test.py:137-139 | After inserting a new token, the inverse map is the old one plus exactly the entry n -> token; no other entry changes |
| Vocab.Vocabulary.LookupToken | test.py:143-157 | Intended behaviour. With the fallback on, always Ok, and the index looks back up to the token if present, else to the sentinel. With it off, Ok exactly when the token is present, and KeyError otherwise. Every index is in range |
| Vocab.Vocabulary.LookupTokenAsWritten | test.py:154 | As written, every call raises AttributeError (`self.add_unk` is never set) |
| Vocab.LookupTokenAsWrittenFails | test.py:154 | On a vocabulary with the fallback on, the as-written lookup of the sentinel fails, while the intended lookup returns `unkIndex` |
| Vocab.Vocabulary.LookupIndex | test.py:159-170 | Ok exactly for 0 <= index < Len(), with the token whose forward index is `index`; otherwise KeyError |
| Vocab.Vocabulary.Len | test.py:175-176 | The size is the forward map's size, and the assigned indices are exactly 0..Len()-1 |
| Vocab.Vocabulary.ToSerialize | test.py:115-119 | The record holds the forward map, the flag and the sentinel, and is well-formed (dense, sentinel present when the fallback is on) |
| Vocab.Vocabulary.FromSerializable | test.py:121-124 | Rebuilds a valid vocabulary through the constructor. A well-formed record is reproduced exactly by `ToSerialize`, because re-adding a present sentinel is a no-op |
| Vocab.SerializedFormDeterminesVocabulary | test.py:105-124 | Two valid vocabularies with the same serialized form have the same inverse map, `unkIndex` and size, and answer every `lookup_token` and `lookup_index` alike |
| Vocab.AddAllMembers | test.py:220-231 | About `Vocab.AddAll`, repeated `add_token` (test.py:221, 231): adding a sequence of tokens in turn keeps every old entry and holds exactly the old tokens and the added ones |
| Vocab.AddAllDense | test.py:220-231 | Adding a sequence of tokens keeps the forward map dense |
| Vocab.AddAllFresh | test.py:220-231 | Distinct new tokens added in turn get the indices n, n+1, ... in their order |
| Text.IsSubstringIff | test.py:201 | About `Text.Skipped`, the test `token not in string.punctuation` (test.py:201, 226): the recursive substring test agrees with "t is some slice s[i..j]", which is Python's `t in s` on strings |
| Text.SkipsEmptyAndSingles | test.py:201 | The empty token and every single punctuation character are skipped |
| Text.SkipsParentheses | test.py:201 | `()`, a run of `string.punctuation`, is skipped |
| Text.SkipsComparison | test.py:201 | `<=>`, a run of `string.punctuation`, is skipped |
| Text.KeepsDoubledPunctuation | test.py:201 | `!!` is not a substring of `string.punctuation`, so it is kept |
| Text.KeepsWords | test.py:201 | An ordinary word is kept |
| Text.Split | test.py:200 | `split(" ")` gives at least one part, and no part holds the separator |
| Text.JoinSplit | test.py:200 | Joining the parts of `split(sep)` with `sep` gives the string back, empty parts included |
| Text.SplitJoin | test.py:200 | Splitting a join of separator-free parts gives the parts back |
| Text.Kept | test.py:200-201 | The skip filter over the parts of a split never gives more tokens than parts |
| Text.KeptMembers | test.py:200-201 | About `Text.Kept`: the skip filter keeps exactly the parts that are not substrings of `string.punctuation` |
| Text.WordsMembers | test.py:200-201 | About `Text.Words`, the tokens `vectorize` and `from_dataframe` use (test.py:200-201, 225-226): every word of a review is non-empty, space-free and not skipped, and every non-skipped part of the split is a word |
| StringOrder.LessIrreflexive | test.py:220 | About `StringOrder.Less`, the code-point `str` order `sorted` uses: Python's string `<` is irreflexive |
| StringOrder.LessTransitive | test.py:220 | Python's string `<` is transitive |
| StringOrder.LessTotal | test.py:220 | Any two distinct strings are ordered |
| StringOrder.Insert | test.py:220 | Inserting into a strictly sorted sequence keeps it strictly sorted and adds exactly the new element |
| StringOrder.SortedDistinct | test.py:220 | `sorted(set(xs))` is strictly ascending and holds exactly the elements of `xs` |
| StringOrder.SortedUnique | test.py:220 | Two strictly sorted sequences with the same elements are equal |
| StringOrder.SortedDistinctIgnoresOrder | test.py:220 | `sorted(set(xs))` depends only on the set of elements of `xs` |
| WordCount.Occurrences | test.py:227 | A word's count is at most the corpus length, and positive exactly when the word occurs |
| WordCount.FirstOccurrencesMembers | test.py:227-229 | About `WordCount.FirstOccurrences`, the order of `Counter.items()` (test.py:229): the Counter's keys, in insertion order, list every corpus word exactly once |
| WordCount.FirstIndex | test.py:229 | The position of a word's first occurrence |
| WordCount.FirstOccurrencesOrdered | test.py:229 | The Counter's keys are ordered by increasing first position in the corpus |
| WordCount.WordCountsAppend | test.py:227 | About `WordCount.WordCounts`, the Counter's counts: `word_counts[word] += 1` adds one to the word's count, starting from 0 for a new word, and changes no other count |
| WordCount.FirstOccurrencesAppend | test.py:227 | A new word is appended to the Counter's key order; a seen word leaves it unchanged |
| WordCount.Frequent | test.py:229-231 | The admission loop keeps exactly the words whose count exceeds `cutoff`, and keeps distinct words distinct |
| WordCount.FrequentKeepsOrder | test.py:229-231 | The admission loop keeps the relative order of the Counter's keys |
| WordCount.FrequentWordsMembers | test.py:223-231 | About `WordCount.FrequentWords`, the words test.py:229-231 adds: the admitted words are distinct, and a word is admitted exactly when it occurs in the corpus more than `cutoff` times |
| WordCount.FrequentWordsOrdered | test.py:223-231 | The admitted words are in order of first occurrence in the corpus |
| Vectorizer.Ratings | test.py:220 | The `rating` column, one entry per row in row order |
| Vectorizer.CorpusMembers | test.py:224-226 | About `Vectorizer.Corpus`, the tokens the counting loop visits: a word is in the counted corpus exactly when it is a non-skipped token of some review |
| Vectorizer.CountWords | test.py:223-227 | The nested counting loops leave the Counter keys in first-occurrence order of the corpus, and each word's count is its number of occurrences |
| Vectorizer.AddRatings | test.py:220-221 | Adding each sorted rating in turn keeps the vocabulary valid and its map is `AddAll` of the ratings |
| Vectorizer.AddFrequent | test.py:229-231 | Adding each Counter key whose count exceeds `cutoff` keeps the vocabulary valid, and its map is `AddAll` of the admitted words |
| Vectorizer.ReviewVectorizer.constructor | test.py:182-189 | The vectorizer holds the two given vocabularies |
| Vectorizer.ReviewVectorizer.HitsAppend | test.py:200-202 | One more token sets at most the one entry it looks up to |
| Vectorizer.ReviewVectorizer.Vectorize | test.py:191-204 | Succeeds exactly when every word of the review can be looked up, and always with the fallback on; otherwise KeyError. The vector has the review vocabulary's length. Entry i is 1 exactly when some word looks up to i, else 0, so repeats have no effect |
| Vectorizer.ReviewVectorizer.FromDataframe | test.py:206-233 | The rating vocabulary has no fallback, `unkIndex` -1, and holds the sorted distinct ratings added in order (`RatingMap`). Its sentinel string stays the default `<UNK>`, which `to_serialize` emits. The review vocabulary has the fallback on with `<UNK>` at 0, followed by the words counted more than `cutoff` times in first-occurrence order (`ReviewMap`). Both are fresh and valid |
| Vectorizer.RatingIndices | test.py:216-221 | In the rating vocabulary built this way, the k-th smallest distinct rating has index k, and there are no other entries |
| Vectorizer.ReviewIndices | test.py:216-231 | Unless `<UNK>` is itself a frequent word, the k-th admitted word has index k+1 in the review vocabulary, and there are no other entries besides the sentinel |
| Vectorizer.ReviewVectorizer.ToSerializable | test.py:247-254 | Intended behaviour: both vocabularies' records, each well-formed and each the vocabulary's own `to_serialize` |
| Vectorizer.ReviewVectorizer.ToSerializableAsWritten | test.py:253 | As written, every call raises AttributeError (`Vocabulary.to_serializable` does not exist) |
| Vectorizer.ToSerializableAsWrittenFails | test.py:253 | On every valid vectorizer the as-written call fails, while the intended records are well-formed |
| Vectorizer.ReviewVectorizer.FromSerializable | test.py:235-245 | Both vocabularies are rebuilt as `Vocabulary.from_serializable` does, fresh and valid: each keeps its record's flag and sentinel string, and its map is the record's map plus the sentinel when the fallback is on (`Reloaded`), even for a record without the sentinel. Records produced by `ToSerializable` are reproduced exactly |

## Left out

- `ReviewDataset`, `generate_batches` and `ReviewClassifier`: pandas filtering, the PyTorch data pipeline and a floating-point neural model are outside the text-to-index layer.
- CSV loading and JSON persistence are I/O. A serialized vocabulary is the record `SerializedVocab(tokenToIdx, addUnk, unkToken)`; a serialized vectorizer nests two of them.
- The DataFrame is a sequence of `Row(review, rating)` values. Ratings are strings, ordered by Python's code-point `str` order. A numeric rating column would be ordered numerically instead.
- Vectorizer.ReviewVectorizer.Vectorize returns a sequence of 0/1 integers instead of a `float32` numpy array.
- Vectorizer.ReviewVectorizer.Vectorize uses the intended `lookup_token`. With the lookup as written, the source's `vectorize` raises AttributeError on any review that has a non-skipped token.
- Python dict aliasing is not modelled. The source stores the caller's `token_to_idx` dict itself and returns it from `to_serialize`, so later `add_token` calls also change the caller's dict and earlier serialized records. The model keeps maps as values.
- Vocab.Vocabulary.constructor, Vocab.Vocabulary.FromSerializable and Vectorizer.ReviewVectorizer.FromSerializable require a dense forward map. The source accepts any dict, and a non-dense one would let `add_token` reuse an index.
- Vocab.Vocabulary.AddToken does not state the new inverse map in its own contract. That is stated by `Vocab.InverseAfterInsert` about the maps before and after the call.
- Vectorizer.ReviewVectorizer.FromDataframe states the review vocabulary through `AddAll`, which also covers the case where `<UNK>` is itself a frequent word (re-adding it is a no-op). The dense numbering k+1 is proved only when the sentinel is not frequent (`Vectorizer.ReviewIndices`).
- `Vocabulary.__str__` is display formatting only.
- Python's `Counter` is modelled by its key order and its count map, which is all `from_dataframe` reads from it.

## Findings

| source | as written | input that shows it | evidently intended | confidence | as-written member | corrected member |
|---|---|---|---|---|---|---|
| test.py:154 | `lookup_token` tests `self.add_unk`, but `__init__` only sets `self._add_unk` (test.py:107), so the attribute lookup raises AttributeError | any call, e.g. `Vocabulary().lookup_token("<UNK>")` | branch on `self._add_unk`: fall back to `unk_index` when it is on, otherwise index the map (KeyError when absent) | not executed | Vocab.Vocabulary.LookupTokenAsWritten, Vocab.LookupTokenAsWrittenFails | Vocab.Vocabulary.LookupToken |
| test.py:253 | `to_serializable` calls `self.review_vocab.to_serializable()`, but `Vocabulary` defines `to_serialize` (test.py:115), so the call raises AttributeError | any vectorizer, e.g. one built by `from_dataframe` on an empty table | call `to_serialize()` on both vocabularies | not executed | Vectorizer.ReviewVectorizer.ToSerializableAsWritten, Vectorizer.ToSerializableAsWrittenFails | Vectorizer.ReviewVectorizer.ToSerializable |
