/** The ReviewVectorizer class of test.py: a review vocabulary and a rating
    vocabulary, the collapsed one-hot encoding of a review, and the
    construction of both vocabularies from a review table. */
module Vectorizer {
  import opened Results
  import opened Text
  import opened StringOrder
  import opened Vocab
  import opened WordCount

  /** One row of the review DataFrame: the two columns the vectorizer reads. */
  datatype Row = Row(review: string, rating: string)

  /** `from_dataframe`'s default frequency cutoff. */
  const DefaultCutoff: int := 25

  /** The `rating` column. */
  function Ratings(rows: seq<Row>): (r: seq<string>)
    ensures |r| == |rows| && forall k :: 0 <= k < |rows| ==> r[k] == rows[k].rating
  {
    seq(|rows|, k requires 0 <= k < |rows| => rows[k].rating)
  }

  /** Every counted word of the table, review after review, in the order the
      counting loop visits them. */
  function Corpus(rows: seq<Row>): seq<string>
    decreases |rows|
  {
    if |rows| == 0 then []
    else Corpus(rows[..|rows| - 1]) + Words(rows[|rows| - 1].review)
  }

  /** A word is in the corpus exactly when it is a word of some review. */
  lemma {:induction false} CorpusMembers(rows: seq<Row>)
    ensures forall w :: w in Corpus(rows) ==> exists k :: 0 <= k < |rows| && w in Words(rows[k].review)
    ensures forall w, k :: 0 <= k < |rows| && w in Words(rows[k].review) ==> w in Corpus(rows)
    decreases |rows|
  {
    if |rows| > 0 {
      var init := rows[..|rows| - 1];
      var last := rows[|rows| - 1];
      CorpusMembers(init);
      assert Corpus(rows) == Corpus(init) + Words(last.review);
      forall w | w in Corpus(rows) ensures exists k :: 0 <= k < |rows| && w in Words(rows[k].review) {
        if w in Corpus(init) {
          var k :| 0 <= k < |init| && w in Words(init[k].review);
          assert rows[k] == init[k];
        } else {
          assert w in Words(rows[|rows| - 1].review);
        }
      }
      forall w, k | 0 <= k < |rows| && w in Words(rows[k].review) ensures w in Corpus(rows) {
        if k < |init| {
          assert init[k] == rows[k];
        }
      }
    }
  }

  lemma CorpusStep(rows: seq<Row>, i: nat)
    requires i < |rows|
    ensures Corpus(rows[..i + 1]) == Corpus(rows[..i]) + Words(rows[i].review)
  {
    assert rows[..i + 1][..i] == rows[..i];
  }

  /** A solver hint for CountWords, kept out of the loop's large context;
      it models nothing of the source. */
  lemma ConcatAssoc(a: seq<string>, b: seq<string>, w: string)
    ensures (a + b) + [w] == a + (b + [w])
  {
  }

  /** The counting loops of `from_dataframe`: a Counter kept as its keys in
      insertion order and its counts. */
  method CountWords(rows: seq<Row>) returns (order: seq<string>, counts: map<string, nat>)
    ensures order == FirstOccurrences(Corpus(rows))
    ensures counts == WordCounts(Corpus(rows))
  {
    order, counts := [], map[];
    ghost var seen: seq<string> := [];
    var i := 0;
    while i < |rows|
      invariant 0 <= i <= |rows|
      invariant seen == Corpus(rows[..i])
      invariant order == FirstOccurrences(seen) && counts == WordCounts(seen)
    {
      var parts := Split(rows[i].review, Space);
      ghost var before := seen;
      var j := 0;
      assert parts[..0] == [] && Kept([]) == [];
      assert seen == before + Kept(parts[..0]);
      while j < |parts|
        invariant 0 <= j <= |parts|
        invariant seen == before + Kept(parts[..j])
        invariant order == FirstOccurrences(seen) && counts == WordCounts(seen)
      {
        var word := parts[j];
        KeptStep(parts, j);
        if !Skipped(word) {
          FirstOccurrencesAppend(seen, word);
          WordCountsAppend(seen, word);
          var count := if word in counts then counts[word] else 0;
          if word !in counts {
            order := order + [word];
          }
          counts := counts[word := count + 1];
          ConcatAssoc(before, Kept(parts[..j]), word);
          seen := seen + [word];
        }
        j := j + 1;
      }
      assert parts[..j] == parts;
      CorpusStep(rows, i);
      i := i + 1;
    }
    assert rows[..i] == rows;
  }

  /** The ratings loop of `from_dataframe`: every rating of `ratings` is
      added to the vocabulary in turn. */
  method AddRatings(vocab: Vocabulary, ratings: seq<string>)
    requires vocab.Valid()
    modifies vocab`tokenToIdx, vocab`idxToToken
    ensures vocab.Valid()
    ensures vocab.tokenToIdx == AddAll(old(vocab.tokenToIdx), ratings)
  {
    ghost var start := vocab.tokenToIdx;
    for k := 0 to |ratings|
      invariant vocab.Valid()
      invariant vocab.tokenToIdx == AddAll(start, ratings[..k])
    {
      AddAllStep(start, ratings, k);
      var _ := vocab.AddToken(ratings[k]);
    }
    assert ratings[..|ratings|] == ratings;
  }

  /** The admission loop of `from_dataframe`: the words of the Counter, in its
      order, whose count exceeds `cutoff` are added to the vocabulary. */
  method AddFrequent(vocab: Vocabulary, order: seq<string>, counts: map<string, nat>, cutoff: int)
    requires vocab.Valid()
    requires forall w :: w in order ==> w in counts
    modifies vocab`tokenToIdx, vocab`idxToToken
    ensures vocab.Valid()
    ensures vocab.tokenToIdx == AddAll(old(vocab.tokenToIdx), Frequent(order, counts, cutoff))
  {
    ghost var start := vocab.tokenToIdx;
    for k := 0 to |order|
      invariant vocab.Valid()
      invariant vocab.tokenToIdx == AddAll(start, Frequent(order[..k], counts, cutoff))
    {
      FrequentStep(order, counts, cutoff, k);
      if counts[order[k]] > cutoff {
        AddAllAppend(start, Frequent(order[..k], counts, cutoff), order[k]);
        var _ := vocab.AddToken(order[k]);
      }
    }
    assert order[..|order|] == order;
  }

  /** What `to_serializable` returns: both vocabularies' records. */
  datatype SerializedVectorizer = SerializedVectorizer(reviewVocab: SerializedVocab, ratingVocab: SerializedVocab)

  class ReviewVectorizer {
    var reviewVocab: Vocabulary
    var ratingVocab: Vocabulary

    ghost predicate Valid()
      reads this, reviewVocab, ratingVocab
    {
      reviewVocab.Valid() && ratingVocab.Valid()
    }

    constructor (reviewVocab: Vocabulary, ratingVocab: Vocabulary)
      ensures this.reviewVocab == reviewVocab && this.ratingVocab == ratingVocab
    {
      this.reviewVocab := reviewVocab;
      this.ratingVocab := ratingVocab;
    }

    /** Some word of `words` looks up to index `i` in the review vocabulary. */
    ghost predicate Hits(words: seq<string>, i: int)
      reads this, reviewVocab
      requires reviewVocab.Valid()
    {
      exists t :: t in words && reviewVocab.LookupToken(t) == Ok(i)
    }

    lemma HitsAppend(words: seq<string>, t: string, i: int)
      requires reviewVocab.Valid()
      ensures Hits(words + [t], i) <==> Hits(words, i) || reviewVocab.LookupToken(t) == Ok(i)
    {
      if Hits(words + [t], i) {
        var u :| u in words + [t] && reviewVocab.LookupToken(u) == Ok(i);
        if u != t {
          assert u in words;
        }
      }
      if Hits(words, i) {
        var u :| u in words && reviewVocab.LookupToken(u) == Ok(i);
        assert u in words + [t];
      }
    }

    /** `vectorize`: a 0/1 vector as long as the review vocabulary with a 1
        exactly at the lookup index of each kept word of `review`; fails with
        KeyError only if a kept word cannot be looked up. */
    method Vectorize(review: string) returns (r: Result<seq<int>>)
      requires Valid()
      ensures r.Ok? <==> forall t :: t in Words(review) ==> reviewVocab.LookupToken(t).Ok?
      ensures reviewVocab.addUnk ==> r.Ok?
      ensures r.Err? ==> r.error == KeyError
      ensures r.Ok? ==> |r.value| == reviewVocab.Len()
      ensures r.Ok? ==> forall i :: 0 <= i < |r.value| ==> r.value[i] == if Hits(Words(review), i) then 1 else 0
    {
      var parts := Split(review, Space);
      var oneHot := new int[reviewVocab.Len()](_ => 0);
      ghost var seen: seq<string> := [];
      var j := 0;
      while j < |parts|
        invariant 0 <= j <= |parts|
        invariant seen == Kept(parts[..j])
        invariant forall t :: t in seen ==> reviewVocab.LookupToken(t).Ok?
        invariant forall i :: 0 <= i < oneHot.Length ==> oneHot[i] == if Hits(seen, i) then 1 else 0
      {
        var token := parts[j];
        KeptStep(parts, j);
        if !Skipped(token) {
          var index := reviewVocab.LookupToken(token);
          if index.Err? {
            KeptMembers(parts);
            assert token in Words(review);
            return Err(index.error);
          }
          forall i | 0 <= i < oneHot.Length {
            HitsAppend(seen, token, i);
          }
          oneHot[index.value] := 1;
          seen := seen + [token];
        }
        j := j + 1;
      }
      assert parts[..j] == parts;
      r := Ok(oneHot[..]);
    }

    /** `from_dataframe`: the rating vocabulary holds the sorted distinct
        ratings with no fallback; the review vocabulary holds the sentinel
        followed by the words counted more than `cutoff` times, added in
        first-occurrence order. */
    static method FromDataframe(rows: seq<Row>, cutoff: int := DefaultCutoff) returns (v: ReviewVectorizer)
      ensures fresh(v) && fresh(v.reviewVocab) && fresh(v.ratingVocab) && v.Valid()
      ensures v.reviewVocab.addUnk && v.reviewVocab.unkToken == DefaultUnk && v.reviewVocab.unkIndex == 0
      ensures v.reviewVocab.tokenToIdx == ReviewMap(rows, cutoff)
      ensures !v.ratingVocab.addUnk && v.ratingVocab.unkToken == DefaultUnk && v.ratingVocab.unkIndex == -1
      ensures v.ratingVocab.tokenToIdx == RatingMap(rows)
    {
      var reviewVocab := new Vocabulary(map[], true, DefaultUnk);
      var ratingVocab := new Vocabulary(map[], false, DefaultUnk);
      AddRatings(ratingVocab, SortedDistinct(Ratings(rows)));
      var order, counts := CountWords(rows);
      FirstOccurrencesMembers(Corpus(rows));
      AddFrequent(reviewVocab, order, counts, cutoff);
      v := new ReviewVectorizer(reviewVocab, ratingVocab);
    }

    /** `to_serializable` as intended: both vocabularies' records, each of
        which reloads to its vocabulary. */
    function ToSerializable(): (c: SerializedVectorizer)
      reads this, reviewVocab, ratingVocab
      requires Valid()
      ensures WellFormed(c.reviewVocab) && WellFormed(c.ratingVocab)
      ensures c.reviewVocab == reviewVocab.ToSerialize() && c.ratingVocab == ratingVocab.ToSerialize()
    {
      SerializedVectorizer(reviewVocab.ToSerialize(), ratingVocab.ToSerialize())
    }

    /** `to_serializable` as written: it calls `Vocabulary.to_serializable`,
        a method the class does not have (it is `to_serialize`), so every call
        raises AttributeError. */
    function ToSerializableAsWritten(): (r: Result<SerializedVectorizer>)
      ensures r.Err? && r.error.AttributeError?
    {
      Err(AttributeError("to_serializable"))
    }

    /** `from_serializable`: both vocabularies rebuilt from their records; a
        record produced by ToSerializable is reproduced exactly. */
    static method FromSerializable(contents: SerializedVectorizer) returns (v: ReviewVectorizer)
      requires IsDense(contents.reviewVocab.tokenToIdx) && IsDense(contents.ratingVocab.tokenToIdx)
      ensures fresh(v) && fresh(v.reviewVocab) && fresh(v.ratingVocab) && v.Valid()
      ensures v.reviewVocab.tokenToIdx == Reloaded(contents.reviewVocab)
      ensures v.reviewVocab.addUnk == contents.reviewVocab.addUnk && v.reviewVocab.unkToken == contents.reviewVocab.unkToken
      ensures v.ratingVocab.tokenToIdx == Reloaded(contents.ratingVocab)
      ensures v.ratingVocab.addUnk == contents.ratingVocab.addUnk && v.ratingVocab.unkToken == contents.ratingVocab.unkToken
      ensures WellFormed(contents.reviewVocab) && WellFormed(contents.ratingVocab) ==> v.ToSerializable() == contents
    {
      var reviewVocab := Vocabulary.FromSerializable(contents.reviewVocab);
      var ratingVocab := Vocabulary.FromSerializable(contents.ratingVocab);
      v := new ReviewVectorizer(reviewVocab, ratingVocab);
    }
  }

  /** The forward map `from_serializable` rebuilds from a record: the
      record's map, plus the sentinel when the fallback is on. */
  function Reloaded(c: SerializedVocab): map<string, int>
  {
    if c.addUnk then WithToken(c.tokenToIdx, c.unkToken) else c.tokenToIdx
  }

  /** The ratings `from_dataframe` adds, in the order it adds them. */
  function RatingOrder(rows: seq<Row>): seq<string>
  {
    SortedDistinct(Ratings(rows))
  }

  /** The rating vocabulary's map built by `from_dataframe`. */
  function RatingMap(rows: seq<Row>): map<string, int>
  {
    AddAll(map[], RatingOrder(rows))
  }

  /** The words `from_dataframe` admits, in the order it adds them. */
  function Admitted(rows: seq<Row>, cutoff: int): seq<string>
  {
    FrequentWords(Corpus(rows), cutoff)
  }

  /** The review vocabulary's map built by `from_dataframe`. */
  function ReviewMap(rows: seq<Row>, cutoff: int): map<string, int>
  {
    AddAll(map[DefaultUnk := 0], Admitted(rows, cutoff))
  }

  /** The rating vocabulary built by `from_dataframe` numbers the distinct
      ratings 0, 1, ... in ascending order. */
  lemma RatingIndices(rows: seq<Row>)
    ensures |RatingMap(rows)| == |RatingOrder(rows)|
    ensures forall k :: 0 <= k < |RatingOrder(rows)| ==>
              RatingOrder(rows)[k] in RatingMap(rows) && RatingMap(rows)[RatingOrder(rows)[k]] == k
  {
    var rs := RatingOrder(rows);
    forall i, j | 0 <= i < j < |rs| ensures rs[i] != rs[j] {
      LessIrreflexive(rs[i]);
    }
    AddAllFresh(map[], rs);
  }

  /** Unless the sentinel itself is a frequent word, the review vocabulary
      built by `from_dataframe` gives the sentinel index 0 and the k-th
      admitted word index k + 1. */
  lemma ReviewIndices(rows: seq<Row>, cutoff: int)
    requires Occurrences(DefaultUnk, Corpus(rows)) <= cutoff
    ensures |ReviewMap(rows, cutoff)| == |Admitted(rows, cutoff)| + 1
    ensures forall k :: 0 <= k < |Admitted(rows, cutoff)| ==>
              Admitted(rows, cutoff)[k] in ReviewMap(rows, cutoff) &&
              ReviewMap(rows, cutoff)[Admitted(rows, cutoff)[k]] == k + 1
  {
    FrequentWordsMembers(Corpus(rows), cutoff);
    AddAllFresh(map[DefaultUnk := 0], Admitted(rows, cutoff));
  }

  /** The to_serializable bug: the method as written fails on every valid
      vectorizer, whereas the intended record is well-formed. */
  lemma ToSerializableAsWrittenFails(v: ReviewVectorizer)
    requires v.Valid()
    ensures v.ToSerializableAsWritten().Err?
    ensures WellFormed(v.ToSerializable().reviewVocab) && WellFormed(v.ToSerializable().ratingVocab)
  {
  }
}
