/** Specification of the corpus word count that `from_dataframe` builds with a
    `Counter`: how often each word occurs, the order in which words first
    appear (the iteration order of `Counter.items()`), and the words kept by
    the frequency cutoff. */
module WordCount {
  import opened Vocab

  /** How often `w` occurs in `s`. */
  function Occurrences(w: string, s: seq<string>): (n: nat)
    ensures n <= |s|
    ensures n > 0 <==> w in s
    decreases |s|
  {
    if |s| == 0 then 0
    else
      var init := s[..|s| - 1];
      assert s == init + [s[|s| - 1]];
      Occurrences(w, init) + (if s[|s| - 1] == w then 1 else 0)
  }

  /** The distinct elements of `s` in order of first occurrence. */
  function FirstOccurrences(s: seq<string>): seq<string>
    decreases |s|
  {
    if |s| == 0 then []
    else
      var init := s[..|s| - 1];
      var last := s[|s| - 1];
      FirstOccurrences(init) + (if last in init then [] else [last])
  }

  /** FirstOccurrences lists every element of `s` exactly once. */
  lemma {:induction false} FirstOccurrencesMembers(s: seq<string>)
    ensures Distinct(FirstOccurrences(s))
    ensures forall w :: w in FirstOccurrences(s) <==> w in s
    decreases |s|
  {
    if |s| > 0 {
      var init := s[..|s| - 1];
      assert s == init + [s[|s| - 1]];
      FirstOccurrencesMembers(init);
    }
  }

  /** The position of the first occurrence of `w` in `s`. */
  function FirstIndex(w: string, s: seq<string>): (k: nat)
    requires w in s
    ensures k < |s| && s[k] == w
    ensures forall j :: 0 <= j < k ==> s[j] != w
    decreases |s|
  {
    var init := s[..|s| - 1];
    assert s == init + [s[|s| - 1]];
    if w in init then FirstIndex(w, init) else |s| - 1
  }

  /** FirstOccurrences lists words by increasing first position. */
  lemma {:induction false} FirstOccurrencesOrdered(s: seq<string>)
    ensures forall j, k :: 0 <= j < k < |FirstOccurrences(s)| ==>
              FirstOccurrences(s)[j] in s && FirstOccurrences(s)[k] in s &&
              FirstIndex(FirstOccurrences(s)[j], s) < FirstIndex(FirstOccurrences(s)[k], s)
    decreases |s|
  {
    if |s| > 0 {
      var init := s[..|s| - 1];
      var last := s[|s| - 1];
      assert s == init + [last];
      FirstOccurrencesMembers(s);
      FirstOccurrencesMembers(init);
      FirstOccurrencesOrdered(init);
      var r, r' := FirstOccurrences(s), FirstOccurrences(init);
      assert r == r' + (if last in init then [] else [last]);
      forall j, k | 0 <= j < k < |r| ensures r[j] in s && r[k] in s && FirstIndex(r[j], s) < FirstIndex(r[k], s) {
        assert r[j] == r'[j] && r[j] in init && FirstIndex(r[j], s) == FirstIndex(r[j], init);
        if k < |r'| {
          assert FirstIndex(r[k], s) == FirstIndex(r[k], init);
        } else {
          assert r[k] == last && last !in init;
        }
      }
    } else {
      assert FirstOccurrences(s) == [];
    }
  }

  /** The Counter after the whole corpus: each word to its number of
      occurrences. */
  function WordCounts(s: seq<string>): map<string, nat>
  {
    map w | w in s :: Occurrences(w, s)
  }

  /** The Counter grows by one occurrence of the appended word, starting
      from zero for a word not seen yet, as `word_counts[word] += 1` does. */
  lemma WordCountsAppend(s: seq<string>, w: string)
    ensures WordCounts(s + [w]) ==
            WordCounts(s)[w := (if w in WordCounts(s) then WordCounts(s)[w] else 0) + 1]
  {
    var a := WordCounts(s + [w]);
    var b := WordCounts(s)[w := (if w in WordCounts(s) then WordCounts(s)[w] else 0) + 1];
    assert (s + [w])[..|s|] == s;
    forall u ensures u in a <==> u in b {
      assert u in s + [w] <==> u in s || u == w;
    }
    forall u | u in a ensures a[u] == b[u] {
      assert Occurrences(u, s + [w]) == Occurrences(u, s) + (if u == w then 1 else 0);
    }
  }

  /** The first-occurrence order grows by the appended word if it is new. */
  lemma FirstOccurrencesAppend(s: seq<string>, w: string)
    ensures FirstOccurrences(s + [w]) == FirstOccurrences(s) + (if w in s then [] else [w])
  {
    assert (s + [w])[..|s|] == s;
  }

  /** The words of `order` whose count exceeds `cutoff`, in order: the
      `for word, count in word_counts.items(): if count > cutoff` loop. */
  function Frequent(order: seq<string>, counts: map<string, nat>, cutoff: int): (r: seq<string>)
    requires forall w :: w in order ==> w in counts
    ensures forall w :: w in r <==> w in order && counts[w] > cutoff
    ensures Distinct(order) ==> Distinct(r)
    decreases |order|
  {
    if |order| == 0 then []
    else
      var init := order[..|order| - 1];
      var last := order[|order| - 1];
      assert order == init + [last];
      Frequent(init, counts, cutoff) + (if counts[last] > cutoff then [last] else [])
  }

  /** Frequent keeps the relative order of `order`: any ranking that increases
      along `order` increases along the result. */
  lemma {:induction false} FrequentKeepsOrder(order: seq<string>, counts: map<string, nat>, cutoff: int, rank: map<string, int>)
    requires forall w :: w in order ==> w in counts && w in rank
    requires forall j, k :: 0 <= j < k < |order| ==> rank[order[j]] < rank[order[k]]
    ensures forall w :: w in Frequent(order, counts, cutoff) ==> w in rank
    ensures forall j, k :: 0 <= j < k < |Frequent(order, counts, cutoff)| ==>
              rank[Frequent(order, counts, cutoff)[j]] < rank[Frequent(order, counts, cutoff)[k]]
    decreases |order|
  {
    if |order| > 0 {
      var init := order[..|order| - 1];
      var last := order[|order| - 1];
      assert order == init + [last];
      FrequentKeepsOrder(init, counts, cutoff, rank);
      var r, r' := Frequent(order, counts, cutoff), Frequent(init, counts, cutoff);
      forall j, k | 0 <= j < k < |r| ensures rank[r[j]] < rank[r[k]] {
        if k >= |r'| {
          assert r[j] in init;
          var i :| 0 <= i < |init| && init[i] == r[j];
          assert order[i] == r[j] && r[k] == order[|order| - 1];
        }
      }
    }
  }

  /** Frequent over a prefix that grows by one word. */
  lemma FrequentStep(order: seq<string>, counts: map<string, nat>, cutoff: int, k: nat)
    requires k < |order|
    requires forall w :: w in order ==> w in counts
    ensures counts[order[k]] > cutoff ==>
              Frequent(order[..k + 1], counts, cutoff) == Frequent(order[..k], counts, cutoff) + [order[k]]
    ensures counts[order[k]] <= cutoff ==>
              Frequent(order[..k + 1], counts, cutoff) == Frequent(order[..k], counts, cutoff)
  {
    assert order[..k + 1][..k] == order[..k];
    assert Frequent(order[..k], counts, cutoff) + [] == Frequent(order[..k], counts, cutoff);
  }

  /** The words admitted to the review vocabulary: those counted more than
      `cutoff` times, in order of first occurrence. */
  function FrequentWords(corpus: seq<string>, cutoff: int): seq<string>
  {
    FirstOccurrencesMembers(corpus);
    Frequent(FirstOccurrences(corpus), WordCounts(corpus), cutoff)
  }

  /** The admitted words are distinct, and a word is admitted exactly when it
      occurs in the corpus more than `cutoff` times. */
  lemma FrequentWordsMembers(corpus: seq<string>, cutoff: int)
    ensures Distinct(FrequentWords(corpus, cutoff))
    ensures forall w :: w in FrequentWords(corpus, cutoff) <==> w in corpus && Occurrences(w, corpus) > cutoff
  {
    FirstOccurrencesMembers(corpus);
  }

  /** FrequentWords lists words by increasing first position in the corpus. */
  lemma FrequentWordsOrdered(corpus: seq<string>, cutoff: int)
    ensures forall j, k :: 0 <= j < k < |FrequentWords(corpus, cutoff)| ==>
              FrequentWords(corpus, cutoff)[j] in corpus && FrequentWords(corpus, cutoff)[k] in corpus &&
              FirstIndex(FrequentWords(corpus, cutoff)[j], corpus) < FirstIndex(FrequentWords(corpus, cutoff)[k], corpus)
  {
    var order := FirstOccurrences(corpus);
    var rank := map w | w in corpus :: FirstIndex(w, corpus);
    FirstOccurrencesMembers(corpus);
    FrequentWordsMembers(corpus, cutoff);
    FirstOccurrencesOrdered(corpus);
    FrequentKeepsOrder(order, WordCounts(corpus), cutoff, rank);
  }
}
