/** Tokenisation as the vectorizer does it: Python's `str.split(" ")` and the
    punctuation skip `token not in string.punctuation`. */
module Text {

  /** Python's `string.punctuation`: the 32 ASCII punctuation characters in
      code-point order, i.e. the four runs that lie around the digits and the
      two letter ranges. */
  const Punctuation: string := "!\"#$%&'()*+,-./" + ":;<=>?@" + "[\\]^_`" + "{|}~"

  /** The separator passed to `split`. */
  const Space: char := ' '

  /** Python's `t in s` on strings: `t` occurs as a contiguous substring of `s`
      (the empty string occurs in every string). */
  predicate IsSubstring(t: string, s: string)
    decreases |s|
  {
    t <= s || (|s| > 0 && IsSubstring(t, s[1..]))
  }

  /** IsSubstring agrees with the definition by slices. */
  lemma {:induction false} IsSubstringIff(t: string, s: string)
    ensures IsSubstring(t, s) <==> exists i, j :: 0 <= i <= j <= |s| && s[i..j] == t
    decreases |s|
  {
    if exists i, j :: 0 <= i <= j <= |s| && s[i..j] == t {
      var i, j :| 0 <= i <= j <= |s| && s[i..j] == t;
      if i == 0 {
        assert s[..j] == t;
      } else {
        assert s[1..][i - 1..j - 1] == t;
        IsSubstringIff(t, s[1..]);
      }
    }
    if IsSubstring(t, s) {
      if t <= s {
        assert s[0..|t|] == t;
      } else {
        IsSubstringIff(t, s[1..]);
        var i, j :| 0 <= i <= j <= |s[1..]| && s[1..][i..j] == t;
        assert s[i + 1..j + 1] == t;
      }
    }
  }

  /** A string that occurs at position `i` of `s` is a substring of `s`. */
  lemma {:induction false} OccursAt(t: string, s: string, i: nat)
    requires i <= |s| && t <= s[i..]
    ensures IsSubstring(t, s)
    decreases i
  {
    if i > 0 {
      assert s[1..][i - 1..] == s[i..];
      OccursAt(t, s[1..], i - 1);
    }
  }

  /** A string holding a character that `s` lacks does not occur in `s`. */
  lemma {:induction false} NotSubstringOfMissingChar(t: string, s: string, c: char)
    requires c in t && c !in s
    ensures !IsSubstring(t, s)
    decreases |s|
  {
    if |s| > 0 {
      NotSubstringOfMissingChar(t, s[1..], c);
    }
  }

  /** A token the vectorizer ignores: one that occurs in `string.punctuation`. */
  predicate Skipped(token: string)
  {
    IsSubstring(token, Punctuation)
  }

  /** The empty token and every single punctuation character are skipped. */
  lemma SkipsEmptyAndSingles()
    ensures Skipped("")
    ensures forall k :: 0 <= k < |Punctuation| ==> Skipped([Punctuation[k]])
  {
    var p := Punctuation;
    assert "" <= p;
    forall k | 0 <= k < |p| ensures Skipped([p[k]]) {
      OccursAt([p[k]], p, k);
    }
  }

  /** Contiguous runs of `string.punctuation` are skipped too. */
  lemma SkipsParentheses()
    ensures Skipped("()")
  {
    var p := Punctuation;
    assert p[7] == '(';
    assert p[8] == ')';
    OccursAt("()", p, 7);
  }

  lemma SkipsComparison()
    ensures Skipped("<=>")
  {
    var p := Punctuation;
    assert p[17] == '<';
    assert p[18] == '=';
    assert p[19] == '>';
    OccursAt("<=>", p, 17);
  }

  /** A repeated punctuation character is kept: `!` occurs once in
      `string.punctuation`, followed by `"`. */
  lemma KeepsDoubledPunctuation()
    ensures !Skipped("!!")
  {
    var p := Punctuation;
    assert p[1] == '"';
    assert !("!!" <= p);
    assert forall k :: 1 <= k < |p| ==> p[k] != '!';
    assert '!' !in p[1..];
    NotSubstringOfMissingChar("!!", p[1..], '!');
  }

  /** Ordinary words are kept. */
  lemma KeepsWords()
    ensures !Skipped("good")
  {
    assert 'g' !in Punctuation;
    NotSubstringOfMissingChar("good", Punctuation, 'g');
  }

  /** Python's `s.split(sep)` with an explicit one-character separator: every
      occurrence of `sep` ends a part, so adjacent separators give empty parts
      and the result is never empty. */
  function Split(s: string, sep: char): (parts: seq<string>)
    ensures |parts| >= 1
    ensures forall k :: 0 <= k < |parts| ==> sep !in parts[k]
    decreases |s|
  {
    if |s| == 0 then [""]
    else
      var rest := Split(s[1..], sep);
      if s[0] == sep then [""] + rest
      else [[s[0]] + rest[0]] + rest[1..]
  }

  /** Python's `sep.join(parts)`, the inverse of Split. */
  function Join(parts: seq<string>, sep: char): string
    decreases |parts|
  {
    if |parts| == 0 then ""
    else if |parts| == 1 then parts[0]
    else parts[0] + [sep] + Join(parts[1..], sep)
  }

  /** Joining the parts back with the separator gives the original string. */
  lemma {:induction false} JoinSplit(s: string, sep: char)
    ensures Join(Split(s, sep), sep) == s
    decreases |s|
  {
    if |s| > 0 {
      JoinSplit(s[1..], sep);
      var rest := Split(s[1..], sep);
      if s[0] == sep {
        assert ([""] + rest)[1..] == rest;
        assert s == [sep] + s[1..];
      } else if |rest| == 1 {
        assert s == [s[0]] + s[1..];
      } else {
        assert ([[s[0]] + rest[0]] + rest[1..])[1..] == rest[1..];
        assert Join(rest, sep) == rest[0] + [sep] + Join(rest[1..], sep);
        assert s == [s[0]] + s[1..];
      }
    }
  }

  /** Splitting a join of separator-free parts gives the parts back. */
  lemma {:induction false} SplitJoin(parts: seq<string>, sep: char)
    requires |parts| >= 1
    requires forall k :: 0 <= k < |parts| ==> sep !in parts[k]
    ensures Split(Join(parts, sep), sep) == parts
    decreases |parts|, |parts[0]|
  {
    var p := parts[0];
    if |p| == 0 {
      if |parts| > 1 {
        SplitJoin(parts[1..], sep);
        var j := Join(parts, sep);
        assert j == [sep] + Join(parts[1..], sep);
        assert j[1..] == Join(parts[1..], sep);
        assert parts == [""] + parts[1..];
      }
    } else {
      var parts' := [p[1..]] + parts[1..];
      assert parts'[1..] == parts[1..];
      SplitJoin(parts', sep);
      var j := Join(parts, sep);
      if |parts| == 1 {
        assert j == p && j[1..] == p[1..];
      } else {
        assert j == p + [sep] + Join(parts[1..], sep);
        assert j[1..] == Join(parts', sep);
      }
      assert j[0] == p[0] && p[0] != sep;
      assert [j[0]] + p[1..] == p;
      assert parts == [p] + parts'[1..];
    }
  }

  /** The tokens of `parts` the skip test keeps, in order. */
  function Kept(parts: seq<string>): (r: seq<string>)
    ensures |r| <= |parts|
    decreases |parts|
  {
    if |parts| == 0 then []
    else
      var last := parts[|parts| - 1];
      var init := parts[..|parts| - 1];
      Kept(init) + (if Skipped(last) then [] else [last])
  }

  /** Kept keeps exactly the parts that are not skipped. */
  lemma {:induction false} KeptMembers(parts: seq<string>)
    ensures forall t :: t in Kept(parts) <==> t in parts && !Skipped(t)
    decreases |parts|
  {
    if |parts| > 0 {
      var init := parts[..|parts| - 1];
      assert parts == init + [parts[|parts| - 1]];
      KeptMembers(init);
    }
  }

  /** Kept over a prefix that grows by one part. */
  lemma KeptStep(parts: seq<string>, i: nat)
    requires i < |parts|
    ensures Skipped(parts[i]) ==> Kept(parts[..i + 1]) == Kept(parts[..i])
    ensures !Skipped(parts[i]) ==> Kept(parts[..i + 1]) == Kept(parts[..i]) + [parts[i]]
  {
    assert parts[..i + 1][..i] == parts[..i];
    assert Kept(parts[..i]) + [] == Kept(parts[..i]);
  }

  /** The words a review contributes: the parts of `review.split(" ")` that are
      not skipped as punctuation. */
  function Words(review: string): seq<string>
  {
    Kept(Split(review, Space))
  }

  /** A word of a review is a non-empty, space-free token outside
      `string.punctuation`, and every such part of the split is a word. */
  lemma WordsMembers(review: string)
    ensures forall w :: w in Words(review) ==> Space !in w && !Skipped(w) && w != ""
    ensures forall w :: w in Split(review, Space) && !Skipped(w) ==> w in Words(review)
  {
    assert Skipped("") by { assert "" <= Punctuation; }
    KeptMembers(Split(review, Space));
  }
}
