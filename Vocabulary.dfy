/** The Vocabulary class of test.py: a two-way token <-> index map with an
    optional unknown-token sentinel. */
module Vocab {
  import opened Results

  /** Python's default `unk_token`. */
  const DefaultUnk: string := "<UNK>"

  /** Every index of the forward map lies in 0..|m|-1. */
  ghost predicate IndicesInRange(m: map<string, int>)
  {
    forall t :: t in m ==> 0 <= m[t] < |m|
  }

  /** No two tokens share an index. */
  ghost predicate IndicesUnique(m: map<string, int>)
  {
    forall t, u :: t in m && u in m && m[t] == m[u] ==> t == u
  }

  /** Every index in 0..|m|-1 is used. */
  ghost predicate IndicesCovered(m: map<string, int>)
  {
    forall i :: 0 <= i < |m| ==> i in m.Values
  }

  /** The forward map uses each index 0..|m|-1 exactly once. */
  ghost predicate IsDense(m: map<string, int>)
  {
    IndicesInRange(m) && IndicesUnique(m) && IndicesCovered(m)
  }

  ghost predicate Distinct(s: seq<string>)
  {
    forall i, j :: 0 <= i < j < |s| ==> s[i] != s[j]
  }

  /** The forward map after `add_token(token)`: unchanged when the token is
      present, otherwise extended with the next index `len(_token_to_idx)`. */
  function WithToken(m: map<string, int>, token: string): (r: map<string, int>)
    ensures token in r && r.Keys == m.Keys + {token}
    ensures forall t :: t in m ==> r[t] == m[t]
    ensures token !in m ==> r[token] == |m| && |r| == |m| + 1
  {
    if token in m then m else m[token := |m|]
  }

  /** `add_token` keeps the forward map dense. */
  lemma WithTokenDense(m: map<string, int>, token: string)
    requires IsDense(m)
    ensures IsDense(WithToken(m, token))
  {
    if token !in m {
      var r := WithToken(m, token);
      assert IndicesInRange(r);
      assert IndicesUnique(r) by {
        forall t, u | t in r && u in r && r[t] == r[u] ensures t == u {
          if t != token && u != token {
            assert m[t] == m[u];
          }
        }
      }
      assert IndicesCovered(r) by {
        forall i | 0 <= i < |r| ensures i in r.Values {
          if i < |m| {
            assert i in m.Values;
            var t :| t in m && m[t] == i;
            assert r[t] == i;
          } else {
            assert r[token] == i;
          }
        }
      }
    }
  }

  /** `inv` is the exact inverse of the dense map `m` over 0..|m|-1. */
  ghost predicate InverseOf(inv: map<int, string>, m: map<string, int>)
  {
    && (forall i :: i in inv <==> 0 <= i < |m|)
    && (forall t :: t in m ==> m[t] in inv && inv[m[t]] == t)
    && (forall i :: i in inv ==> inv[i] in m && m[inv[i]] == i)
  }

  /** The inverse map, `{idx: token for token, idx in m.items()}`. */
  function Invert(m: map<string, int>): (r: map<int, string>)
    requires IsDense(m)
    ensures InverseOf(r, m)
  {
    var r := map t | t in m :: m[t] := t;
    assert forall i :: i in r ==> r[i] in m && m[r[i]] == i;
    assert forall t :: t in m ==> m[t] in r && r[m[t]] == t by {
      forall t | t in m ensures m[t] in r && r[m[t]] == t {
        assert m[r[m[t]]] == m[t];
      }
    }
    assert forall i :: 0 <= i < |m| ==> i in r by {
      forall i | 0 <= i < |m| ensures i in r {
        assert i in m.Values;
        var t :| t in m && m[t] == i;
        assert m[t] in r;
      }
    }
    r
  }

  /** A map that has an inverse over 0..|m|-1 is dense. */
  lemma InverseImpliesDense(inv: map<int, string>, m: map<string, int>)
    requires InverseOf(inv, m)
    ensures IsDense(m)
  {
    assert IndicesUnique(m) by {
      forall t, u | t in m && u in m && m[t] == m[u] ensures t == u {
        assert inv[m[t]] == t && inv[m[u]] == u;
      }
    }
    assert IndicesCovered(m) by {
      forall i | 0 <= i < |m| ensures i in m.Values {
        assert i in inv && m[inv[i]] == i;
      }
    }
  }

  /** A map has only one inverse. */
  lemma InverseUnique(a: map<int, string>, b: map<int, string>, m: map<string, int>)
    requires InverseOf(a, m) && InverseOf(b, m)
    ensures a == b
  {
    assert a.Keys == b.Keys by {
      forall i ensures i in a <==> i in b {
        assert i in a <==> 0 <= i < |m|;
        assert i in b <==> 0 <= i < |m|;
      }
    }
    forall i | i in a ensures a[i] == b[i] {
      assert m[a[i]] == i;
    }
  }

  /** Adding a new token extends the inverse by exactly one entry. */
  lemma InverseWithToken(inv: map<int, string>, m: map<string, int>, token: string)
    requires InverseOf(inv, m) && token !in m
    ensures InverseOf(inv[|m| := token], WithToken(m, token))
  {
    var r := WithToken(m, token);
    var b := inv[|m| := token];
    forall t | t in r ensures r[t] in b && b[r[t]] == t {
      if t != token {
        assert m[t] in inv;
      }
    }
  }

  /** When `add_token` inserts a new token, the rebuilt inverse is the old one
      with exactly the entry `|m| -> token` added. */
  lemma InverseAfterInsert(inv: map<int, string>, inv': map<int, string>, m: map<string, int>, token: string)
    requires InverseOf(inv, m) && token !in m
    requires InverseOf(inv', WithToken(m, token))
    ensures inv' == inv[|m| := token]
  {
    InverseWithToken(inv, m, token);
    InverseUnique(inv', inv[|m| := token], WithToken(m, token));
  }

  /** The forward map after `add_token(x)` for each `x` of `xs` in turn. */
  function AddAll(m: map<string, int>, xs: seq<string>): map<string, int>
    decreases |xs|
  {
    if |xs| == 0 then m
    else WithToken(AddAll(m, xs[..|xs| - 1]), xs[|xs| - 1])
  }

  /** AddAll holds the tokens of `m` and of `xs`, and keeps the entries of `m`. */
  lemma {:induction false} AddAllMembers(m: map<string, int>, xs: seq<string>)
    ensures forall t :: t in AddAll(m, xs) <==> t in m || t in xs
    ensures forall t :: t in m ==> AddAll(m, xs)[t] == m[t]
    decreases |xs|
  {
    if |xs| > 0 {
      var init := xs[..|xs| - 1];
      assert xs == init + [xs[|xs| - 1]];
      AddAllMembers(m, init);
    }
  }

  /** AddAll over a sequence that grows by one token. */
  lemma AddAllAppend(m: map<string, int>, xs: seq<string>, x: string)
    ensures AddAll(m, xs + [x]) == WithToken(AddAll(m, xs), x)
  {
    assert (xs + [x])[..|xs|] == xs;
  }

  /** AddAll over a prefix that grows by one token. */
  lemma AddAllStep(m: map<string, int>, xs: seq<string>, k: nat)
    requires k < |xs|
    ensures AddAll(m, xs[..k + 1]) == WithToken(AddAll(m, xs[..k]), xs[k])
  {
    assert xs[..k + 1][..k] == xs[..k];
  }

  /** Adding a sequence of tokens keeps the forward map dense. */
  lemma {:induction false} AddAllDense(m: map<string, int>, xs: seq<string>)
    requires IsDense(m)
    ensures IsDense(AddAll(m, xs))
    decreases |xs|
  {
    if |xs| > 0 {
      AddAllDense(m, xs[..|xs| - 1]);
      WithTokenDense(AddAll(m, xs[..|xs| - 1]), xs[|xs| - 1]);
    }
  }

  /** Distinct tokens that are all new receive the next indices in turn. */
  lemma {:induction false} AddAllFresh(m: map<string, int>, xs: seq<string>)
    requires Distinct(xs)
    requires forall x :: x in xs ==> x !in m
    ensures |AddAll(m, xs)| == |m| + |xs|
    ensures forall k :: 0 <= k < |xs| ==> xs[k] in AddAll(m, xs) && AddAll(m, xs)[xs[k]] == |m| + k
    decreases |xs|
  {
    if |xs| > 0 {
      var n := |xs| - 1;
      var init := xs[..n];
      assert xs == init + [xs[n]];
      AddAllFresh(m, init);
      AddAllMembers(m, init);
      assert xs[n] !in init;
      assert xs[n] !in AddAll(m, init);
      forall k | 0 <= k < n ensures xs[k] in AddAll(m, xs) && AddAll(m, xs)[xs[k]] == |m| + k {
        assert init[k] == xs[k];
      }
    }
  }

  /** What `to_serialize` returns: the forward map, the flag and the sentinel. */
  datatype SerializedVocab = SerializedVocab(tokenToIdx: map<string, int>, addUnk: bool, unkToken: string)

  /** A serialized vocabulary that reloads to itself. */
  ghost predicate WellFormed(c: SerializedVocab)
  {
    IsDense(c.tokenToIdx) && (c.addUnk ==> c.unkToken in c.tokenToIdx)
  }

  class Vocabulary {
    var tokenToIdx: map<string, int>   // `_token_to_idx`
    var idxToToken: map<int, string>   // `_idx_to_token`
    const addUnk: bool                 // `_add_unk`
    const unkToken: string             // `_unk_token`
    var unkIndex: int                  // `unk_index`

    /** The two maps are mutual inverses over the dense indices 0..Len()-1. */
    ghost predicate MapsValid()
      reads this
    {
      InverseOf(idxToToken, tokenToIdx)
    }

    /** The sentinel is present at `unkIndex` exactly when the fallback is on. */
    ghost predicate Valid()
      reads this
    {
      && MapsValid()
      && (addUnk ==> unkToken in tokenToIdx && unkIndex == tokenToIdx[unkToken])
      && (!addUnk ==> unkIndex == -1)
    }

    /** `Vocabulary(token_to_idx, add_unk, unk_token)`: the inverse map is
        rebuilt from the supplied forward map, then the sentinel is added
        through `add_token` when the fallback is on. */
    constructor (tokenToIdx: map<string, int> := map[], addUnk: bool := true, unkToken: string := DefaultUnk)
      requires IsDense(tokenToIdx)
      ensures Valid()
      ensures this.tokenToIdx == if addUnk then WithToken(tokenToIdx, unkToken) else tokenToIdx
      ensures this.addUnk == addUnk && this.unkToken == unkToken
      ensures tokenToIdx == map[] && addUnk ==> unkIndex == 0 && this.tokenToIdx == map[unkToken := 0]
      ensures tokenToIdx == map[] && !addUnk ==> unkIndex == -1 && Len() == 0
    {
      this.tokenToIdx := tokenToIdx;
      this.idxToToken := Invert(tokenToIdx);
      this.addUnk := addUnk;
      this.unkToken := unkToken;
      this.unkIndex := -1;
      new;
      if addUnk {
        unkIndex := AddToken(unkToken);
      }
    }

    /** `add_token`: idempotent; a new token gets the next dense index and both
        maps gain exactly that entry. */
    method AddToken(token: string) returns (index: int)
      requires MapsValid()
      modifies this`tokenToIdx, this`idxToToken
      ensures MapsValid()
      ensures tokenToIdx == WithToken(old(tokenToIdx), token)
      ensures index == tokenToIdx[token] && LookupIndex(index) == Ok(token)
      ensures token in old(tokenToIdx) ==> unchanged(this)
      ensures token !in old(tokenToIdx) ==> index == old(|tokenToIdx|) && Len() == index + 1
      ensures old(Valid()) ==> Valid()
    {
      if token in tokenToIdx {
        index := tokenToIdx[token];
      } else {
        index := |tokenToIdx|;
        InverseWithToken(idxToToken, tokenToIdx, token);
        tokenToIdx := tokenToIdx[token := index];
        idxToToken := idxToToken[index := token];
      }
    }

    /** `lookup_token` as intended: with the fallback on, a present token's
        index and otherwise the sentinel's; with it off, a KeyError for an
        absent token. */
    function LookupToken(token: string): (r: Result<int>)
      reads this
      requires Valid()
      ensures addUnk ==> r.Ok?
      ensures !addUnk ==> (r.Ok? <==> token in tokenToIdx)
      ensures r.Err? ==> r.error == KeyError
      ensures r.Ok? ==> 0 <= r.value < Len()
      ensures r.Ok? ==> LookupIndex(r.value) == Ok(if token in tokenToIdx then token else unkToken)
    {
      if addUnk then Ok(if token in tokenToIdx then tokenToIdx[token] else unkIndex)
      else if token in tokenToIdx then Ok(tokenToIdx[token])
      else Err(KeyError)
    }

    /** `lookup_token` as written: it reads `self.add_unk`, an attribute the
        class never sets, so every call raises AttributeError. */
    function LookupTokenAsWritten(token: string): (r: Result<int>)
      ensures r.Err? && r.error.AttributeError?
    {
      Err(AttributeError("add_unk"))
    }

    /** `lookup_index`: the stored token, or a KeyError exactly for an index
        that was never assigned. */
    function LookupIndex(index: int): (r: Result<string>)
      reads this
      requires MapsValid()
      ensures r.Ok? <==> 0 <= index < Len()
      ensures r.Err? ==> r.error == KeyError
      ensures r.Ok? ==> r.value in tokenToIdx && tokenToIdx[r.value] == index
    {
      if index in idxToToken then Ok(idxToToken[index]) else Err(KeyError)
    }

    /** `__len__`: the number of tokens, which is also the number of assigned
        indices. */
    function Len(): (n: nat)
      reads this
      requires MapsValid()
      ensures forall i :: i in idxToToken <==> 0 <= i < n
    {
      |tokenToIdx|
    }

    /** `to_serialize`: a plain record that reloads to this vocabulary. */
    function ToSerialize(): (c: SerializedVocab)
      reads this
      requires Valid()
      ensures WellFormed(c)
      ensures c.tokenToIdx == tokenToIdx && c.addUnk == addUnk && c.unkToken == unkToken
    {
      InverseImpliesDense(idxToToken, tokenToIdx);
      SerializedVocab(tokenToIdx, addUnk, unkToken)
    }

    /** `Vocabulary.from_serializable`: the constructor applied to the record's
        fields; a well-formed record is reproduced exactly. */
    static method FromSerializable(contents: SerializedVocab) returns (v: Vocabulary)
      requires IsDense(contents.tokenToIdx)
      ensures fresh(v) && v.Valid()
      ensures v.tokenToIdx ==
                if contents.addUnk then WithToken(contents.tokenToIdx, contents.unkToken) else contents.tokenToIdx
      ensures v.addUnk == contents.addUnk && v.unkToken == contents.unkToken
      ensures WellFormed(contents) ==> v.ToSerialize() == contents
    {
      v := new Vocabulary(contents.tokenToIdx, contents.addUnk, contents.unkToken);
    }
  }

  /** Two vocabularies with the same serialized form behave identically: the
      serialized form determines the inverse map, the sentinel index and the
      answer to every lookup. */
  lemma SerializedFormDeterminesVocabulary(v: Vocabulary, w: Vocabulary)
    requires v.Valid() && w.Valid() && v.ToSerialize() == w.ToSerialize()
    ensures v.idxToToken == w.idxToToken && v.unkIndex == w.unkIndex && v.Len() == w.Len()
    ensures forall t :: v.LookupToken(t) == w.LookupToken(t)
    ensures forall i :: v.LookupIndex(i) == w.LookupIndex(i)
  {
    InverseUnique(v.idxToToken, w.idxToToken, v.tokenToIdx);
  }

  /** The lookup_token bug: even the sentinel itself cannot be looked up as
      written, whereas the intended lookup returns the sentinel index. */
  lemma LookupTokenAsWrittenFails(v: Vocabulary)
    requires v.Valid() && v.addUnk
    ensures v.LookupTokenAsWritten(v.unkToken).Err?
    ensures v.LookupToken(v.unkToken) == Ok(v.unkIndex)
  {
  }
}
