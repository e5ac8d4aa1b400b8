/** `process_fulltext`: drop stop words and short tokens, then join the rest with single spaces. */
module TokenFilter {
  import opened Text

  /** The comprehension's condition: the token is not a stop word (an exact, case-sensitive
      match) and is longer than three characters. */
  predicate Keep(token: string, stopWords: set<string>)
  {
    token !in stopWords && |token| > 3
  }

  /** `[word for word in tokens if not word in stop_words and len(word) > 3]` */
  function FilterTokens(tokens: seq<string>, stopWords: set<string>): (kept: seq<string>)
    ensures |kept| <= |tokens|
    ensures forall k :: 0 <= k < |kept| ==> Keep(kept[k], stopWords)
  {
    if tokens == [] then []
    else
      var last := tokens[|tokens| - 1];
      FilterTokens(tokens[..|tokens| - 1], stopWords) + (if Keep(last, stopWords) then [last] else [])
  }

  /** The positions in `tokens` of the tokens the filter keeps, ascending. */
  function KeptPositions(tokens: seq<string>, stopWords: set<string>): (r: seq<nat>)
  {
    if tokens == [] then []
    else
      KeptPositions(tokens[..|tokens| - 1], stopWords)
      + (if Keep(tokens[|tokens| - 1], stopWords) then [|tokens| - 1] else [])
  }

  /** The filter keeps exactly the tokens satisfying `Keep`, each occurrence once, in input
      order: the k-th kept token is the token at the k-th kept position, the positions rise
      strictly, and a position is kept if and only if its token satisfies `Keep`. */
  lemma {:induction false} FilterTokensExactly(tokens: seq<string>, stopWords: set<string>)
    ensures |KeptPositions(tokens, stopWords)| == |FilterTokens(tokens, stopWords)|
    ensures forall k :: 0 <= k < |KeptPositions(tokens, stopWords)| ==>
      KeptPositions(tokens, stopWords)[k] < |tokens|
      && FilterTokens(tokens, stopWords)[k] == tokens[KeptPositions(tokens, stopWords)[k]]
    ensures forall k, l :: 0 <= k < l < |KeptPositions(tokens, stopWords)| ==>
      KeptPositions(tokens, stopWords)[k] < KeptPositions(tokens, stopWords)[l]
    ensures forall i :: 0 <= i < |tokens| ==>
      (i in KeptPositions(tokens, stopWords) <==> Keep(tokens[i], stopWords))
    decreases |tokens|
  {
    if tokens != [] {
      var init := tokens[..|tokens| - 1];
      FilterTokensExactly(init, stopWords);
      assert forall i :: 0 <= i < |init| ==> init[i] == tokens[i];
    }
  }

  /** Completeness: every token satisfying `Keep` appears in the output. */
  lemma {:induction false} FilterTokensComplete(tokens: seq<string>, stopWords: set<string>, i: nat)
    requires i < |tokens| && Keep(tokens[i], stopWords)
    ensures tokens[i] in FilterTokens(tokens, stopWords)
  {
    FilterTokensExactly(tokens, stopWords);
    var ps := KeptPositions(tokens, stopWords);
    assert i in ps;
    var k :| 0 <= k < |ps| && ps[k] == i;
    assert FilterTokens(tokens, stopWords)[k] == tokens[i];
  }

  /** No deduplication: a kept token occurs in the output as often as in the input, and any
      other token not at all. */
  lemma {:induction false} FilterTokensCounts(tokens: seq<string>, stopWords: set<string>)
    ensures forall w ::
      (multiset(FilterTokens(tokens, stopWords))[w] == if Keep(w, stopWords) then multiset(tokens)[w] else 0)
    decreases |tokens|
  {
    if tokens != [] {
      var init := tokens[..|tokens| - 1];
      var last := tokens[|tokens| - 1];
      FilterTokensCounts(init, stopWords);
      assert tokens == init + [last];
      assert multiset(tokens) == multiset(init) + multiset{last};
    }
  }

  /** The length boundary: a token of three characters or fewer never survives, and a token of
      exactly four characters that is not a stop word always does. */
  lemma {:induction false} LengthBoundary(tokens: seq<string>, stopWords: set<string>, i: nat)
    requires i < |tokens|
    ensures |tokens[i]| <= 3 ==> tokens[i] !in FilterTokens(tokens, stopWords)
    ensures |tokens[i]| == 4 && tokens[i] !in stopWords ==> tokens[i] in FilterTokens(tokens, stopWords)
  {
    if |tokens[i]| == 4 && tokens[i] !in stopWords {
      FilterTokensComplete(tokens, stopWords, i);
    }
  }

  /** The filter leaves a token list unchanged exactly when every token satisfies `Keep`. */
  lemma {:induction false} FilterTokensFixpoint(tokens: seq<string>, stopWords: set<string>)
    ensures FilterTokens(tokens, stopWords) == tokens
      <==> forall k :: 0 <= k < |tokens| ==> Keep(tokens[k], stopWords)
    decreases |tokens|
  {
    if tokens != [] && forall k :: 0 <= k < |tokens| ==> Keep(tokens[k], stopWords) {
      var init := tokens[..|tokens| - 1];
      FilterTokensFixpoint(init, stopWords);
      assert tokens == init + [tokens[|tokens| - 1]];
    }
  }

  /** Idempotence at the token level. */
  lemma FilterTokensIdempotent(tokens: seq<string>, stopWords: set<string>)
    ensures FilterTokens(FilterTokens(tokens, stopWords), stopWords) == FilterTokens(tokens, stopWords)
  {
    FilterTokensFixpoint(FilterTokens(tokens, stopWords), stopWords);
  }

  /** `process_fulltext` on the tokenizer's output `tokens` and the stop-word list `stopWords`:
      the text is empty exactly when no token survives the filter. */
  function ProcessFulltext(tokens: seq<string>, stopWords: set<string>): (r: string)
    ensures r == "" <==> FilterTokens(tokens, stopWords) == []
  {
    JoinEmpty(FilterTokens(tokens, stopWords));
    Join(FilterTokens(tokens, stopWords))
  }

  /** The filtered text holds exactly the kept tokens: when something is kept, splitting the
      text at spaces gives back the kept tokens, provided no token holds a space. */
  lemma ProcessFulltextWords(tokens: seq<string>, stopWords: set<string>)
    requires forall k :: 0 <= k < |tokens| ==> SPACE !in tokens[k]
    ensures FilterTokens(tokens, stopWords) != [] ==>
      Split(ProcessFulltext(tokens, stopWords)) == FilterTokens(tokens, stopWords)
  {
    var kept := FilterTokens(tokens, stopWords);
    if kept != [] {
      FilterTokensExactly(tokens, stopWords);
      SplitJoin(kept);
    }
  }

  /** Idempotence at the text level, with splitting at spaces as the tokenizer: filtering the
      words of the filtered text changes nothing. */
  lemma ProcessFulltextIdempotent(tokens: seq<string>, stopWords: set<string>)
    requires forall k :: 0 <= k < |tokens| ==> SPACE !in tokens[k]
    ensures ProcessFulltext(Split(ProcessFulltext(tokens, stopWords)), stopWords)
      == ProcessFulltext(tokens, stopWords)
  {
    var kept := FilterTokens(tokens, stopWords);
    ProcessFulltextWords(tokens, stopWords);
    if kept == [] {
      assert Split("") == [""];
      assert FilterTokens([""], stopWords) == [];
    } else {
      FilterTokensIdempotent(tokens, stopWords);
    }
  }

  /** Filtering distributes over concatenation of token lists. */
  lemma {:induction false} FilterTokensAppend(front: seq<string>, back: seq<string>, stopWords: set<string>)
    ensures FilterTokens(front + back, stopWords) == FilterTokens(front, stopWords) + FilterTokens(back, stopWords)
    decreases |back|
  {
    if back == [] {
      assert front + back == front;
    } else {
      var init := back[..|back| - 1];
      FilterTokensAppend(front, init, stopWords);
      assert (front + back)[..|front + back| - 1] == front + init;
      assert (front + back)[|front + back| - 1] == back[|back| - 1];
    }
  }

  /** Eight tokens of which only the second, fourth and seventh pass: the text is those three,
      space-separated. */
  lemma ThreeOfEight(t0: string, t1: string, t2: string, t3: string, t4: string, t5: string,
                     t6: string, t7: string, stopWords: set<string>)
    requires Keep(t1, stopWords) && Keep(t3, stopWords) && Keep(t6, stopWords)
    requires !Keep(t0, stopWords) && !Keep(t2, stopWords) && !Keep(t4, stopWords)
    requires !Keep(t5, stopWords) && !Keep(t7, stopWords)
    ensures ProcessFulltext([t0, t1, t2, t3, t4, t5, t6, t7], stopWords)
      == t1 + [SPACE] + t3 + [SPACE] + t6
  {
    var tokens := [t0, t1, t2, t3, t4, t5, t6, t7];
    forall n | 0 < n <= 8
      ensures FilterTokens(tokens[..n], stopWords)
        == FilterTokens(tokens[..n - 1], stopWords) + (if Keep(tokens[n - 1], stopWords) then [tokens[n - 1]] else [])
    {
      assert tokens[..n][..n - 1] == tokens[..n - 1];
    }
    assert tokens[..0] == [] && tokens[..8] == tokens;
    assert FilterTokens(tokens[..1], stopWords) == [];
    assert FilterTokens(tokens[..2], stopWords) == [t1];
    assert FilterTokens(tokens[..3], stopWords) == [t1];
    assert FilterTokens(tokens[..4], stopWords) == [t1, t3];
    assert FilterTokens(tokens[..5], stopWords) == [t1, t3];
    assert FilterTokens(tokens[..6], stopWords) == [t1, t3];
    assert FilterTokens(tokens[..7], stopWords) == [t1, t3, t6];
    assert FilterTokens(tokens, stopWords) == [t1, t3, t6];
    JoinSnoc([t1], t3);
    JoinSnoc([t1, t3], t6);
  }

  /** The sentence "The quick Fox jumps over the lazy Dog", with "the" and "over" among the
      stop words: three-letter "The", "Fox" and "Dog" fall to the length test. */
  lemma QuickFoxExample(stopWords: set<string>)
    requires "the" in stopWords && "over" in stopWords
    requires "quick" !in stopWords && "jumps" !in stopWords && "lazy" !in stopWords
    ensures ProcessFulltext(["The", "quick", "Fox", "jumps", "over", "the", "lazy", "Dog"], stopWords)
      == "quick jumps lazy"
  {
    ThreeOfEight("The", "quick", "Fox", "jumps", "over", "the", "lazy", "Dog", stopWords);
  }
}
