/** Python's `' '.join(words)` and its inverse `s.split(' ')`, on Unicode strings. */
module Text {

  const SPACE: char := ' '

  /** Sum of the lengths of `words`. */
  function TotalLength(words: seq<string>): (r: nat)
  {
    if words == [] then 0 else TotalLength(words[..|words| - 1]) + |words[|words| - 1]|
  }

  /** `' '.join(words)`: the words in order, one space between neighbours, none at the ends. */
  function Join(words: seq<string>): (s: string)
    ensures words == [] ==> s == ""
    ensures words != [] ==> |s| + 1 == TotalLength(words) + |words|
  {
    if |words| == 0 then ""
    else if |words| == 1 then words[0]
    else Join(words[..|words| - 1]) + [SPACE] + words[|words| - 1]
  }

  /** Joining one more word after a non-empty list adds one space and that word. */
  lemma JoinSnoc(words: seq<string>, word: string)
    requires words != []
    ensures Join(words + [word]) == Join(words) + [SPACE] + word
  {
    assert (words + [word])[..|words|] == words;
  }

  /** `s.split(' ')`: the pieces between single spaces; never empty, and no piece holds a space. */
  function Split(s: string): (parts: seq<string>)
    ensures |parts| > 0
    ensures forall k :: 0 <= k < |parts| ==> SPACE !in parts[k]
  {
    if |s| == 0 then [""]
    else
      var init := Split(s[..|s| - 1]);
      if s[|s| - 1] == SPACE then init + [""]
      else init[..|init| - 1] + [init[|init| - 1] + [s[|s| - 1]]]
  }

  /** Appending a space and a space-free word appends exactly that word to the pieces. */
  lemma {:induction false} SplitAfterSpace(prefix: string, word: string)
    requires SPACE !in word
    ensures Split(prefix + [SPACE] + word) == Split(prefix) + [word]
    decreases |word|
  {
    var s := prefix + [SPACE] + word;
    if word == [] {
      assert s[..|s| - 1] == prefix;
    } else {
      var init := word[..|word| - 1];
      var last := word[|word| - 1];
      assert word == init + [last];
      assert s[..|s| - 1] == prefix + [SPACE] + init;
      assert s[|s| - 1] == last;
      SplitAfterSpace(prefix, init);
    }
  }

  /** Round trip: splitting a join of space-free words gives the words back. */
  lemma {:induction false} SplitJoin(words: seq<string>)
    requires words != []
    requires forall k :: 0 <= k < |words| ==> SPACE !in words[k]
    ensures Split(Join(words)) == words
    decreases |words|
  {
    if |words| == 1 {
      SplitOfWord(words[0]);
    } else {
      var init := words[..|words| - 1];
      SplitJoin(init);
      SplitAfterSpace(Join(init), words[|words| - 1]);
      assert words == init + [words[|words| - 1]];
    }
  }

  /** A word with no space is a single piece. */
  lemma {:induction false} SplitOfWord(word: string)
    requires SPACE !in word
    ensures Split(word) == [word]
    decreases |word|
  {
    if word != [] {
      var init := word[..|word| - 1];
      assert word == init + [word[|word| - 1]];
      SplitOfWord(init);
    }
  }

  /** The join is empty exactly when there is nothing to join, or only one empty word. */
  lemma {:induction false} JoinEmpty(words: seq<string>)
    ensures Join(words) == "" <==> (words == [] || words == [""])
  {
    if |words| == 1 {
      assert words == [words[0]];
    }
  }
}
