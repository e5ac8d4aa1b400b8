# zotero-wordcloud, modelled in Dafny

zotero-wordcloud downloads the full text of the attachments in a Zotero collection, filters the
words and draws a word cloud from them. This project models the two computations in
`zotero-wordcloud.py` that are more than calls into libraries, and proves what they promise:

- **Full-text collection** (`get_fulltext`), module `Fulltext` in `fulltext.dfy`. The collection
  listing is a sequence of `Item(key, itemType)`. The server's per-key full-text answer is a function
  `string -> FulltextResult` with `Found(content) | NotFound`. The key selection is the pure function
  `AttachmentKeys`. The loop that appends each found content and skips "not found" is the method
  `GetFulltext`, with a loop invariant tying the accumulated list to the processed prefix of keys.
  It is proved equal to `Join(FoundContents(AttachmentKeys(items), fulltext))`.
- **Token filter** (`process_fulltext`), module `TokenFilter` in `token_filter.dfy`. The tokenizer's
  output is the input `tokens`, and the English stop-word list is the input set `stopWords`.
  `FilterTokens` is the list comprehension and `ProcessFulltext` joins its result.
- **Joining**, module `Text` in `text.dfy`. This is Python's `' '.join`. It is paired with
  `str.split(' ')` (`Split`), the inverse used to state the round trip and the text-level
  idempotence of the filter.

The specification functions peel off the last element, so each one follows the source's
left-to-right loop or comprehension one step at a time. A token's length is its number of Unicode
code points (Dafny's `char` is a Unicode scalar value), as Python's `len` counts on a `str`.
Stop-word matching is exact and case-sensitive, as `word in stop_words` is. So `"The"` is not
matched by a lower-case stop word; it is dropped only by the length test.

On "The quick Fox jumps over the lazy Dog" the code keeps `quick jumps lazy`: `"The"`, `"Fox"`
and `"Dog"` have three characters and fail `len(word) > 3`, and `"over"` and `"the"` are on the
English stop-word list. `TokenFilter.QuickFoxExample` proves this outcome.

## Model

| member | source | states |
|---|---|---|
| `Text.Join` | zotero-wordcloud.py:47 | joining no words gives the empty string; otherwise the result's length is the words' total length plus one separator between each pair of neighbours |
| `Text.SplitJoin` | zotero-wordcloud.py:47 | round trip: splitting a join of a non-empty list of space-free words at spaces gives the words back |
| `Text.JoinEmpty` | zotero-wordcloud.py:47 | the join is the empty string if and only if there are no words or a single empty word |
| `TokenFilter.FilterTokens` | zotero-wordcloud.py:55-56 | every kept token is not a stop word and is longer than three characters; no more tokens come out than go in |
| `TokenFilter.FilterTokensExactly` | zotero-wordcloud.py:55-56 | the output is the input tokens at strictly ascending positions, and a position is taken if and only if its token passes the filter: exactly the passing tokens, in input order, as a subsequence |
| `TokenFilter.FilterTokensComplete` | zotero-wordcloud.py:55-56 | completeness: every input token that is not a stop word and is longer than three characters appears in the output |
| `TokenFilter.FilterTokensCounts` | zotero-wordcloud.py:55-56 | no deduplication: a passing token occurs in the output as often as in the input, and any other token never |
| `TokenFilter.LengthBoundary` | zotero-wordcloud.py:50-56 | a token of three characters or fewer is never kept; a four-character token that is not a stop word is always kept |
| `TokenFilter.FilterTokensFixpoint` | zotero-wordcloud.py:55-56 | the filter returns a token list unchanged if and only if every token in it passes |
| `TokenFilter.FilterTokensIdempotent` | zotero-wordcloud.py:55-56 | filtering an already filtered token list returns it unchanged |
| `TokenFilter.ProcessFulltext` | zotero-wordcloud.py:49-56 | the filtered, space-joined text is empty if and only if no token passes the filter |
| `TokenFilter.ProcessFulltextWords` | zotero-wordcloud.py:49-56 | for space-free tokens, when some token is kept, the text's space-separated words are exactly the kept tokens |
| `TokenFilter.ProcessFulltextIdempotent` | zotero-wordcloud.py:49-56 | for space-free tokens, with splitting at spaces as the tokenizer, filtering the filtered text again gives the same text |
| `TokenFilter.FilterTokensAppend` | zotero-wordcloud.py:55-56 | filtering two token lists one after the other gives the first's kept tokens followed by the second's |
| `TokenFilter.ThreeOfEight` | zotero-wordcloud.py:55-56 | of eight tokens where only the second, fourth and seventh pass, the text is exactly those three joined by single spaces |
| `TokenFilter.QuickFoxExample` | zotero-wordcloud.py:53-56 | on "The quick Fox jumps over the lazy Dog", with "the" and "over" as stop words, the result is "quick jumps lazy" |
| `Fulltext.AttachmentKeys` | zotero-wordcloud.py:40 | at most one key per listed item |
| `Fulltext.AttachmentKeysExactly` | zotero-wordcloud.py:40 | the keys are those of the items at strictly ascending positions, and a position is taken if and only if its item's type is `attachment`: exactly the attachment keys, in listing order |
| `Fulltext.AttachmentKeysMembership` | zotero-wordcloud.py:40 | a key is selected if and only if some listed item of type `attachment` carries it |
| `Fulltext.FoundContents` | zotero-wordcloud.py:41-46 | no more texts are gathered than there are keys |
| `Fulltext.FoundContentsExactly` | zotero-wordcloud.py:41-46 | the k-th gathered text is the content found for the key at the k-th of strictly ascending positions, and a position is used if and only if its lookup succeeded |
| `Fulltext.FoundContentsAppend` | zotero-wordcloud.py:41-46 | gathering over two runs of keys one after the other gives the first run's texts followed by the second's, so texts stay in key order |
| `Fulltext.NothingFound` | zotero-wordcloud.py:41-46 | nothing is gathered if and only if every lookup answers "not found" |
| `Fulltext.GetFulltext` | zotero-wordcloud.py:35-47 | the loop's result is the single-space join of the contents found for the attachment keys, in key order, with "not found" keys skipped and no failure |
| `Fulltext.EmptyFulltext` | zotero-wordcloud.py:37-47 | when no listed item is an attachment, or every attachment's lookup is "not found", the result is the empty string |
| `Fulltext.SkipMissingExample` | zotero-wordcloud.py:40-47 | three attachments with the second's full text missing give the first and third contents joined by one space |

## Left out

- Tokenization (`word_tokenize`, line 53): a foreign natural-language tokenizer. Its output is the input `tokens`. `ProcessFulltextIdempotent` uses splitting at spaces as the tokenizer. It does not claim that re-running `word_tokenize` on the filtered text gives the same tokens.
- Strings holding lone surrogate code points (which a Python `str` can carry, for instance from a `\ud800` escape in the server's JSON `content`) cannot be represented: a Dafny `char` is a Unicode scalar value.
- The stop-word corpus (`stopwords.words('english')`, line 54): external data. It is the parameter `stopWords`. A Python list is modelled as a set, because only membership is used.
- The Zotero client (`zotero.Zotero`, `everything`, `collection_items`, `fulltext_item`, lines 38-39 and 43): network I/O. The fully paged listing is the input `items`, and each lookup is the function `fulltext`. That function gives the same answer for a key every time it is asked.
- Failures of the remote calls other than "resource not found" (authentication, network): these propagate out of `get_fulltext` in the source and are not modelled.
- The `@cachier()` memoization of `get_fulltext` and the `--purge` cache clear (lines 34, 59-60): a foreign persistent-cache library whose behaviour is not part of this repository.
- `run` (lines 58-70): mask loading (PIL/numpy), WordCloud rendering and writing the image file are image libraries and file I/O.
- The argparse command line (lines 72-88): user-interface plumbing.
