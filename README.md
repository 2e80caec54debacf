# word_search in Dafny

A model of the text pipeline of `word_search`, a small Go program. It downloads a
web page, strips its markup, counts how often each word occurs and answers
queries about the counts. The model covers the pipeline from the downloaded page
to the answer of one query. Each step is proved against an independent
statement of what it must produce.

- `strings.dfy` (module `GoStrings`) models the parts of Go's `strings` package
  that the program calls: `Split`, `Cut` and `Trim`, together with `Index`, the
  first-occurrence search that `Split` and `Cut` share. `Join` is included as
  the inverse of `Split`. Strings are `seq<char>`. `Index`, `Split` and `Cut`
  carry only their length facts; what they find is stated in partner lemmas
  (`IndexFirst`, `SplitPiecesFree`, `CutSpec`).
- `markup.dfy` (module `Markup`) models `removeHtmlTag`, `removeCss`,
  `removeJavaScript` and `getPlainText`. The Go code builds its result in a
  `strings.Builder` inside a loop. Here each of those loops is a method that
  extends a string variable. Each method is proved equal to a specification
  function (`StripBlocks`, `PlainText`), and the lemmas are stated about those
  functions.
- `counting.dfy` (module `Counting`) models the tokenise-and-count loop of
  `main`. The loop is a method that updates a `map<string, int>`. It is proved
  to produce exactly the index `IsIndexOf` describes: every non-empty
  punctuation-trimmed word, mapped to its number of occurrences.
- `listing.dfy` (module `Listing`) models the query side:
  - the single-word lookup. `Lookup` is Go's map read, which gives 0 for an
    absent key and inserts nothing.
  - the `-all` listing. The keys are copied into an array in any order
    (`CollectKeys`) and then sorted in place by count (`SortByCount`). The sort
    uses `ByCount`'s `Len`, `Less` and `Swap`, written as `Len`, `Less` and
    `Swap`.
  - `Respond`, the answer to one command, returned as a list of lines.

The sort comparator reads the index as a parameter. The source reads it from a
package-level variable instead.

Where the prose description of the program and the code differ, the model
follows the code:
- `getPlainText` appends a space after every `>`-separated fragment, the last
  one included. Its output therefore always ends with a space, and even
  markup-free text gets that trailing space.
- An end tag with no start tag before it in its segment is not left in place.
  The end tag literal itself disappears, because the document is split on it.
  The text of its segment is kept whole.

## Model

| member | source | states |
|---|---|---|
| GoStrings.IndexFirst | word_search.go:31-34 | The search behind `Split` and `Cut` finds the first occurrence of the separator, and reports none exactly when the separator does not occur |
| GoStrings.SplitPiecesFree | word_search.go:31 | No piece of a split on a non-empty separator contains the separator |
| GoStrings.JoinSplit | word_search.go:31 | Joining the pieces of a split with the same separator gives back the input |
| GoStrings.SplitCharCount | word_search.go:45 | Splitting on one character gives exactly one piece more than the number of occurrences of that character |
| GoStrings.CutSpec | word_search.go:34 | The result is a prefix of the input that does not contain the separator. It is the whole input when the separator is absent; otherwise the first occurrence starts right where the result ends |
| GoStrings.Trim | word_search.go:84 | The result is a contiguous part of the input whose surrounding characters all belong to the cutset. When non-empty, it neither starts nor ends with a cutset character |
| GoStrings.TrimIdempotent | word_search.go:84 | Trimming an already trimmed token changes nothing |
| Markup.RemoveHtmlTag | word_search.go:29-39 | The builder loop returns the document split on the end tag, with each segment cut before its first start tag and the survivors concatenated in order |
| Markup.RemoveCss | word_search.go:21-23 | Removes `<style` ... `</style>` blocks by that rule |
| Markup.RemoveJavaScript | word_search.go:25-27 | Removes `<script` ... `</script>` blocks by that rule |
| Markup.StripBlocksUnchanged | word_search.go:29-38 | A document containing neither tag comes back unchanged |
| Markup.StripBlocksNoLonger | word_search.go:31-36 | Removal never lengthens the document |
| Markup.BlockRemoved | word_search.go:31-36 | A block from a start tag to the first end tag of the document is removed with both tags; the text before it is kept and the rest is processed on its own |
| Markup.StrayEndTagRemovedAlone | word_search.go:31-35 | An end tag whose segment has no start tag removes only the end tag literal; the segment text is kept whole |
| Markup.BlocksRemoved | word_search.go:29-39 | A document made only of blocks, each closing at the first end tag after its start tag, strips to the empty text |
| Markup.StylesOnlyAreBlank | word_search.go:41-54 | A page made only of closed style blocks, with no script tag, has the plain text `" "`: whitespace only |
| Markup.ScriptsOnlyAreBlank | word_search.go:41-54 | A page made only of closed script blocks has the plain text `" "`: whitespace only |
| Markup.UnterminatedBlockDropped | word_search.go:31-35 | A start tag with no end tag after it drops everything from that tag to the end of the document |
| Markup.SpacedFragments | word_search.go:47-51 | The builder text contains no `<`. It contains no `>` when no fragment has one, and ends with a space when there is any fragment |
| Markup.GetPlainText | word_search.go:41-54 | Removes scripts, then styles, then keeps the text before the first `<` of each `>`-separated fragment, followed by one space |
| Markup.PlainTextHasNoBrackets | word_search.go:45-53 | The plain text contains neither `<` nor `>` |
| Markup.PlainTextShape | word_search.go:45-53 | The plain text is the kept fragments joined by single spaces, plus one final space. There is one fragment per `>` plus one, so the text is never empty, always ends with a space, and is `" "` when nothing is left once scripts and styles are removed, an empty page included |
| Markup.PlainTextOfUnmarkedText | word_search.go:41-54 | Text without `<` comes back with each `>` turned into a space and one space appended; text with no angle bracket at all only gains the final space |
| Counting.CountWords | word_search.go:80-89 | After the loop, the map holds exactly the non-empty trimmed words of the space-separated tokens. Each word maps to the number of tokens that trim to it, so every key is non-empty and has count at least 1 |
| Counting.IndexPage | word_search.go:80-89 | The map built from a page indexes the space-separated tokens of that page's plain text |
| Counting.CountStep | word_search.go:83-89 | One iteration (increment the trimmed word's count if it is non-empty) turns an index of the words so far into an index of one word more |
| Counting.IndexIsUnique | word_search.go:81-89 | The index of a token sequence is unique: map iteration order cannot change it |
| Counting.SumOfCounts | word_search.go:83-89 | Summing the counts over an enumeration of the keys gives the number of non-empty trimmed words |
| Counting.NormalizeWord | word_search.go:84 | A token without punctuation characters is its own word |
| Counting.NormalizeIdempotent | word_search.go:84 | Trimming a trimmed word again leaves it unchanged |
| Listing.Lookup | word_search.go:112 | Go's map read: the stored count of a present word, 0 for an absent one; as a function it inserts nothing |
| Listing.Len | word_search.go:17 | `ByCount.Len` is the number of words in the array |
| Listing.Less | word_search.go:19 | `ByCount.Less` holds exactly when the word at `i` has a strictly smaller count than the word at `j`, an absent word counting 0 |
| Listing.Swap | word_search.go:18 | Exchanges two entries and leaves the multiset of entries unchanged |
| Listing.SortByCount | word_search.go:14-19 | Sorting with `Less`/`Swap` leaves the array ordered by non-decreasing count and a permutation of its old contents |
| Listing.CollectKeys | word_search.go:98-104 | The fresh array holds each key of the map exactly once, in any order |
| Listing.ListAll | word_search.go:98-106 | The `-all` array is a permutation of the map's keys, sorted by non-decreasing count |
| Listing.ListingHasEachKeyOnce | word_search.go:98-106 | A permutation of the keys has as many entries as the map has keys, contains exactly the keys, and repeats none |
| Listing.Respond | word_search.go:97-113 | `-all` yields every word with its count, sorted by count. Any other non-empty command yields one line with that word's count (0 when absent). An empty command yields nothing |
| Listing.LookupCounts | word_search.go:112 | Looking up a non-empty word in the index gives its number of occurrences; a word that never occurs gives 0 |
| Listing.ListingSumsToWordTokens | word_search.go:98-110 | The counts printed by `-all` add up to the number of tokens that trim to a non-empty word |
| Listing.ListingExample | word_search.go:97-110 | For the index {"a": 3, "b": 1, "c": 2}, the only listing is b, c, a |

## Left out

- Downloading the page is not modelled: the HTTP GET and the `bufio.Scanner` loop that concatenates the body's lines without newlines (word_search.go:63-78). This is network I/O; the model starts from the concatenated text.
- The check for a missing URL argument and the panics on errors are not modelled (word_search.go:57-66). This is process plumbing.
- The interactive loop is not modelled: its `fmt.Scanf` reads, the banner and the `fmt.Printf` formatting (word_search.go:91-114). This is console I/O, and the loop never ends. One iteration is modelled as `Respond`, which returns the printed lines as `Line` values.
- `sort.Sort`'s own algorithm is not modelled. It is replaced by an insertion sort that uses the same `Less` and `Swap`. The order of words with equal counts is not specified, in the model as in the source.
- Go's map iteration order is not modelled. `CollectKeys` picks the next key with a non-deterministic choice.
- Byte and UTF-8 detail of Go strings is not modelled: strings are sequences of characters. The cutset and all tag literals are ASCII.
- GoStrings.Split and GoStrings.Cut require a non-empty separator. Go also defines both for the empty separator, but the program never passes one: its separators are the literals `</script>`, `</style>`, `<script`, `<style`, `>`, `<` and a single space.
- Markup.UnterminatedBlockDropped requires that the start tag's first character does not recur later in the tag. Both `<style` and `<script` meet this. For a tag that could overlap itself, the source can drop slightly more, and the lemma does not cover that case.
