/**
  The queries answered by word_search.go once the index is built: a lookup
  of one word, and the `-all` listing, which copies the keys of the index
  into an array and sorts it by count through the `ByCount` sort interface.
  The comparator receives the index as a parameter instead of reading a
  package-level variable.
 */
module Listing {
  import opened Counting

  /** Go's `dictionary[word]`: the stored count, or 0 for an absent word.
      Reading never inserts. */
  function Lookup(dictionary: map<string, int>, word: string): (count: int)
    ensures word in dictionary ==> count == dictionary[word]
    ensures word !in dictionary ==> count == 0
  {
    if word in dictionary then dictionary[word] else 0
  }

  /** `ByCount.Len`: the number of words in the array. */
  function Len(w: array<string>): (n: int)
    reads w
    ensures n == |w[..]|
  {
    w.Length
  }

  /** `ByCount.Less`: the word at `i` has the smaller count. */
  function Less(dictionary: map<string, int>, w: array<string>, i: int, j: int): (less: bool)
    reads w
    requires 0 <= i < w.Length && 0 <= j < w.Length
    ensures w[i] in dictionary && w[j] in dictionary ==> (less <==> dictionary[w[i]] < dictionary[w[j]])
    ensures w[i] !in dictionary && w[j] in dictionary ==> (less <==> 0 < dictionary[w[j]])
    ensures w[i] in dictionary && w[j] !in dictionary ==> (less <==> dictionary[w[i]] < 0)
    ensures w[i] !in dictionary && w[j] !in dictionary ==> !less
  {
    Lookup(dictionary, w[i]) < Lookup(dictionary, w[j])
  }

  /** `ByCount.Swap`. */
  method Swap(w: array<string>, i: int, j: int)
    requires 0 <= i < w.Length && 0 <= j < w.Length
    modifies w
    ensures w[..] == old(w[..])[i := old(w[j])][j := old(w[i])]
    ensures multiset(w[..]) == old(multiset(w[..]))
  {
    w[i], w[j] := w[j], w[i];
  }

  /** The first `n` words of `s` are in non-decreasing order of count. */
  ghost predicate SortedUpTo(dictionary: map<string, int>, s: seq<string>, n: int)
    requires n <= |s|
  {
    forall p, q :: 0 <= p < q < n ==> Lookup(dictionary, s[p]) <= Lookup(dictionary, s[q])
  }

  /** `s` holds every key of `dictionary` exactly once, in non-decreasing
      order of count: what the `-all` command prints. */
  ghost predicate IsListing(dictionary: map<string, int>, s: seq<string>)
  {
    multiset(s) == multiset(dictionary.Keys) && SortedUpTo(dictionary, s, |s|)
  }

  /** `sort.Sort(ByCount(foundWords))`, as an insertion sort built from
      `Less` and `Swap`. Words of equal count may end up in any order. */
  method SortByCount(w: array<string>, dictionary: map<string, int>)
    modifies w
    ensures SortedUpTo(dictionary, w[..], w.Length)
    ensures multiset(w[..]) == old(multiset(w[..]))
  {
    for i := 0 to Len(w)
      invariant SortedUpTo(dictionary, w[..], i)
      invariant multiset(w[..]) == old(multiset(w[..]))
    {
      var j := i;
      while j > 0 && Less(dictionary, w, j, j - 1)
        invariant 0 <= j <= i
        invariant multiset(w[..]) == old(multiset(w[..]))
        invariant forall p, q :: 0 <= p < q <= i && p != j && q != j ==>
                    Lookup(dictionary, w[p]) <= Lookup(dictionary, w[q])
        invariant forall q :: j < q <= i ==> Lookup(dictionary, w[j]) < Lookup(dictionary, w[q])
        decreases j
      {
        Swap(w, j - 1, j);
        j := j - 1;
      }
    }
  }

  /** The `for word := range dictionary` loop that fills `foundWords`; the
      map hands out its keys in no particular order. */
  method CollectKeys(dictionary: map<string, int>) returns (foundWords: array<string>)
    ensures fresh(foundWords)
    ensures multiset(foundWords[..]) == multiset(dictionary.Keys)
  {
    foundWords := new string[|dictionary|];
    var i := 0;
    var rest := dictionary.Keys;
    while rest != {}
      invariant rest <= dictionary.Keys
      invariant i + |rest| == foundWords.Length
      invariant multiset(foundWords[..i]) + multiset(rest) == multiset(dictionary.Keys)
      decreases rest
    {
      var word :| word in rest;
      foundWords[i] := word;
      assert foundWords[..i + 1] == foundWords[..i] + [word];
      assert multiset(rest - {word}) + multiset{word} == multiset(rest);
      i := i + 1;
      rest := rest - {word};
    }
    assert foundWords[..i] == foundWords[..];
  }

  /** The `-all` command: every word of the index once, sorted by count. */
  method ListAll(dictionary: map<string, int>) returns (foundWords: array<string>)
    ensures IsListing(dictionary, foundWords[..])
  {
    foundWords := CollectKeys(dictionary);
    SortByCount(foundWords, dictionary);
  }

  /** A listing names every key once and nothing else. */
  lemma ListingHasEachKeyOnce(dictionary: map<string, int>, s: seq<string>)
    requires multiset(s) == multiset(dictionary.Keys)
    ensures |s| == |dictionary|
    ensures forall k :: k in s <==> k in dictionary
    ensures forall i, j :: 0 <= i < j < |s| ==> s[i] != s[j]
  {
    assert |multiset(s)| == |s|;
    forall k ensures k in s <==> k in dictionary {
      assert k in s <==> k in multiset(s);
    }
    forall i, j | 0 <= i < j < |s| ensures s[i] != s[j] {
      RepeatCountsTwice(s, i, j);
    }
  }

  lemma RepeatCountsTwice(s: seq<string>, i: int, j: int)
    requires 0 <= i < j < |s|
    ensures s[i] == s[j] ==> multiset(s)[s[i]] >= 2
  {
    assert s == s[..i] + [s[i]] + s[i + 1..j] + [s[j]] + s[j + 1..];
  }

  /** One printed line: `"<word>" was found <count> time(s)`. */
  datatype Line = Line(word: string, count: int)

  /** The response to one command of the query loop. */
  method Respond(dictionary: map<string, int>, command: string) returns (lines: seq<Line>)
    ensures command == "-all" ==>
      && IsListing(dictionary, seq(|lines|, i requires 0 <= i < |lines| => lines[i].word))
      && forall i :: 0 <= i < |lines| ==> lines[i].count == Lookup(dictionary, lines[i].word)
    ensures command != "-all" && command != "" ==> lines == [Line(command, Lookup(dictionary, command))]
    ensures command == "" ==> lines == []
  {
    lines := [];
    if command == "-all" {
      var foundWords := ListAll(dictionary);
      for i := 0 to foundWords.Length
        invariant |lines| == i
        invariant forall k :: 0 <= k < i ==> lines[k] == Line(foundWords[k], Lookup(dictionary, foundWords[k]))
      {
        lines := lines + [Line(foundWords[i], Lookup(dictionary, foundWords[i]))];
      }
      assert seq(|lines|, i requires 0 <= i < |lines| => lines[i].word) == foundWords[..];
    } else if |command| > 0 {
      lines := [Line(command, Lookup(dictionary, command))];
    }
  }

  /** Looking up a word in the index of a text gives its number of occurrences
      in that text; a word that does not occur gets 0. */
  lemma LookupCounts(dictionary: map<string, int>, words: seq<string>, word: string)
    requires IsIndexOf(dictionary, words) && word != ""
    ensures Lookup(dictionary, word) == Occurrences(words, word)
    ensures Occurrences(words, word) == 0 ==> Lookup(dictionary, word) == 0
  {
  }

  /** Adding up the counts printed by `-all` gives the number of tokens of the
      text that trim to a non-empty word. */
  lemma ListingSumsToWordTokens(dictionary: map<string, int>, words: seq<string>, s: seq<string>)
    requires IsIndexOf(dictionary, words) && IsListing(dictionary, s)
    ensures SumCounts(dictionary, s) == NonEmptyWords(words)
  {
    ListingHasEachKeyOnce(dictionary, s);
    SumOfCounts(dictionary, words, s);
  }

  /** The listing of the index {"a": 3, "b": 1, "c": 2}. */
  lemma ListingExample(s: seq<string>)
    requires IsListing(map["a" := 3, "b" := 1, "c" := 2], s)
    ensures s == ["b", "c", "a"]
  {
    var d := map["a" := 3, "b" := 1, "c" := 2];
    ListingHasEachKeyOnce(d, s);
    assert |s| == 3;
    assert forall i :: 0 <= i < 3 ==> s[i] in d;
    assert Lookup(d, s[0]) <= Lookup(d, s[1]) <= Lookup(d, s[2]);
  }
}
