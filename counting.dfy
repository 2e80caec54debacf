/**
  The word index built in `main` of word_search.go: the plain text is split
  on single spaces, every token is trimmed of punctuation and each non-empty
  result is counted in a map from word to number of occurrences.
 */
module Counting {
  import opened GoStrings
  import Markup

  /** The characters `strings.Trim` removes from both ends of every token. */
  const Punctuation: string := ".,:;'?!()[]{}\"-"

  /** The word a raw token stands for. */
  function Normalize(token: string): string
  {
    Trim(token, Punctuation)
  }

  /** The word every token stands for, token by token. */
  function Words(tokens: seq<string>): (r: seq<string>)
    ensures |r| == |tokens|
  {
    seq(|tokens|, i requires 0 <= i < |tokens| => Normalize(tokens[i]))
  }

  /** How many entries of `words` are `word`. */
  function Occurrences(words: seq<string>, word: string): (n: nat)
    ensures n <= |words|
  {
    if words == [] then 0
    else Occurrences(words[..|words| - 1], word) + (if words[|words| - 1] == word then 1 else 0)
  }

  /** How many entries of `words` are non-empty. */
  function NonEmptyWords(words: seq<string>): (n: nat)
    ensures n <= |words|
  {
    if words == [] then 0
    else NonEmptyWords(words[..|words| - 1]) + (if words[|words| - 1] != "" then 1 else 0)
  }

  /** `dictionary` maps exactly the non-empty entries of `words` to their
      number of occurrences. */
  ghost predicate IsIndexOf(dictionary: map<string, int>, words: seq<string>)
  {
    && (forall w :: w in dictionary <==> w != "" && Occurrences(words, w) > 0)
    && (forall w :: w in dictionary ==> dictionary[w] == Occurrences(words, w))
  }

  /** The counting loop of `main` over the tokens of the plain text. */
  method CountWords(plainText: string) returns (dictionary: map<string, int>)
    ensures IsIndexOf(dictionary, Words(Split(plainText, " ")))
    ensures forall w :: w in dictionary ==> w != "" && dictionary[w] >= 1
  {
    var words := Split(plainText, " ");
    ghost var normalized := Words(words);
    dictionary := map[];
    for i := 0 to |words|
      invariant IsIndexOf(dictionary, normalized[..i])
    {
      var word := Trim(words[i], Punctuation);
      assert normalized[..i + 1] == normalized[..i] + [word];
      ghost var before := dictionary;
      if |word| > 0 {
        dictionary := dictionary[word := (if word in dictionary then dictionary[word] else 0) + 1];
      }
      CountStep(before, dictionary, normalized[..i], word);
    }
    assert normalized[..|words|] == normalized;
  }

  /** `main` from the fetched page to the index: the page is reduced to plain
      text, which is then counted. */
  method IndexPage(htmlCode: string) returns (dictionary: map<string, int>)
    ensures IsIndexOf(dictionary, Words(Split(Markup.PlainText(htmlCode), " ")))
  {
    var plainText := Markup.GetPlainText(htmlCode);
    dictionary := CountWords(plainText);
  }

  /** Counting one more word keeps the map an index of the longer sequence. */
  lemma CountStep(before: map<string, int>, after: map<string, int>, words: seq<string>, word: string)
    requires IsIndexOf(before, words)
    requires after == if word == "" then before
                      else before[word := (if word in before then before[word] else 0) + 1]
    ensures IsIndexOf(after, words + [word])
  {
    var longer := words + [word];
    assert longer[..|longer| - 1] == words;
    forall w ensures Occurrences(longer, w) == Occurrences(words, w) + (if word == w then 1 else 0) {
    }
    forall w ensures w in after <==> w != "" && Occurrences(longer, w) > 0 {
      assert w in before <==> w != "" && Occurrences(words, w) > 0;
    }
    forall w | w in after ensures after[w] == Occurrences(longer, w) {
      if w != word {
        assert w in before;
      }
    }
  }

  /** Two maps that index the same words are the same map. */
  lemma IndexIsUnique(d1: map<string, int>, d2: map<string, int>, words: seq<string>)
    requires IsIndexOf(d1, words) && IsIndexOf(d2, words)
    ensures d1 == d2
  {
    assert d1.Keys == d2.Keys;
  }

  /** The sum of the counts of `keys` in `dictionary`, absent keys counting 0. */
  function SumCounts(dictionary: map<string, int>, keys: seq<string>): int
  {
    if keys == [] then 0
    else (if keys[0] in dictionary then dictionary[keys[0]] else 0) + SumCounts(dictionary, keys[1..])
  }

  /** How many entries of `words` are listed in `keys`. */
  function WordsIn(words: seq<string>, keys: seq<string>): nat
  {
    if words == [] then 0
    else WordsIn(words[..|words| - 1], keys)
         + (if words[|words| - 1] in keys then 1 else 0)
  }

  lemma {:induction false} WordsInCons(words: seq<string>, k: string, keys: seq<string>)
    requires k !in keys
    ensures WordsIn(words, [k] + keys) == Occurrences(words, k) + WordsIn(words, keys)
  {
    if words != [] {
      WordsInCons(words[..|words| - 1], k, keys);
    }
  }

  lemma {:induction false} SumCountsIsWordsIn(dictionary: map<string, int>, words: seq<string>, keys: seq<string>)
    requires IsIndexOf(dictionary, words)
    requires forall i, j :: 0 <= i < j < |keys| ==> keys[i] != keys[j]
    requires forall k :: k in keys ==> k in dictionary
    ensures SumCounts(dictionary, keys) == WordsIn(words, keys)
  {
    if keys != [] {
      assert keys[0] !in keys[1..] by {
        forall j | 0 <= j < |keys[1..]| ensures keys[1..][j] != keys[0] {
          assert keys[1..][j] == keys[j + 1];
        }
      }
      assert keys[0] in keys;
      assert dictionary[keys[0]] == Occurrences(words, keys[0]);
      SumCountsIsWordsIn(dictionary, words, keys[1..]);
      assert keys == [keys[0]] + keys[1..];
      WordsInCons(words, keys[0], keys[1..]);
    } else {
      WordsInNone(words);
    }
  }

  lemma {:induction false} WordsInNone(words: seq<string>)
    ensures WordsIn(words, []) == 0
  {
    if words != [] {
      WordsInNone(words[..|words| - 1]);
    }
  }

  lemma {:induction false} WordsInAllWords(words: seq<string>, keys: seq<string>)
    requires forall i :: 0 <= i < |words| ==> (words[i] in keys <==> words[i] != "")
    ensures WordsIn(words, keys) == NonEmptyWords(words)
  {
    if words != [] {
      WordsInAllWords(words[..|words| - 1], keys);
    }
  }

  lemma {:induction false} OccursIfPresent(words: seq<string>, i: int)
    requires 0 <= i < |words|
    ensures Occurrences(words, words[i]) > 0
  {
    if i < |words| - 1 {
      OccursIfPresent(words[..|words| - 1], i);
    }
  }

  /** Listing every key of the index once and adding up the counts gives the
      number of non-empty words. */
  lemma SumOfCounts(dictionary: map<string, int>, words: seq<string>, keys: seq<string>)
    requires IsIndexOf(dictionary, words)
    requires forall i, j :: 0 <= i < j < |keys| ==> keys[i] != keys[j]
    requires forall k :: k in keys <==> k in dictionary
    ensures SumCounts(dictionary, keys) == NonEmptyWords(words)
  {
    SumCountsIsWordsIn(dictionary, words, keys);
    forall i | 0 <= i < |words|
      ensures words[i] in keys <==> words[i] != ""
    {
      OccursIfPresent(words, i);
    }
    WordsInAllWords(words, keys);
  }

  /** A token with no cutset character trims to itself. */
  lemma NormalizeWord(token: string)
    requires forall i :: 0 <= i < |token| ==> token[i] !in Punctuation
    ensures Normalize(token) == token
  {
    TrimNoEdges(token, Punctuation);
  }

  /** Normalizing a normalized word changes nothing. */
  lemma NormalizeIdempotent(token: string)
    ensures Normalize(Normalize(token)) == Normalize(token)
  {
    TrimIdempotent(token, Punctuation);
  }
}
