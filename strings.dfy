/**
  The parts of Go's `strings` package that word_search.go relies on:
  `Index`, `Split`, `Cut` and `Trim`, over strings modelled as `seq<char>`.
  `Join` is the inverse of `Split` and serves as its partner.
 */
module GoStrings {

  /** `sep` occurs in `s` starting at position `i`. */
  predicate OccursAt(s: string, sep: string, i: int)
  {
    0 <= i && i + |sep| <= |s| && s[i..i + |sep|] == sep
  }

  /** `sep` occurs nowhere in `s`. */
  predicate NoOccurrence(s: string, sep: string)
  {
    forall j | 0 <= j <= |s| :: !OccursAt(s, sep, j)
  }

  /** The leftmost occurrence of `sep` in `s` starts at `i`. */
  predicate FirstAt(s: string, sep: string, i: int)
  {
    OccursAt(s, sep, i) && forall j :: 0 <= j < i ==> !OccursAt(s, sep, j)
  }

  /** strings.Index: position of the first occurrence of `sep`, or -1. */
  function Index(s: string, sep: string): (r: int)
    ensures r == -1 || (0 <= r && r + |sep| <= |s|)
    decreases |s|
  {
    if |s| < |sep| then -1
    else if s[..|sep|] == sep then 0
    else
      var k := Index(s[1..], sep);
      if k < 0 then -1 else k + 1
  }

  /** `Index` finds the first occurrence, and reports -1 exactly when there is none. */
  lemma {:induction false} IndexFirst(s: string, sep: string)
    ensures Index(s, sep) == -1 || FirstAt(s, sep, Index(s, sep))
    ensures Index(s, sep) == -1 <==> NoOccurrence(s, sep)
    decreases |s|
  {
    if |s| < |sep| {
    } else if s[..|sep|] == sep {
      assert OccursAt(s, sep, 0);
    } else {
      IndexFirst(s[1..], sep);
      OccursShift(s, sep);
      assert !OccursAt(s, sep, 0);
      if Index(s[1..], sep) >= 0 {
        forall j | 0 <= j < Index(s, sep) ensures !OccursAt(s, sep, j) {
          if j >= 1 {
            assert !OccursAt(s[1..], sep, j - 1);
          }
        }
      } else {
        forall j | 0 <= j <= |s| ensures !OccursAt(s, sep, j) {
          if j >= 1 {
            assert !OccursAt(s[1..], sep, j - 1);
          }
        }
      }
    }
  }

  /** Occurrences in `s` after its first character are those in `s[1..]`. */
  lemma OccursShift(s: string, sep: string)
    requires |s| >= 1
    ensures forall j :: 1 <= j ==> OccursAt(s, sep, j) == OccursAt(s[1..], sep, j - 1)
  {
    forall j | 1 <= j ensures OccursAt(s, sep, j) == OccursAt(s[1..], sep, j - 1) {
      if j + |sep| <= |s| {
        SliceOfTail(s, j, j + |sep|);
      }
    }
  }

  lemma SliceOfTail(s: string, lo: int, hi: int)
    requires 1 <= lo <= hi <= |s|
    ensures s[1..][lo - 1..hi - 1] == s[lo..hi]
  {
    forall k | 0 <= k < hi - lo ensures s[1..][lo - 1..hi - 1][k] == s[lo..hi][k] {
      assert s[1..][lo - 1..hi - 1][k] == s[1..][lo - 1 + k] == s[lo + k];
    }
  }

  /** The occurrence-free prefix of `s` that ends where `sep` first starts. */
  lemma PrefixBeforeFirst(s: string, sep: string, i: int)
    requires sep != "" && FirstAt(s, sep, i)
    ensures NoOccurrence(s[..i], sep)
  {
    forall j | 0 <= j <= i ensures !OccursAt(s[..i], sep, j) {
      if j + |sep| <= i {
        assert s[..i][j..j + |sep|] == s[j..j + |sep|];
        assert !OccursAt(s, sep, j);
      }
    }
  }

  /** A single-character separator occurs exactly where that character does. */
  lemma NoOccurrenceChar(s: string, c: char)
    ensures NoOccurrence(s, [c]) <==> c !in s
  {
    if c in s {
      var i :| 0 <= i < |s| && s[i] == c;
      assert s[i..i + 1] == [c];
      assert OccursAt(s, [c], i);
    } else {
      forall j | 0 <= j <= |s| ensures !OccursAt(s, [c], j) {
        if j + 1 <= |s| {
          assert s[j..j + 1] == [s[j]];
        }
      }
    }
  }

  /** strings.Split with a non-empty separator: the pieces between the
      successive leftmost non-overlapping occurrences of `sep`. */
  function Split(s: string, sep: string): (r: seq<string>)
    requires sep != ""
    ensures |r| >= 1
    decreases |s|
  {
    var i := Index(s, sep);
    if i < 0 then [s]
    else [s[..i]] + Split(s[i + |sep|..], sep)
  }

  /** No piece of a split contains the separator. */
  lemma {:induction false} SplitPiecesFree(s: string, sep: string)
    requires sep != ""
    ensures forall k :: 0 <= k < |Split(s, sep)| ==> NoOccurrence(Split(s, sep)[k], sep)
    decreases |s|
  {
    var i := Index(s, sep);
    IndexFirst(s, sep);
    if i >= 0 {
      PrefixBeforeFirst(s, sep, i);
      SplitPiecesFree(s[i + |sep|..], sep);
    }
  }

  /** strings.Join: the pieces with `sep` between consecutive ones. */
  function Join(pieces: seq<string>, sep: string): string
  {
    if pieces == [] then ""
    else if |pieces| == 1 then pieces[0]
    else pieces[0] + sep + Join(pieces[1..], sep)
  }

  /** Joining with one more piece at the end. */
  lemma {:induction false} JoinSnoc(pieces: seq<string>, sep: string, last: string)
    requires pieces != []
    ensures Join(pieces + [last], sep) == Join(pieces, sep) + sep + last
  {
    if |pieces| > 1 {
      assert (pieces + [last])[1..] == pieces[1..] + [last];
      JoinSnoc(pieces[1..], sep, last);
    }
  }

  /** Joining the pieces of a split with the same separator rebuilds the input. */
  lemma {:induction false} JoinSplit(s: string, sep: string)
    requires sep != ""
    ensures Join(Split(s, sep), sep) == s
    decreases |s|
  {
    var i := Index(s, sep);
    IndexFirst(s, sep);
    if i >= 0 {
      var rest := s[i + |sep|..];
      var pieces := Split(rest, sep);
      JoinSplit(rest, sep);
      assert Split(s, sep) == [s[..i]] + pieces;
      assert ([s[..i]] + pieces)[1..] == pieces;
      assert Join([s[..i]] + pieces, sep) == s[..i] + sep + Join(pieces, sep);
      assert s[i..i + |sep|] == sep;
      assert s == s[..i] + sep + rest;
    }
  }

  /** Split of a text that does not contain the separator is that text alone. */
  lemma SplitNone(s: string, sep: string)
    requires sep != "" && NoOccurrence(s, sep)
    ensures Split(s, sep) == [s]
  {
    IndexFirst(s, sep);
  }

  /** If `sep` first occurs right after `p`, the first piece of the split is `p`
      and the rest is the split of what follows that occurrence. */
  lemma SplitAtFirst(p: string, sep: string, q: string)
    requires sep != "" && FirstAt(p + sep, sep, |p|)
    ensures Split(p + sep + q, sep) == [p] + Split(q, sep)
  {
    IndexAtFirst(p, sep, q);
    var s := p + sep + q;
    assert s[..|p|] == p;
    assert s[|p| + |sep|..] == q;
  }

  /** An occurrence found first in `p + sep` is also the first in any extension. */
  lemma IndexAtFirst(p: string, sep: string, q: string)
    requires FirstAt(p + sep, sep, |p|)
    ensures Index(p + sep + q, sep) == |p|
  {
    FirstExtends(p + sep, q, sep, |p|);
  }

  /** Every occurrence of `sep` in `a + c` ends within `a`. */
  ghost predicate EndsWithin(a: string, c: string, sep: string)
  {
    forall j :: OccursAt(a + c, sep, j) ==> j + |sep| <= |a|
  }

  /** When every occurrence of `sep` in `a + c` ends within `a`, appending `c`
      only lengthens the last piece of the split of `a`. */
  lemma {:induction false} SplitExtend(a: string, c: string, sep: string)
    requires sep != "" && EndsWithin(a, c, sep)
    ensures |Split(a + c, sep)| == |Split(a, sep)|
    ensures Split(a + c, sep) == Split(a, sep)[..|Split(a, sep)| - 1] + [Split(a, sep)[|Split(a, sep)| - 1] + c]
    decreases |a|
  {
    var i := Index(a, sep);
    if i < 0 {
      SplitExtendNone(a, c, sep);
    } else {
      var rest := a[i + |sep|..];
      SplitExtendStep(a, c, sep, i);
      EndsWithinRest(a, c, sep, i);
      SplitExtend(rest, c, sep);
      var pr := Split(rest, sep);
      assert ([a[..i]] + pr)[..|pr|] == [a[..i]] + pr[..|pr| - 1];
    }
  }

  lemma SplitExtendNone(a: string, c: string, sep: string)
    requires sep != "" && EndsWithin(a, c, sep) && Index(a, sep) < 0
    ensures Split(a + c, sep) == [a + c] && Split(a, sep) == [a]
  {
    IndexFirst(a, sep);
    forall j | 0 <= j <= |a + c| ensures !OccursAt(a + c, sep, j) {
      if j + |sep| <= |a| {
        assert (a + c)[j..j + |sep|] == a[j..j + |sep|];
        assert !OccursAt(a, sep, j);
      }
    }
    IndexFirst(a + c, sep);
  }

  lemma SplitExtendStep(a: string, c: string, sep: string, i: int)
    requires sep != "" && Index(a, sep) == i >= 0
    ensures Split(a, sep) == [a[..i]] + Split(a[i + |sep|..], sep)
    ensures Split(a + c, sep) == [a[..i]] + Split(a[i + |sep|..] + c, sep)
  {
    IndexFirst(a, sep);
    FirstExtends(a, c, sep, i);
    SplitUnfold(a, sep, i);
    SplitUnfold(a + c, sep, i);
    assert (a + c)[i + |sep|..] == a[i + |sep|..] + c;
    assert (a + c)[..i] == a[..i];
  }

  lemma {:induction false} SplitUnfold(s: string, sep: string, i: int)
    requires sep != "" && Index(s, sep) == i >= 0
    ensures Split(s, sep) == [s[..i]] + Split(s[i + |sep|..], sep)
  {
    assert !(i < 0);
  }

  lemma EndsWithinRest(a: string, c: string, sep: string, i: int)
    requires EndsWithin(a, c, sep) && 0 <= i && i + |sep| <= |a|
    ensures EndsWithin(a[i + |sep|..], c, sep)
  {
    var rest := a[i + |sep|..];
    forall j | OccursAt(rest + c, sep, j) ensures j + |sep| <= |rest| {
      var k := i + |sep| + j;
      assert (a + c)[k..k + |sep|] == (rest + c)[j..j + |sep|];
      assert OccursAt(a + c, sep, k);
    }
  }

  /** A text without the character `c` contains no separator that has `c` in it. */
  lemma NoOccurrenceOfCharFree(s: string, sep: string, c: char)
    requires c !in s && c in sep
    ensures NoOccurrence(s, sep)
  {
    var k :| 0 <= k < |sep| && sep[k] == c;
    forall j | 0 <= j <= |s| ensures !OccursAt(s, sep, j) {
      if j + |sep| <= |s| {
        assert s[j..j + |sep|][k] == s[j + k];
      }
    }
  }

  /** `s` with every `c` replaced by `d`. */
  function ReplaceChar(s: string, c: char, d: char): (r: string)
  {
    seq(|s|, i requires 0 <= i < |s| => if s[i] == c then d else s[i])
  }

  /** Replacing the separator character inside a join is joining with the replacement. */
  lemma {:induction false} ReplaceInJoin(pieces: seq<string>, c: char, d: char)
    requires forall k :: 0 <= k < |pieces| ==> c !in pieces[k]
    ensures ReplaceChar(Join(pieces, [c]), c, d) == Join(pieces, [d])
  {
    if |pieces| > 1 {
      ReplaceInJoin(pieces[1..], c, d);
      var p, rest := pieces[0], Join(pieces[1..], [c]);
      assert ReplaceChar(p + [c] + rest, c, d) == p + [d] + ReplaceChar(rest, c, d);
    } else if |pieces| == 1 {
      assert ReplaceChar(pieces[0], c, d) == pieces[0];
    }
  }

  /** The number of times `c` occurs in `s`. */
  function CountChar(s: string, c: char): (n: nat)
    ensures n <= |s|
    ensures n == 0 <==> c !in s
  {
    if s == [] then 0
    else (if s[0] == c then 1 else 0) + CountChar(s[1..], c)
  }

  lemma {:induction false} CountCharAppend(x: string, y: string, c: char)
    ensures CountChar(x + y, c) == CountChar(x, c) + CountChar(y, c)
  {
    if x != [] {
      assert (x + y)[1..] == x[1..] + y;
      CountCharAppend(x[1..], y, c);
    } else {
      assert x + y == y;
    }
  }

  /** Splitting on a single character gives one piece more than the number of
      times that character occurs. */
  lemma {:induction false} SplitCharCount(s: string, c: char)
    ensures |Split(s, [c])| == CountChar(s, c) + 1
    decreases |s|
  {
    var i := Index(s, [c]);
    IndexFirst(s, [c]);
    if i < 0 {
      NoOccurrenceChar(s, c);
    } else {
      SplitCharCount(s[i + 1..], c);
      SplitUnfold(s, [c], i);
      PrefixBeforeFirst(s, [c], i);
      NoOccurrenceChar(s[..i], c);
      CountCharAtFirst(s, c, i);
    }
  }

  lemma CountCharAtFirst(s: string, c: char, i: int)
    requires OccursAt(s, [c], i) && c !in s[..i]
    ensures CountChar(s, c) == 1 + CountChar(s[i + 1..], c)
  {
    var rest := s[i + 1..];
    assert s[i..i + 1] == [c];
    assert s == s[..i] + [c] + rest;
    CountCharAppend(s[..i] + [c], rest, c);
    CountCharAppend(s[..i], [c], c);
  }

  /** strings.Cut, first result: the text before the first occurrence of `sep`,
      or all of `s` when there is none. */
  function Cut(s: string, sep: string): (before: string)
    requires sep != ""
    ensures |before| <= |s| && before == s[..|before|]
  {
    var i := Index(s, sep);
    if i < 0 then s else s[..i]
  }

  /** The cut is the whole text when `sep` is absent; otherwise `sep` first
      occurs right where the cut ends. The cut itself never contains `sep`. */
  lemma CutSpec(s: string, sep: string)
    requires sep != ""
    ensures NoOccurrence(s, sep) ==> Cut(s, sep) == s
    ensures !NoOccurrence(s, sep) ==> FirstAt(s, sep, |Cut(s, sep)|)
    ensures NoOccurrence(Cut(s, sep), sep)
  {
    var i := Index(s, sep);
    IndexFirst(s, sep);
    if i >= 0 {
      PrefixBeforeFirst(s, sep, i);
    }
  }

  /** If `sep` first occurs right after `p`, the cut keeps exactly `p`. */
  lemma CutAtFirst(p: string, sep: string, q: string)
    requires sep != "" && FirstAt(p + sep, sep, |p|)
    ensures Cut(p + sep + q, sep) == p
  {
    IndexAtFirst(p, sep, q);
    assert (p + sep + q)[..|p|] == p;
  }

  /** A tag whose first character does not recur inside it has no occurrence
      that starts inside `x` and runs into the tag placed after `x`. */
  lemma NoStraddle(x: string, t: string, b: string, j: int)
    requires t != "" && t[0] !in t[1..]
    requires 0 <= j < |x| < j + |t|
    ensures !OccursAt(x + t + b, t, j)
  {
    var s := x + t + b;
    assert s[|x|] == t[0];
    assert t[|x| - j] == t[1..][|x| - j - 1];
    assert s[j..j + |t|][|x| - j] == s[|x|];
  }

  /** When `x` has no occurrence of such a tag, the tag placed after `x` is
      the first one. */
  lemma TagFirstAfter(x: string, t: string)
    requires t != "" && t[0] !in t[1..] && NoOccurrence(x, t)
    ensures FirstAt(x + t, t, |x|)
  {
    forall j | 0 <= j < |x| ensures !OccursAt(x + t, t, j) {
      if j + |t| <= |x| {
        assert (x + t)[j..j + |t|] == x[j..j + |t|];
        assert !OccursAt(x, t, j);
      } else {
        NoStraddle(x, t, [], j);
        assert x + t + [] == x + t;
      }
    }
    assert (x + t)[|x|..|x| + |t|] == t;
  }

  /** Appending such a tag and anything after it leaves the cut of `x` unchanged. */
  lemma CutBeforeTag(x: string, t: string, b: string)
    requires t != "" && t[0] !in t[1..]
    ensures Cut(x + t + b, t) == Cut(x, t)
  {
    var i := Index(x, t);
    IndexFirst(x, t);
    if i < 0 {
      TagFirstAfter(x, t);
      CutAtFirst(x, t, b);
    } else {
      FirstExtends(x, t + b, t, i);
      assert x + t + b == x + (t + b);
      assert (x + (t + b))[..i] == x[..i];
    }
  }

  /** The first occurrence in `x` stays first in any extension of `x`. */
  lemma FirstExtends(x: string, y: string, t: string, i: int)
    requires FirstAt(x, t, i)
    ensures Index(x + y, t) == i
  {
    var s := x + y;
    IndexFirst(s, t);
    assert s[i..i + |t|] == x[i..i + |t|];
    assert OccursAt(s, t, i);
    var r := Index(s, t);
    if r != i {
      assert 0 <= r < i;
      assert s[r..r + |t|] == x[r..r + |t|];
      assert OccursAt(x, t, r);
    }
  }

  /** strings.TrimLeft: drop leading characters that are in `cutset`. */
  function TrimLeft(s: string, cutset: string): (r: string)
    ensures |r| <= |s| && r == s[|s| - |r|..]
    ensures forall k :: 0 <= k < |s| - |r| ==> s[k] in cutset
    ensures r == [] || r[0] !in cutset
  {
    if |s| > 0 && s[0] in cutset then TrimLeft(s[1..], cutset) else s
  }

  /** strings.TrimRight: drop trailing characters that are in `cutset`. */
  function TrimRight(s: string, cutset: string): (r: string)
    ensures |r| <= |s| && r == s[..|r|]
    ensures forall k :: |r| <= k < |s| ==> s[k] in cutset
    ensures r == [] || r[|r| - 1] !in cutset
  {
    if |s| > 0 && s[|s| - 1] in cutset then TrimRight(s[..|s| - 1], cutset) else s
  }

  /** `r` is `s[lo..lo + |r|]` and everything of `s` around it is in `cutset`. */
  predicate TrimmedAt(s: string, cutset: string, r: string, lo: int)
  {
    0 <= lo && lo + |r| <= |s| && s[lo..lo + |r|] == r
    && (forall k :: 0 <= k < lo ==> s[k] in cutset)
    && (forall k :: lo + |r| <= k < |s| ==> s[k] in cutset)
  }

  /** strings.Trim: drop leading and trailing characters that are in `cutset`. */
  function Trim(s: string, cutset: string): (r: string)
    ensures TrimmedAt(s, cutset, r, |s| - |TrimLeft(s, cutset)|)
    ensures r == [] || (r[0] !in cutset && r[|r| - 1] !in cutset)
  {
    var l := TrimLeft(s, cutset);
    var r := TrimRight(l, cutset);
    TrimmedBothSides(s, cutset, l, r, |s| - |l|);
    r
  }

  /** Trimming the left of `s` to `l`, then the right of `l` to `r`, leaves
      `r` inside `s` with only cutset characters around it. */
  lemma TrimmedBothSides(s: string, cutset: string, l: string, r: string, lo: int)
    requires 0 <= lo && lo + |l| == |s| && l == s[lo..]
    requires forall k :: 0 <= k < lo ==> s[k] in cutset
    requires |r| <= |l| && r == l[..|r|]
    requires forall k :: |r| <= k < |l| ==> l[k] in cutset
    requires l == [] || l[0] !in cutset
    requires r == [] || r[|r| - 1] !in cutset
    ensures TrimmedAt(s, cutset, r, lo)
    ensures r == [] || (r[0] !in cutset && r[|r| - 1] !in cutset)
  {
    assert s[lo..lo + |r|] == r;
    forall k | lo + |r| <= k < |s| ensures s[k] in cutset {
      assert s[k] == l[k - lo];
    }
  }

  /** A text that neither starts nor ends with a cutset character is its own trim. */
  lemma TrimNoEdges(s: string, cutset: string)
    requires s == [] || (s[0] !in cutset && s[|s| - 1] !in cutset)
    ensures Trim(s, cutset) == s
  {
  }

  /** Trimming twice is trimming once. */
  lemma TrimIdempotent(s: string, cutset: string)
    ensures Trim(Trim(s, cutset), cutset) == Trim(s, cutset)
  {
    TrimNoEdges(Trim(s, cutset), cutset);
  }
}
