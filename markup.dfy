/**
  Markup stripping in word_search.go: removal of delimited blocks
  (`removeHtmlTag`, with its wrappers `removeCss` and `removeJavaScript`) and
  the reduction of the remaining markup to space-separated text
  (`getPlainText`). The string builders of the source become string
  variables that the loops extend; each method is proved equal to a
  specification function, and the properties are proved about those.
 */
module Markup {
  import opened GoStrings

  const ScriptStart: string := "<script"
  const ScriptEnd: string := "</script>"
  const StyleStart: string := "<style"
  const StyleEnd: string := "</style>"

  /** The strings of `parts` concatenated in order. */
  function Concat(parts: seq<string>): string
  {
    if parts == [] then ""
    else Concat(parts[..|parts| - 1]) + parts[|parts| - 1]
  }

  /** Every segment cut before its first `startTag`. */
  function Cuts(segments: seq<string>, startTag: string): (r: seq<string>)
    requires startTag != ""
    ensures |r| == |segments|
  {
    seq(|segments|, k requires 0 <= k < |segments| => Cut(segments[k], startTag))
  }

  /** The segments, each cut before its first `startTag`, concatenated in order. */
  function CutPrefixes(segments: seq<string>, startTag: string): string
    requires startTag != ""
  {
    Concat(Cuts(segments, startTag))
  }

  /** What `removeHtmlTag` computes: the document split on `endTag`, every
      segment truncated before its first `startTag`, the survivors concatenated. */
  function StripBlocks(html: string, startTag: string, endTag: string): string
    requires startTag != "" && endTag != ""
  {
    CutPrefixes(Split(html, endTag), startTag)
  }

  method RemoveHtmlTag(htmlCode: string, startTag: string, endTag: string) returns (r: string)
    requires startTag != "" && endTag != ""
    ensures r == StripBlocks(htmlCode, startTag, endTag)
  {
    var newHtmlCode := "";
    var stringArray := Split(htmlCode, endTag);
    ghost var kept := Cuts(stringArray, startTag);
    for i := 0 to |stringArray|
      invariant newHtmlCode == Concat(kept[..i])
    {
      assert kept[..i + 1][..i] == kept[..i];
      var substring := Cut(stringArray[i], startTag);
      newHtmlCode := newHtmlCode + substring;
    }
    assert kept[..|stringArray|] == kept;
    r := newHtmlCode;
  }

  method RemoveCss(htmlCode: string) returns (r: string)
    ensures r == StripBlocks(htmlCode, StyleStart, StyleEnd)
  {
    r := RemoveHtmlTag(htmlCode, StyleStart, StyleEnd);
  }

  method RemoveJavaScript(htmlCode: string) returns (r: string)
    ensures r == StripBlocks(htmlCode, ScriptStart, ScriptEnd)
  {
    r := RemoveHtmlTag(htmlCode, ScriptStart, ScriptEnd);
  }

  lemma {:induction false} ConcatAppend(xs: seq<string>, ys: seq<string>)
    ensures Concat(xs + ys) == Concat(xs) + Concat(ys)
    decreases |ys|
  {
    if ys == [] {
      assert xs + ys == xs;
    } else {
      var init := ys[..|ys| - 1];
      var zs := xs + ys;
      assert zs[..|zs| - 1] == xs + init;
      ConcatAppend(xs, init);
    }
  }

  lemma CutPrefixesAppend(xs: seq<string>, ys: seq<string>, startTag: string)
    requires startTag != ""
    ensures CutPrefixes(xs + ys, startTag) == CutPrefixes(xs, startTag) + CutPrefixes(ys, startTag)
  {
    var l, r := Cuts(xs, startTag), Cuts(ys, startTag);
    forall k | 0 <= k < |xs + ys| ensures Cuts(xs + ys, startTag)[k] == (l + r)[k] {
      if k < |xs| {
        assert (xs + ys)[k] == xs[k];
      } else {
        assert (xs + ys)[k] == ys[k - |xs|];
      }
    }
    assert Cuts(xs + ys, startTag) == l + r;
    ConcatAppend(Cuts(xs, startTag), Cuts(ys, startTag));
  }

  /** A document with neither tag in it comes out unchanged. */
  lemma StripBlocksUnchanged(html: string, startTag: string, endTag: string)
    requires startTag != "" && endTag != ""
    requires NoOccurrence(html, startTag) && NoOccurrence(html, endTag)
    ensures StripBlocks(html, startTag, endTag) == html
  {
    SplitNone(html, endTag);
    CutPrefixesOne(html, startTag);
    CutSpec(html, startTag);
  }

  lemma CutPrefixesOne(segment: string, startTag: string)
    requires startTag != ""
    ensures CutPrefixes([segment], startTag) == Cut(segment, startTag)
  {
    var c := Cut(segment, startTag);
    assert Cuts([segment], startTag) == [c];
    assert [c][..0] == [];
    assert Concat([c]) == Concat([]) + c;
  }

  /** When `endTag` first occurs right after `p`, the first segment is `p`. */
  lemma StripBlocksAtFirst(p: string, q: string, startTag: string, endTag: string)
    requires startTag != "" && endTag != ""
    requires FirstAt(p + endTag, endTag, |p|)
    ensures StripBlocks(p + endTag + q, startTag, endTag) == Cut(p, startTag) + StripBlocks(q, startTag, endTag)
  {
    SplitAtFirst(p, endTag, q);
    CutPrefixesAppend([p], Split(q, endTag), startTag);
    CutPrefixesOne(p, startTag);
  }

  lemma {:induction false} CutPrefixesNoLonger(segments: seq<string>, startTag: string, endTag: string)
    requires startTag != ""
    ensures |CutPrefixes(segments, startTag)| <= |Join(segments, endTag)|
  {
    if |segments| == 1 {
      CutPrefixesOne(segments[0], startTag);
      assert [segments[0]] == segments;
    } else if |segments| > 1 {
      CutPrefixesNoLonger(segments[1..], startTag, endTag);
      CutPrefixesAppend([segments[0]], segments[1..], startTag);
      assert [segments[0]] + segments[1..] == segments;
      CutPrefixesOne(segments[0], startTag);
    }
  }

  /** Removal never lengthens the document. */
  lemma StripBlocksNoLonger(html: string, startTag: string, endTag: string)
    requires startTag != "" && endTag != ""
    ensures |StripBlocks(html, startTag, endTag)| <= |html|
  {
    CutPrefixesNoLonger(Split(html, endTag), startTag, endTag);
    JoinSplit(html, endTag);
  }

  /** A block that opens right after `a` and closes at the first `endTag` of
      the document is removed with both its tags; `a` is kept and the rest of
      the document is processed on its own. */
  lemma BlockRemoved(a: string, x: string, y: string, startTag: string, endTag: string)
    requires startTag != "" && endTag != ""
    requires FirstAt(a + startTag, startTag, |a|)
    requires FirstAt(a + startTag + x + endTag, endTag, |a + startTag + x|)
    ensures StripBlocks(a + startTag + x + endTag + y, startTag, endTag)
         == a + StripBlocks(y, startTag, endTag)
  {
    StripBlocksAtFirst(a + startTag + x, y, startTag, endTag);
    CutAtFirst(a, startTag, x);
  }

  /** An `endTag` whose segment holds no `startTag` removes only the `endTag`
      literal: the segment before it is kept whole. */
  lemma StrayEndTagRemovedAlone(a: string, b: string, startTag: string, endTag: string)
    requires startTag != "" && endTag != ""
    requires FirstAt(a + endTag, endTag, |a|)
    requires NoOccurrence(a, startTag)
    ensures StripBlocks(a + endTag + b, startTag, endTag) == a + StripBlocks(b, startTag, endTag)
  {
    StripBlocksAtFirst(a, b, startTag, endTag);
    CutSpec(a, startTag);
  }

  /** A `startTag` with no `endTag` after it drops everything from that tag
      to the end of the document. The tag must not be able to overlap itself
      from its second character on, which holds for "<style" and "<script". */
  lemma UnterminatedBlockDropped(a: string, b: string, startTag: string, endTag: string)
    requires startTag != "" && endTag != "" && startTag[0] !in startTag[1..]
    requires forall j :: OccursAt(a + startTag + b, endTag, j) ==> j + |endTag| <= |a|
    ensures StripBlocks(a + startTag + b, startTag, endTag) == StripBlocks(a, startTag, endTag)
  {
    var c := startTag + b;
    assert a + startTag + b == a + c;
    SplitExtend(a, c, endTag);
    var pa := Split(a, endTag);
    var init, last := pa[..|pa| - 1], pa[|pa| - 1];
    assert pa == init + [last];
    assert Split(a + c, endTag) == init + [last + c];
    CutPrefixesAppend(init, [last + c], startTag);
    CutPrefixesAppend(init, [last], startTag);
    CutPrefixesOne(last + c, startTag);
    CutPrefixesOne(last, startTag);
    assert last + c == last + startTag + b;
    CutBeforeTag(last, startTag, b);
  }

  /** The text that `getPlainText` works on once scripts and styles are gone. */
  function BlockFree(html: string): string
  {
    StripBlocks(StripBlocks(html, ScriptStart, ScriptEnd), StyleStart, StyleEnd)
  }

  /** What the loop of `getPlainText` builds from the `>`-separated fragments:
      each fragment cut before its first `<`, followed by one space. */
  function SpacedFragments(fragments: seq<string>): (r: string)
    ensures '<' !in r
    ensures (forall k :: 0 <= k < |fragments| ==> '>' !in fragments[k]) ==> '>' !in r
    ensures fragments != [] ==> |r| > 0 && r[|r| - 1] == ' '
  {
    if fragments == [] then ""
    else
      var last := fragments[|fragments| - 1];
      var kept := Cut(last, "<");
      CutSpec(last, "<");
      NoOccurrenceChar(kept, '<');
      assert forall ch :: ch in kept ==> ch in last;
      SpacedFragments(fragments[..|fragments| - 1]) + kept + " "
  }

  /** One more turn of the `getPlainText` loop. */
  lemma SpacedFragmentsStep(fragments: seq<string>, i: int)
    requires 0 <= i < |fragments|
    ensures SpacedFragments(fragments[..i + 1]) == SpacedFragments(fragments[..i]) + Cut(fragments[i], "<") + " "
  {
    assert fragments[..i + 1][..i] == fragments[..i];
  }

  /** What `getPlainText` returns. */
  function PlainText(html: string): string
  {
    SpacedFragments(Split(BlockFree(html), ">"))
  }

  method GetPlainText(htmlCode: string) returns (r: string)
    ensures r == PlainText(htmlCode)
  {
    var html := RemoveJavaScript(htmlCode);
    html := RemoveCss(html);
    var plainText := "";
    var stringArray := Split(html, ">");
    for i := 0 to |stringArray|
      invariant plainText == SpacedFragments(stringArray[..i])
    {
      SpacedFragmentsStep(stringArray, i);
      var substring := Cut(stringArray[i], "<");
      plainText := plainText + substring;
      plainText := plainText + " ";
    }
    assert stringArray[..|stringArray|] == stringArray;
    r := plainText;
  }

  /** The plain text holds no angle bracket at all. */
  lemma PlainTextHasNoBrackets(html: string)
    ensures '<' !in PlainText(html) && '>' !in PlainText(html)
  {
    var fragments := Split(BlockFree(html), ">");
    SplitPiecesFree(BlockFree(html), ">");
    forall k | 0 <= k < |fragments| ensures '>' !in fragments[k] {
      NoOccurrenceChar(fragments[k], '>');
    }
  }

  lemma {:induction false} SpacedFragmentsJoin(fragments: seq<string>)
    requires fragments != []
    ensures SpacedFragments(fragments) == Join(Cuts(fragments, "<"), " ") + " "
  {
    var n := |fragments|;
    if n > 1 {
      var init := fragments[..n - 1];
      SpacedFragmentsJoin(init);
      assert Cuts(fragments, "<") == Cuts(init, "<") + [Cut(fragments[n - 1], "<")];
      JoinSnoc(Cuts(init, "<"), " ", Cut(fragments[n - 1], "<"));
    }
  }

  /** The plain text is the kept part of every `>`-separated fragment, joined
      by single spaces and closed by one more space: one space per fragment,
      and one fragment per `>` plus one. So it is never empty, it always ends
      with a space, and it is a single space for an empty document. */
  lemma PlainTextShape(html: string)
    ensures var fragments := Split(BlockFree(html), ">");
      && |fragments| == CountChar(BlockFree(html), '>') + 1
      && PlainText(html) == Join(Cuts(fragments, "<"), " ") + " "
    ensures |PlainText(html)| > 0 && PlainText(html)[|PlainText(html)| - 1] == ' '
    ensures BlockFree(html) == "" ==> PlainText(html) == " "
    ensures html == "" ==> PlainText(html) == " "
  {
    var fragments := Split(BlockFree(html), ">");
    SplitCharCount(BlockFree(html), '>');
    SpacedFragmentsJoin(fragments);
    if html == "" {
      StripBlocksNoLonger(html, ScriptStart, ScriptEnd);
      StripBlocksNoLonger(StripBlocks(html, ScriptStart, ScriptEnd), StyleStart, StyleEnd);
    }
    if BlockFree(html) == "" {
      assert |fragments| == 1;
      assert fragments[0] == "" by { JoinSplit("", ">"); }
      assert Cuts(fragments, "<") == [""];
    }
  }

  /** The document made of one `startTag`...`endTag` block per entry of `xs`,
      each entry being the text between the two tags. */
  function Blocks(xs: seq<string>, startTag: string, endTag: string): string
  {
    if xs == [] then "" else startTag + xs[0] + endTag + Blocks(xs[1..], startTag, endTag)
  }

  /** Each block closes at the first `endTag` after its `startTag`. */
  ghost predicate ClosedBlocks(xs: seq<string>, startTag: string, endTag: string)
  {
    forall k :: 0 <= k < |xs| ==> FirstAt(startTag + xs[k] + endTag, endTag, |startTag + xs[k]|)
  }

  /** A document made only of closed blocks is removed entirely. */
  lemma {:induction false} BlocksRemoved(xs: seq<string>, startTag: string, endTag: string)
    requires startTag != "" && endTag != ""
    requires ClosedBlocks(xs, startTag, endTag)
    ensures StripBlocks(Blocks(xs, startTag, endTag), startTag, endTag) == ""
  {
    if xs == [] {
      StripBlocksNoLonger("", startTag, endTag);
    } else {
      var rest := Blocks(xs[1..], startTag, endTag);
      assert ClosedBlocks(xs[1..], startTag, endTag) by {
        forall k | 0 <= k < |xs[1..]|
          ensures FirstAt(startTag + xs[1..][k] + endTag, endTag, |startTag + xs[1..][k]|)
        {
          assert xs[1..][k] == xs[k + 1];
        }
      }
      BlocksRemoved(xs[1..], startTag, endTag);
      assert OccursAt("" + startTag, startTag, 0);
      assert "" + startTag + xs[0] + endTag == startTag + xs[0] + endTag;
      assert "" + startTag + xs[0] + endTag + rest == Blocks(xs, startTag, endTag);
      BlockRemoved("", xs[0], rest, startTag, endTag);
    }
  }

  /** A page made only of closed `<style>` blocks, with no script tag in it,
      reduces to the single space that `getPlainText` always appends. */
  lemma StylesOnlyAreBlank(xs: seq<string>)
    requires ClosedBlocks(xs, StyleStart, StyleEnd)
    requires NoOccurrence(Blocks(xs, StyleStart, StyleEnd), ScriptStart)
    requires NoOccurrence(Blocks(xs, StyleStart, StyleEnd), ScriptEnd)
    ensures PlainText(Blocks(xs, StyleStart, StyleEnd)) == " "
  {
    var html := Blocks(xs, StyleStart, StyleEnd);
    StripBlocksUnchanged(html, ScriptStart, ScriptEnd);
    BlocksRemoved(xs, StyleStart, StyleEnd);
    assert BlockFree(html) == "";
    PlainTextShape(html);
  }

  /** A page made only of closed `<script>` blocks reduces to a single space. */
  lemma ScriptsOnlyAreBlank(xs: seq<string>)
    requires ClosedBlocks(xs, ScriptStart, ScriptEnd)
    ensures PlainText(Blocks(xs, ScriptStart, ScriptEnd)) == " "
  {
    var html := Blocks(xs, ScriptStart, ScriptEnd);
    BlocksRemoved(xs, ScriptStart, ScriptEnd);
    StripBlocksNoLonger("", StyleStart, StyleEnd);
    assert BlockFree(html) == "";
    PlainTextShape(html);
  }

  /** Text without any `<` passes through with every `>` turned into a space
      and one space appended; with no `>` either, only the space is added. */
  lemma PlainTextOfUnmarkedText(html: string)
    requires '<' !in html
    ensures PlainText(html) == ReplaceChar(html, '>', ' ') + " "
    ensures '>' !in html ==> PlainText(html) == html + " "
  {
    forall t | t in {ScriptStart, ScriptEnd, StyleStart, StyleEnd} ensures NoOccurrence(html, t) {
      NoOccurrenceOfCharFree(html, t, '<');
    }
    StripBlocksUnchanged(html, ScriptStart, ScriptEnd);
    StripBlocksUnchanged(html, StyleStart, StyleEnd);
    assert BlockFree(html) == html;
    var fragments := Split(html, ">");
    SplitPiecesFree(html, ">");
    forall k | 0 <= k < |fragments| ensures '>' !in fragments[k] && '<' !in fragments[k] {
      NoOccurrenceChar(fragments[k], '>');
      JoinSplit(html, ">");
      JoinHolds(fragments, ">", k);
      NoOccurrenceChar(fragments[k], '<');
      NoOccurrenceChar(html, '<');
    }
    forall k | 0 <= k < |fragments| ensures Cut(fragments[k], "<") == fragments[k] {
      CutSpec(fragments[k], "<");
      NoOccurrenceChar(fragments[k], '<');
    }
    assert Cuts(fragments, "<") == fragments;
    SpacedFragmentsJoin(fragments);
    JoinSplit(html, ">");
    ReplaceInJoin(fragments, '>', ' ');
    if '>' !in html {
      assert ReplaceChar(html, '>', ' ') == html;
    }
  }

  /** Every character of a piece occurs in the join. */
  lemma {:induction false} JoinHolds(pieces: seq<string>, sep: string, k: int)
    requires 0 <= k < |pieces|
    ensures forall ch :: ch in pieces[k] ==> ch in Join(pieces, sep)
  {
    if |pieces| > 1 && k > 0 {
      JoinHolds(pieces[1..], sep, k - 1);
    }
  }
}
