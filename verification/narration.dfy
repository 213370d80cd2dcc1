/**
 The narration text of `generate_audio` in streamlit_app.py: the contents of
 the text blocks, in block order, joined by single spaces. This is the text
 sent to the speech service; the request itself is not modelled.

 Line 42 of streamlit_app.py, `" ".join(b["content"] for b in blocks if b["type"] == "text"])`,
 carries a stray `]` and does not parse as Python. What is modelled is the
 evident intent: the space-join of the text contents.
 */
module Narration {
  import opened PyStrings
  import opened Sequences
  import opened Extraction

  /** The separator between text blocks in the narration. */
  const Separator: string := " "

  /** The contents of the text blocks, in block order; image blocks are skipped. */
  function TextContents(blocks: seq<Block>): seq<string> {
    if blocks == [] then []
    else
      var n := |blocks| - 1;
      TextContents(blocks[..n]) + (if blocks[n].Text? then [blocks[n].content] else [])
  }

  /** The text contents are exactly the contents of the blocks that are text,
      taken at the text blocks' positions, in order. */
  lemma {:induction false} TextContentsPositions(blocks: seq<Block>)
    ensures var texts, idx := TextContents(blocks), Positions(blocks, IsText);
            |texts| == |idx| && forall k :: 0 <= k < |texts| ==> texts[k] == blocks[idx[k]].content
  {
    if blocks != [] {
      TextContentsPositions(blocks[..|blocks| - 1]);
    }
  }

  /** The narration string sent to the speech service. */
  function NarrationText(blocks: seq<Block>): string {
    Join(Separator, TextContents(blocks))
  }

  /** Splitting the block list splits its text contents at the same point. */
  lemma {:induction false} TextContentsAppend(a: seq<Block>, b: seq<Block>)
    ensures TextContents(a + b) == TextContents(a) + TextContents(b)
    decreases |b|
  {
    if b == [] {
      assert a + b == a;
    } else {
      var n := |b| - 1;
      assert (a + b)[..|a + b| - 1] == a + b[..n];
      TextContentsAppend(a, b[..n]);
    }
  }

  /** The narration of two block lists one after the other is their narrations
      with exactly one space between them, or just one of them when the other
      has no text. */
  lemma NarrationAppend(a: seq<Block>, b: seq<Block>)
    ensures NarrationText(a + b) ==
              if TextContents(a) == [] then NarrationText(b)
              else if TextContents(b) == [] then NarrationText(a)
              else NarrationText(a) + " " + NarrationText(b)
  {
    TextContentsAppend(a, b);
    JoinAppend(Separator, TextContents(a), TextContents(b));
  }

  /** Image blocks do not affect the narration, wherever they sit. */
  lemma NarrationIgnoresImage(a: seq<Block>, b: seq<Block>, path: string)
    ensures NarrationText(a + [Image(path)] + b) == NarrationText(a + b)
  {
    var image := [Image(path)];
    NoTextContents(image);
    TextContentsAppend(a + image, b);
    TextContentsAppend(a, image);
    TextContentsAppend(a, b);
    assert TextContents(a + image) == TextContents(a) + [];
    assert TextContents(a + image + b) == TextContents(a) + TextContents(b);
  }

  /** The narration is as long as the text contents plus one space between
      each pair of neighbouring text blocks. */
  lemma NarrationLength(blocks: seq<Block>)
    ensures var texts := TextContents(blocks);
            |NarrationText(blocks)| == if texts == [] then 0 else TotalLength(texts) + |texts| - 1
  {
    if TextContents(blocks) != [] {
      JoinLength(Separator, TextContents(blocks));
    }
  }

  /** The narration of a parsed document is its stripped non-blank paragraphs
      joined by single spaces: it depends neither on the relationships nor on
      the names chosen for the images. */
  lemma NarrationOfDocument(paragraphs: seq<string>, targetRefs: seq<string>, names: nat -> string)
    ensures NarrationText(ParseDoc(paragraphs, targetRefs, names))
            == Join(Separator, StrippedParagraphs(paragraphs))
  {
    DocumentTextContents(paragraphs, targetRefs, names);
  }

  /** A document's narration is empty exactly when every paragraph is blank,
      and it never begins or ends with whitespace. */
  lemma NarrationShape(paragraphs: seq<string>)
    ensures Join(Separator, StrippedParagraphs(paragraphs)) == "" <==>
              forall j :: 0 <= j < |paragraphs| ==> AllSpace(paragraphs[j])
    ensures IsStripped(Join(Separator, StrippedParagraphs(paragraphs)))
  {
    var texts := StrippedParagraphs(paragraphs);
    StrippedParagraphsAreWords(paragraphs);
    if texts != [] {
      JoinStripped(Separator, texts);
    }
  }

  /** The text contents of a parsed document are its stripped non-blank paragraphs. */
  lemma DocumentTextContents(paragraphs: seq<string>, targetRefs: seq<string>, names: nat -> string)
    ensures TextContents(ParseDoc(paragraphs, targetRefs, names)) == StrippedParagraphs(paragraphs)
  {
    var text := TextPass(paragraphs);
    var images := ImagePass(targetRefs, names);
    NoTextContents(images);
    TextContentsAppend(text, images);
    AllTextContents(text);
    assert TextContents(text + images) == TextContents(text) + [];
  }

  /** The stripped non-blank paragraphs are non-empty and have no whitespace at
      either end, and there are none exactly when every paragraph is blank. */
  lemma StrippedParagraphsAreWords(paragraphs: seq<string>)
    ensures var texts := StrippedParagraphs(paragraphs);
            forall k :: 0 <= k < |texts| ==> texts[k] != [] && IsStripped(texts[k])
    ensures StrippedParagraphs(paragraphs) == [] <==>
              forall j :: 0 <= j < |paragraphs| ==> AllSpace(paragraphs[j])
  {
    var texts := StrippedParagraphs(paragraphs);
    var idx := Positions(paragraphs, HasText);
    forall k | 0 <= k < |texts|
      ensures texts[k] != [] && IsStripped(texts[k])
    {
      StripIdempotent(paragraphs[idx[k]]);
    }
    if texts != [] {
      assert !AllSpace(paragraphs[idx[0]]);
    } else {
      forall j | 0 <= j < |paragraphs|
        ensures AllSpace(paragraphs[j])
      {
        assert j !in idx;
        assert !HasText(paragraphs[j]);
      }
    }
  }

  /** The non-blank paragraphs, stripped, in paragraph order. */
  function StrippedParagraphs(paragraphs: seq<string>): (texts: seq<string>)
    ensures |texts| == |Positions(paragraphs, HasText)|
  {
    var idx := Positions(paragraphs, HasText);
    seq(|idx|, k requires 0 <= k < |idx| => Strip(paragraphs[idx[k]]))
  }

  /** A block list without text blocks contributes no text. */
  lemma {:induction false} NoTextContents(blocks: seq<Block>)
    requires forall k :: 0 <= k < |blocks| ==> blocks[k].Image?
    ensures TextContents(blocks) == []
  {
    if blocks != [] {
      NoTextContents(blocks[..|blocks| - 1]);
    }
  }

  /** A block list of text blocks only contributes every content, in order. */
  lemma {:induction false} AllTextContents(blocks: seq<Block>)
    requires forall k :: 0 <= k < |blocks| ==> blocks[k].Text?
    ensures |TextContents(blocks)| == |blocks|
    ensures forall k :: 0 <= k < |blocks| ==> TextContents(blocks)[k] == blocks[k].content
  {
    if blocks != [] {
      AllTextContents(blocks[..|blocks| - 1]);
    }
  }
}
