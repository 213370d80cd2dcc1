/**
 The content extractor (`parse_doc` in streamlit_app.py): a Word document,
 already opened by the document library, becomes an ordered list of content
 blocks. The library's output is taken as two plain inputs: the paragraph
 texts in document order, and the `target_ref` of every relationship of the
 main document part, in the order the relationship table iterates them.
 */
module Extraction {
  import opened PyStrings
  import opened Sequences

  /** One unit of source material. The source stores this as a dictionary
      `{"type": ..., "content": ...}`; only these two type tags ever occur. */
  datatype Block = Text(content: string) | Image(path: string)

  /** The directory extracted images are written to (`UPLOAD_FOLDER`). */
  const UploadFolder: string := "uploads"

  /** Where an extracted image with the fresh name `name` is stored:
      `os.path.join(UPLOAD_FOLDER, f"{name}.png")`, with the POSIX path
      separator `/`. */
  function ImagePath(name: string): string {
    UploadFolder + "/" + name + ".png"
  }

  /** A paragraph yields a text block when something is left after stripping. */
  predicate HasText(paragraph: string) {
    Strip(paragraph) != ""
  }

  /** A relationship yields an image block when its target reference contains
      the substring "image". */
  predicate IsImageRef(targetRef: string) {
    Contains("image", targetRef)
  }

  predicate IsText(b: Block) {
    b.Text?
  }

  /** The first pass: one text block per paragraph that is not blank, holding
      the stripped paragraph, in paragraph order. */
  function TextPass(paragraphs: seq<string>): (blocks: seq<Block>)
    ensures |blocks| == |Positions(paragraphs, HasText)|
    ensures forall k :: 0 <= k < |blocks| ==>
              blocks[k] == Text(Strip(paragraphs[Positions(paragraphs, HasText)[k]]))
  {
    if paragraphs == [] then []
    else
      var n := |paragraphs| - 1;
      var text := Strip(paragraphs[n]);
      TextPass(paragraphs[..n]) + (if text != "" then [Text(text)] else [])
  }

  /** The second pass: one image block per relationship whose target reference
      mentions "image", in iteration order. The k-th image found is stored
      under the k-th fresh name that `names` supplies (`uuid.uuid4()` in the
      source). */
  function ImagePass(targetRefs: seq<string>, names: nat -> string): (blocks: seq<Block>)
    ensures |blocks| == |Positions(targetRefs, IsImageRef)|
    ensures forall k :: 0 <= k < |blocks| ==> blocks[k] == Image(ImagePath(names(k)))
  {
    if targetRefs == [] then []
    else
      var n := |targetRefs| - 1;
      var before := ImagePass(targetRefs[..n], names);
      before + (if IsImageRef(targetRefs[n]) then [Image(ImagePath(names(|before|)))] else [])
  }

  /** `parse_doc`: all text blocks, then all image blocks. The two passes are
      separate loops, so an image that sits between two paragraphs in the
      document still comes after every text block. The text blocks are the
      non-blank paragraphs, stripped, in paragraph order; the image blocks are
      one per image relationship, named in the order they were found. */
  function ParseDoc(paragraphs: seq<string>, targetRefs: seq<string>, names: nat -> string): (blocks: seq<Block>)
    ensures |blocks| == |Positions(paragraphs, HasText)| + |Positions(targetRefs, IsImageRef)|
    ensures forall i, j :: 0 <= i < |blocks| && 0 <= j < |blocks| && blocks[i].Image? && blocks[j].Text? ==> j < i
    ensures forall k :: 0 <= k < |Positions(paragraphs, HasText)| ==>
              blocks[k] == Text(Strip(paragraphs[Positions(paragraphs, HasText)[k]]))
    ensures forall k :: |Positions(paragraphs, HasText)| <= k < |blocks| ==>
              blocks[k] == Image(ImagePath(names(k - |Positions(paragraphs, HasText)|)))
  {
    TextPass(paragraphs) + ImagePass(targetRefs, names)
  }

  /** A paragraph is skipped exactly when it is empty or all whitespace. */
  lemma SkippedExactlyWhenBlank(paragraphs: seq<string>)
    ensures forall j :: 0 <= j < |paragraphs| ==>
              (j in Positions(paragraphs, HasText) <==> !AllSpace(paragraphs[j]))
  {
    var idx := Positions(paragraphs, HasText);
    forall j | 0 <= j < |paragraphs|
      ensures j in idx <==> !AllSpace(paragraphs[j])
    {
      if j in idx {
        var k :| 0 <= k < |idx| && idx[k] == j;
        assert HasText(paragraphs[idx[k]]);
      }
    }
  }

  /** Every text block of a parsed document is non-empty and has no whitespace
      at either end. */
  lemma TextBlocksStripped(paragraphs: seq<string>, targetRefs: seq<string>, names: nat -> string)
    ensures forall b :: b in ParseDoc(paragraphs, targetRefs, names) && b.Text? ==>
              b.content != "" && IsStripped(b.content)
  {
    var blocks := ParseDoc(paragraphs, targetRefs, names);
    var idx := Positions(paragraphs, HasText);
    forall b | b in blocks && b.Text?
      ensures b.content != "" && IsStripped(b.content)
    {
      var k :| 0 <= k < |blocks| && blocks[k] == b;
      assert k < |idx|;
      StripIdempotent(paragraphs[idx[k]]);
    }
  }

  /** The number of blocks is the number of non-blank paragraphs plus the number
      of relationships that mention "image"; nothing else adds or removes one. */
  lemma BlockCount(paragraphs: seq<string>, targetRefs: seq<string>, names: nat -> string)
    ensures |ParseDoc(paragraphs, targetRefs, names)|
            == |Selected(paragraphs, HasText)| + |Selected(targetRefs, IsImageRef)|
  {
    PositionsCount(paragraphs, HasText);
    PositionsCount(targetRefs, IsImageRef);
  }
}
