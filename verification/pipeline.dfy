/**
 The whole run triggered by an upload (streamlit_app.py, the block guarded by
 `uploaded_file is not None`): extract the blocks, derive the narration text,
 build the clip timeline. Writing files, the speech request, the audio
 overlay and the final render are external and not modelled; the narration
 text stands for the audio that is laid over the timeline.
 */
module Pipeline {
  import opened PyStrings
  import opened Sequences
  import opened Extraction
  import opened Narration
  import opened Video

  /** What the document library reports about an uploaded document. */
  datatype Document = Document(paragraphs: seq<string>, targetRefs: seq<string>)

  /** What one run produces: the visual timeline, its length in seconds, and
      the text that is narrated over it. */
  datatype Production = Production(blocks: seq<Block>, timeline: seq<Placed>, length: nat, narration: string)

  /** One run: `parse_doc`, then `generate_audio`'s text, then `build_video`'s
      timeline, all over the same block list. */
  method Run(doc: Document, names: nat -> string) returns (p: Production)
    ensures p.blocks == ParseDoc(doc.paragraphs, doc.targetRefs, names)
    ensures p.length == ClipDuration * (|Selected(doc.paragraphs, HasText)| + |Selected(doc.targetRefs, IsImageRef)|)
    ensures p.narration == Join(Separator, StrippedParagraphs(doc.paragraphs))
    ensures |p.timeline| == |p.blocks|
    ensures forall i :: 0 <= i < |p.blocks| ==>
              Depicts(p.timeline[i].clip, p.blocks[i]) && p.timeline[i].start == ClipDuration * i
  {
    var blocks := ParseDoc(doc.paragraphs, doc.targetRefs, names);
    var narration := NarrationText(blocks);
    var timeline, length := BuildTimeline(blocks);
    BlockCount(doc.paragraphs, doc.targetRefs, names);
    NarrationOfDocument(doc.paragraphs, doc.targetRefs, names);
    p := Production(blocks, timeline, length, narration);
  }

  /** A document with paragraphs "  Hello ", "" and "World" and two
      relationships, a style sheet and an image: the blank paragraph is
      dropped, the image comes last, the narration is "Hello World" and the
      timeline lasts fifteen seconds. */
  lemma HelloWorldExample(names: nat -> string)
    ensures var blocks := ParseDoc(["  Hello ", "", "World"], ["styles.xml", "media/image1.png"], names);
            && blocks == [Text("Hello"), Text("World"), Image(ImagePath(names(0)))]
            && NarrationText(blocks) == "Hello World"
            && End(Concatenate(Clips(blocks))) == 15
  {
    var blocks := [Text("Hello"), Text("World"), Image(ImagePath(names(0)))];
    assert ParseDoc(["  Hello ", "", "World"], ["styles.xml", "media/image1.png"], names) == blocks by {
      ExampleTextPass();
      ExampleImagePass(names);
    }
    assert NarrationText(blocks) == "Hello World" by {
      ExampleNarration(ImagePath(names(0)));
    }
    assert End(Concatenate(Clips(blocks))) == 15 by {
      TimelineOfBlocks(blocks);
    }
  }

  lemma ExampleNarration(path: string)
    ensures NarrationText([Text("Hello"), Text("World"), Image(path)]) == "Hello World"
  {
    var blocks := [Text("Hello"), Text("World"), Image(path)];
    assert blocks[..2] == [Text("Hello"), Text("World")];
    assert blocks[..2][..1] == [Text("Hello")];
    assert [Text("Hello")][..0] == [];
    assert TextContents([Text("Hello")]) == ["Hello"];
    assert TextContents(blocks[..2]) == ["Hello", "World"];
    assert TextContents(blocks) == ["Hello", "World"];
    assert ["Hello", "World"][..1] == ["Hello"];
  }

  /** The first two paragraphs give one text block: the blank one is skipped. */
  lemma ExampleTextPassPrefix()
    ensures TextPass(["  Hello ", ""]) == [Text("Hello")]
  {
    var p1, p2 := ["  Hello "], ["  Hello ", ""];
    ExampleStrips();
    assert TextPass(p1) == [Text("Hello")] by {
      assert p1[..0] == [];
    }
    assert p2[..1] == p1;
  }

  lemma ExampleTextPass()
    ensures TextPass(["  Hello ", "", "World"]) == [Text("Hello"), Text("World")]
  {
    var p2, p3 := ["  Hello ", ""], ["  Hello ", "", "World"];
    ExampleTextPassPrefix();
    ExampleStrips();
    assert p3[..2] == p2;
  }

  lemma ExampleStrips()
    ensures Strip("  Hello ") == "Hello"
    ensures Strip("") == ""
    ensures Strip("World") == "World"
  {
    assert Strip("  Hello ") == "Hello" by {
      assert "  Hello "[2..7] == "Hello";
      assert IsSliceWithSpaceAround("  Hello ", "Hello", 2, 7);
      StripCharacterized("  Hello ", "Hello");
    }
    assert Strip("World") == "World" by {
      StripOfStripped("World");
    }
  }

  /** Of the example's two relationships, only the picture's mentions "image". */
  lemma ExampleImageRefs()
    ensures IsImageRef("media/image1.png")
    ensures !IsImageRef("styles.xml")
  {
    assert "media/image1.png"[6..11] == "image";
    assert OccursAt("image", "media/image1.png", 6);
    assert 'i' !in "styles.xml";
    forall i: nat | i + 5 <= 10
      ensures !OccursAt("image", "styles.xml", i)
    {
      assert "styles.xml"[i..i + 5][0] == "styles.xml"[i];
    }
  }

  lemma ExampleImagePass(names: nat -> string)
    ensures ImagePass(["styles.xml", "media/image1.png"], names) == [Image(ImagePath(names(0)))]
  {
    var refs := ["styles.xml", "media/image1.png"];
    ExampleImageRefs();
    assert ImagePass(refs[..1], names) == [] by {
      assert refs[..1] == ["styles.xml"];
    }
  }
}
