/**
 The clip composer (`build_video` in streamlit_app.py): one fixed-length
 visual clip per content block, in block order, concatenated into a single
 timeline. Only the clip records and their timing are modelled; rendering,
 resizing pixels, the audio overlay and encoding belong to the video library.
 */
module Video {
  import opened Extraction

  /** Every clip is shown for five seconds (`set_duration(5)`). */
  const ClipDuration: nat := 5
  /** Text clips are full-frame captions of this size (`size=(1280, 720)`). */
  const FrameWidth: nat := 1280
  const FrameHeight: nat := 720
  /** Caption styling (`fontsize=40, color='white'`). */
  const FontSize: nat := 40
  const FontColor: string := "white"

  /** What a clip shows. */
  datatype Visual =
    | Caption(text: string, fontSize: nat, color: string, width: nat, height: nat)
      // a `TextClip` of the given size
    | Picture(path: string, height: nat)
      // an `ImageClip` resized to the given height, keeping its aspect ratio

  datatype Clip = Clip(visual: Visual, duration: nat)

  /** A clip placed on the timeline at offset `start`. */
  datatype Placed = Placed(clip: Clip, start: nat)

  /** The clip the loop body builds for one block. */
  function ClipFor(b: Block): Clip {
    match b
    case Text(content) => Clip(Caption(content, FontSize, FontColor, FrameWidth, FrameHeight), ClipDuration)
    case Image(path) => Clip(Picture(path, FrameHeight), ClipDuration)
  }

  /** `b` and `c` agree: a text block becomes a white 40-point caption of its
      content at the full frame size, an image block becomes a picture of its file scaled to
      the frame height; either way the clip lasts five seconds. */
  predicate Depicts(c: Clip, b: Block) {
    && c.duration == ClipDuration
    && match b
       case Text(content) => c.visual.Caption? && c.visual.text == content
                             && c.visual.fontSize == FontSize && c.visual.color == FontColor
                             && c.visual.width == FrameWidth && c.visual.height == FrameHeight
       case Image(path) => c.visual.Picture? && c.visual.path == path && c.visual.height == FrameHeight
  }

  /** The loop of `build_video`: one clip appended per block. */
  function Clips(blocks: seq<Block>): (clips: seq<Clip>)
    ensures |clips| == |blocks|
    ensures forall i :: 0 <= i < |blocks| ==> Depicts(clips[i], blocks[i])
  {
    if blocks == [] then []
    else Clips(blocks[..|blocks| - 1]) + [ClipFor(blocks[|blocks| - 1])]
  }

  /** The total length of a list of clips played one after another. */
  function Span(clips: seq<Clip>): nat {
    if clips == [] then 0 else Span(clips[..|clips| - 1]) + clips[|clips| - 1].duration
  }

  /** `concatenate_videoclips`: each clip starts where the previous one ends. */
  function Concatenate(clips: seq<Clip>): (timeline: seq<Placed>)
    ensures |timeline| == |clips|
  {
    if clips == [] then []
    else
      var n := |clips| - 1;
      Concatenate(clips[..n]) + [Placed(clips[n], Span(clips[..n]))]
  }

  /** The time at which a placed timeline ends. */
  function End(timeline: seq<Placed>): nat {
    if timeline == [] then 0
    else timeline[|timeline| - 1].start + timeline[|timeline| - 1].clip.duration
  }

  /** `timeline` shows `clips` in order with no gap and no overlap: the first
      clip starts at zero and every other clip starts when its predecessor ends. */
  ghost predicate PlaysInOrder(timeline: seq<Placed>, clips: seq<Clip>) {
    && |timeline| == |clips|
    && (forall i :: 0 <= i < |clips| ==> timeline[i].clip == clips[i])
    && (timeline != [] ==> timeline[0].start == 0)
    && (forall i :: 0 < i < |timeline| ==> timeline[i].start == End(timeline[..i]))
  }

  /** Concatenation places the clips back to back, and the timeline it builds
      ends after the clips' total length. */
  lemma {:induction false} ConcatenatePlaysInOrder(clips: seq<Clip>)
    ensures PlaysInOrder(Concatenate(clips), clips)
    ensures End(Concatenate(clips)) == Span(clips)
  {
    if clips != [] {
      var n := |clips| - 1;
      ConcatenatePlaysInOrder(clips[..n]);
      var t := Concatenate(clips);
      assert t[..n] == Concatenate(clips[..n]);
      forall i | 0 <= i < n
        ensures t[i].clip == clips[i]
      {
        assert t[i] == t[..n][i];
      }
      forall i | 0 < i < |t|
        ensures t[i].start == End(t[..i])
      {
        if i < n {
          assert t[..i] == t[..n][..i];
          assert t[i] == t[..n][i];
        }
      }
    }
  }

  /** Back-to-back placement is unique: any timeline that plays `clips` in
      order without gaps is the concatenation. */
  lemma {:induction false} PlaysInOrderUnique(timeline: seq<Placed>, clips: seq<Clip>)
    requires PlaysInOrder(timeline, clips)
    ensures timeline == Concatenate(clips)
  {
    if clips != [] {
      var n := |clips| - 1;
      var prefix := timeline[..n];
      PlaysInOrderPrefix(timeline, clips);
      PlaysInOrderUnique(prefix, clips[..n]);
      assert End(prefix) == Span(clips[..n]) by {
        ConcatenatePlaysInOrder(clips[..n]);
      }
      assert timeline[n] == Placed(clips[n], Span(clips[..n])) by {
        if n > 0 {
          assert timeline[n].start == End(timeline[..n]);
        }
      }
      assert timeline == prefix + [timeline[n]];
    }
  }

  /** Dropping the last clip of an in-order timeline leaves an in-order timeline. */
  lemma PlaysInOrderPrefix(timeline: seq<Placed>, clips: seq<Clip>)
    requires PlaysInOrder(timeline, clips) && clips != []
    ensures PlaysInOrder(timeline[..|clips| - 1], clips[..|clips| - 1])
  {
    var n := |clips| - 1;
    var prefix := timeline[..n];
    forall i | 0 < i < |prefix|
      ensures prefix[i].start == End(prefix[..i])
    {
      assert prefix[..i] == timeline[..i];
    }
  }

  /** The timeline of a block list: clip i depicts block i and starts at 5 × i,
      and the whole visual track lasts 5 × the number of blocks. */
  lemma {:induction false} TimelineOfBlocks(blocks: seq<Block>)
    ensures var t := Concatenate(Clips(blocks));
            && |t| == |blocks|
            && (forall i :: 0 <= i < |t| ==> Depicts(t[i].clip, blocks[i]) && t[i].start == ClipDuration * i)
            && End(t) == ClipDuration * |blocks|
  {
    var clips := Clips(blocks);
    ConcatenatePlaysInOrder(clips);
    UniformSpan(clips);
  }

  /** Clips of equal length: the first i of them last 5 × i together. */
  lemma {:induction false} UniformSpan(clips: seq<Clip>)
    requires forall i :: 0 <= i < |clips| ==> clips[i].duration == ClipDuration
    ensures Span(clips) == ClipDuration * |clips|
    ensures forall i :: 0 <= i < |Concatenate(clips)| ==> Concatenate(clips)[i].start == ClipDuration * i
  {
    if clips != [] {
      var n := |clips| - 1;
      UniformSpan(clips[..n]);
      assert Concatenate(clips)[..n] == Concatenate(clips[..n]);
      forall i | 0 <= i < n
        ensures Concatenate(clips)[i].start == ClipDuration * i
      {
        assert Concatenate(clips)[i] == Concatenate(clips[..n])[i];
      }
    }
  }

  /** `build_video`'s loop as it runs: walk the blocks, append a clip for each
      at the current end of the timeline, and advance the end by its length. */
  method BuildTimeline(blocks: seq<Block>) returns (timeline: seq<Placed>, length: nat)
    ensures |timeline| == |blocks|
    ensures forall i :: 0 <= i < |blocks| ==> Depicts(timeline[i].clip, blocks[i])
    ensures forall i :: 0 <= i < |blocks| ==> timeline[i].start == ClipDuration * i
    ensures PlaysInOrder(timeline, Clips(blocks))
    ensures length == End(timeline) == ClipDuration * |blocks|
  {
    timeline, length := [], 0;
    for i := 0 to |blocks|
      invariant timeline == Concatenate(Clips(blocks[..i]))
      invariant length == Span(Clips(blocks[..i]))
    {
      assert blocks[..i + 1][..i] == blocks[..i];
      var clip := ClipFor(blocks[i]);
      timeline := timeline + [Placed(clip, length)];
      length := length + clip.duration;
    }
    assert blocks[..|blocks|] == blocks;
    TimelineOfBlocks(blocks);
    ConcatenatePlaysInOrder(Clips(blocks));
  }
}
