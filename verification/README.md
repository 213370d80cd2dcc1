# Document-to-video block sequencing, modelled in Dafny

This project models the sequencing core of the document-to-video script
`streamlit_app.py`: a Word document is turned into an ordered list of content
blocks, the text blocks are joined into the narration text, and every block
becomes one five-second clip on a single timeline.

The model is pure and works over plain sequences. The document library's
output is taken as given: the paragraph texts in document order, and the
`target_ref` of every relationship of the main document part, in iteration
order. The fresh file names that `uuid.uuid4()` produces are injected as a
function `names: nat -> string`, where the k-th image found is named
`names(k)`.

Modules, one per step of the script plus two for the Python built-ins it
relies on:

- `Sequences`: the order-preserving filter ("loop over a list, append when a
  condition holds") that both extraction passes and the narration filter are
  built from. `Positions` gives the kept positions. `IsPositionsOf` gives an
  independent description of them.
- `PyStrings`: `str.strip()`, the substring test `in`, and `str.join`. `Strip`
  removes exactly the characters Python's `str.isspace()` accepts.
- `Extraction`: `parse_doc`. The `Block` type is `Text(content) | Image(path)`.
  There are two passes: first text, then images.
- `Narration`: the narration text built in `generate_audio`.
- `Video`: the clip records of `build_video` and their placement on the
  concatenated timeline.
- `Pipeline`: one run over an uploaded document, plus a worked example.

Behaviour reproduced as the code has it:

- All image blocks come after all text blocks, wherever the images sit in the
  document. This is because the two passes are separate loops. The model keeps
  this ordering and does not fix it (`Extraction.ParseDoc`).
- An image block is produced for every relationship whose `target_ref`
  contains the substring `"image"`. The code does not check the relationship
  type or whether it is an embedded picture.
- Line 42, `" ".join(b["content"] for b in blocks if b["type"] == "text"])`,
  has a stray `]` and is not valid Python. The model uses the evident intent:
  the text contents joined by single spaces.
- The code has no check that rejects an empty document and never looks at
  the speech service's response status. The model therefore has no error
  results: an empty document yields an empty block list, an empty narration
  and a zero-length timeline.

## Model

| member | source | states |
|---|---|---|
| `Sequences.Positions` | streamlit_app.py:25-28 | the positions a filtering append loop keeps are strictly increasing, in range, all accepted, and include every accepted position |
| `Sequences.PositionsCharacterized` | streamlit_app.py:25-28 | `Positions` returns `idx` if and only if `idx` lists exactly the accepted positions in increasing order |
| `Sequences.PositionsCount` | streamlit_app.py:25-28 | the loop keeps as many elements as the filter accepts |
| `PyStrings.Strip` | streamlit_app.py:26 | `strip()` returns a slice of its input with only whitespace outside it and none at either end; the result is empty exactly when the input is all whitespace |
| `PyStrings.StripUnique` | streamlit_app.py:26 | there is only one stripped form of a string |
| `PyStrings.StripCharacterized` | streamlit_app.py:26 | `Strip(s) == r` if and only if `r` is `s` without its surrounding whitespace |
| `PyStrings.StripIdempotent` | streamlit_app.py:26 | a stripped string has no whitespace at either end, and stripping it again changes nothing |
| `PyStrings.Contains` | streamlit_app.py:31 | the substring test holds exactly when the needle occurs at some position of the target reference |
| `PyStrings.JoinAppend` | streamlit_app.py:42 | joining two non-empty lists puts exactly one separator between their joins |
| `PyStrings.JoinLength` | streamlit_app.py:42 | a join is as long as its parts plus one separator per neighbouring pair |
| `PyStrings.JoinStripped` | streamlit_app.py:42 | joining non-empty stripped parts gives a non-empty string with no whitespace at either end |
| `Extraction.TextPass` | streamlit_app.py:25-28 | the first pass yields, in paragraph order, one text block per non-blank paragraph, holding that paragraph stripped |
| `Extraction.ImagePass` | streamlit_app.py:29-38 | the second pass yields one image block per relationship whose target reference contains "image"; the k-th is stored as `uploads/<k-th fresh name>.png` (POSIX path separator) |
| `Extraction.ParseDoc` | streamlit_app.py:22-39 | block count = non-blank paragraphs + image relationships; every image block comes after every text block; the text blocks are the non-blank paragraphs, stripped, in paragraph order; the image blocks follow, the k-th stored under the k-th fresh name |
| `Extraction.SkippedExactlyWhenBlank` | streamlit_app.py:25-27 | a paragraph yields a text block exactly when it is not empty or all whitespace |
| `Extraction.TextBlocksStripped` | streamlit_app.py:26-28 | every text block of a parsed document is non-empty with no whitespace at either end |
| `Extraction.BlockCount` | streamlit_app.py:24-39 | the number of blocks is the number of non-blank paragraphs plus the number of relationships mentioning "image" |
| `Narration.TextContentsPositions` | streamlit_app.py:42 | the narration takes the contents of the text blocks, at their positions and in block order |
| `Narration.TextContentsAppend` | streamlit_app.py:42 | the text contents of two block lists placed one after the other are the two lists of contents concatenated |
| `Narration.NarrationAppend` | streamlit_app.py:42 | the narration of two block lists is their narrations with exactly one space between them, or just one of them when the other has no text |
| `Narration.NarrationIgnoresImage` | streamlit_app.py:42 | inserting an image block anywhere leaves the narration unchanged |
| `Narration.NarrationLength` | streamlit_app.py:42 | the narration's length is the text contents' total length plus one per pair of neighbouring text blocks |
| `Narration.DocumentTextContents` | streamlit_app.py:42 | a parsed document contributes its stripped non-blank paragraphs, in order, to the narration |
| `Narration.StrippedParagraphsAreWords` | streamlit_app.py:25-28 | the stripped non-blank paragraphs are non-empty with no whitespace at either end; there are none exactly when every paragraph is blank |
| `Narration.NarrationOfDocument` | streamlit_app.py:42 | a document's narration is its stripped non-blank paragraphs joined by single spaces, whatever its relationships and image names |
| `Narration.NarrationShape` | streamlit_app.py:42 | that narration is empty exactly when every paragraph is blank, and never begins or ends with whitespace |
| `Video.Clips` | streamlit_app.py:54-60 | one clip per block, in block order: a text block becomes a 1280×720 white 40-point caption of its content, an image block becomes its picture at height 720, each lasting 5 seconds |
| `Video.ConcatenatePlaysInOrder` | streamlit_app.py:61 | concatenation places the clips back to back from time zero, with no gap and no overlap, and ends after their total length |
| `Video.PlaysInOrderUnique` | streamlit_app.py:61 | any gap-free, in-order placement of the clips is the concatenation |
| `Video.UniformSpan` | streamlit_app.py:57-61 | five-second clips concatenated: clip i starts at 5 × i and the total is 5 × the number of clips |
| `Video.TimelineOfBlocks` | streamlit_app.py:54-61 | the timeline of a block list has one clip per block depicting it, clip i starts at 5 × i, and the visual track lasts 5 × the number of blocks |
| `Video.BuildTimeline` | streamlit_app.py:53-61 | the clip loop computes a gap-free, in-order timeline of clips depicting the blocks, with clip i at 5 × i, and its length is 5 × the number of blocks |
| `Pipeline.Run` | streamlit_app.py:75-77 | one run: the timeline lasts 5 × (non-blank paragraphs + image relationships), the narration is the stripped non-blank paragraphs joined by spaces, and clip i depicts block i and starts at 5 × i |
| `Pipeline.HelloWorldExample` | streamlit_app.py:75-77 | paragraphs "  Hello ", "" and "World" with a style sheet and one image relationship give `[Text("Hello"), Text("World"), Image(...)]`, the narration "Hello World" and a 15-second timeline |
| `Pipeline.ExampleImageRefs` | streamlit_app.py:31 | of the relationships "styles.xml" and "media/image1.png", only the second contains "image" |

## Left out

- The web UI: page configuration, the file uploader, the spinner, the video player and the download button (streamlit_app.py:17-20, 68-82). These are presentation only.
- Loading the API key and voice id from the secrets store, and creating the `uploads` and `videos` directories (streamlit_app.py:9-15). These are process start-up and file-system I/O.
- Opening and parsing the `.docx` file, and reading the private `_rels` table (streamlit_app.py:23, 29-33). This is done by a foreign library. Its output is taken as two input sequences.
- Image bytes: `target_part.blob` and writing it to disk (streamlit_app.py:32-33, 36-37). These are file I/O. An image block records only the path it is written to.
- `uuid.uuid4()` (streamlit_app.py:34, 48, 64, 71). It is a source of randomness. Image names are injected through `names`. The audio, video and upload file names are not modelled.
- External relationships whose `target_ref` contains "image", such as a hyperlink to an image URL. For these, the document library raises an error when `target_part` is read. That error comes from the library, not from this code, so the model treats every matching relationship as an image.
- The text-to-speech HTTP request, its fixed voice settings (stability 0.5, similarity 0.75) and saving its response (streamlit_app.py:43-51). This is a network client with no status checking. Only the narration text it is sent is modelled.
- `moviepy` rendering: drawing captions, resizing pixels, overlaying the audio track, encoding at 24 fps, and writing the output file (streamlit_app.py:57-65). These are done by a foreign library. Only clip count, order, kind, size parameters and timing are modelled. The audio length is not reconciled with the visual length, and the model does not relate them either.
- What `concatenate_videoclips` does with an empty clip list. That is library-defined. The model gives an empty timeline of length zero.
- `Extraction.ImagePath`: `os.path.join` uses the host platform's separator; the model fixes it to the POSIX `/`, so the Windows form `uploads\<name>.png` is not modelled.
