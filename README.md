# Caption word wrapping of the GPS camera watermark

The GPS camera app stamps a caption onto every photo it takes. The caption
lists the street address, then a `Lat: … Lng: …` line, then a timestamp.
The address is wrapped to the width of the photo by the greedy word
wrapper `breakTextIntoLines`:

- split the address on the space character;
- append each word and one space to a buffer as long as the font metric says
  `buffer + word + " "` is at most `maxWidth` wide;
- otherwise emit the trimmed buffer as a line and restart the buffer with
  that word;
- at the end, emit the buffer if it is not empty.

The project is in four modules:

- `JavaText` (`java_text.dfy`) gives the semantics of the two library calls
  the wrapper uses, `String.split(" ")` and `String.trim()`. `Split` drops
  trailing empty pieces, gives `[s]` for a text without a space (`[""]` for
  the empty text) and gives no word at all for a text made only of spaces.
  `Trim` strips every character up to U+0020 at both ends.
- `LineBreaker` (`line_breaker.dfy`) holds the wrapper. The method
  `BreakTextIntoLines` keeps the source's loop: a buffer string, a list of
  lines, one width test per word. It is proved equal to the function `Wrap`,
  which is built from a fold `Scan` of a single-iteration function `Step`.
  The predicate `IsGreedyLayout` describes the result without reference to
  the loop: every word in exactly one line, in order, every added word passed
  its width test, and every new line was forced by a failed test. The lemmas
  prove that the loop's grouping is greedy, and that it is the only greedy
  grouping.
- `Caption` (`caption.dfy`) holds the caption list of `drawTextAndMapOnImage`:
  the wrapped address lines, then the coordinate line, then the timestamp.
- `Rewrap` (`rewrap.dfy`) relates the wrapper to its own output: what
  happens when the lines are joined with single spaces and wrapped again.

The font metric `Paint.measureText` is a parameter `measure: string -> real`.
Nothing is assumed about it, except in the two lemmas that need it to grow
with its argument; they say so in their preconditions (`Monotone`).

Three behaviours of the code a reader might not expect, all modelled as
written:

- A newline in the address is not a paragraph break. `split(" ")` only cuts
  at spaces, so a `'\n'` stays inside its word (`CharStaysInWord`), and
  `"A B\nC D"` with a wide limit is one line, not two.
- The emitted line is trimmed at both ends, not only at the end. The trim
  removes every character up to U+0020, not only spaces.
- Wrapping the wrapper's own output, joined with single spaces, can give
  different line breaks, even when no word is wider than `maxWidth`. An empty
  word from a double space takes width in the buffer, but the trim and the
  join remove it. With one unit per character and a width of 4, `"a  b"`
  wraps to `"a"` and `"b"`, while `"a b"` fits on one line
  (`RewrapCanMerge`). Re-wrapping is stable when every word is non-empty and
  free of blanks and the first word fits on its own (`RewrapStable`).

## Model

All source paths are under `app/src/main/java/com/example/gpscamera/`; the
table gives them in full.

| member | source | states |
|---|---|---|
| LineBreaker.BreakTextIntoLines | app/src/main/java/com/example/gpscamera/MainActivity.java:328-348 | The loop returns exactly `Wrap(text, measure, maxWidth)`. Its failure counter equals `FailedTests` of the split words, the number of words whose candidate `buffer + word + " "` failed the width test. The number of lines is that count, plus one for the final flush when the split gave at least one word. |
| LineBreaker.LineCount | app/src/main/java/com/example/gpscamera/MainActivity.java:337-346 | The number of wrapped lines is the number of failed width tests, plus one exactly when the split gives at least one word. |
| LineBreaker.GroupsAreGreedy | app/src/main/java/com/example/gpscamera/MainActivity.java:333-346 | The words of the emitted lines, concatenated, are the split words, each once and in order. The last group holds at least one word, and only the first group can be empty. Every word added after another word, and the first word of the first line, passed the width test `measure(buffer + word + " ") <= maxWidth`. Every later line starts with a word that failed that test against the line before. |
| LineBreaker.GreedyLayoutIsUnique | app/src/main/java/com/example/gpscamera/MainActivity.java:337-346 | Any grouping of the words with the properties above is the one the loop produces. The greedy description therefore determines the output completely. |
| LineBreaker.NoLinesIff | app/src/main/java/com/example/gpscamera/MainActivity.java:334-346 | The wrapper returns no line exactly when the text is non-empty and made only of spaces. Any other text, the empty one included, gives at least one line. |
| LineBreaker.FirstWordQuirk | app/src/main/java/com/example/gpscamera/MainActivity.java:335-342 | The first line holds no word exactly when the first word fails the width test on its own. Its text is then `""`, and the first word opens the second line. |
| LineBreaker.LinesAreTrimmed | app/src/main/java/com/example/gpscamera/MainActivity.java:342-346 | There is one line per group of words, and no line starts or ends with a blank character. |
| LineBreaker.LineIsJoinedWords | app/src/main/java/com/example/gpscamera/MainActivity.java:338-346 | Each line is the trim of its words joined by single spaces. Runs of spaces left by empty words between other words stay inside the line. |
| LineBreaker.OversizedWordAlone | app/src/main/java/com/example/gpscamera/MainActivity.java:338-343 | Under a growing metric, a word that does not fit on its own shares its line with no other word. The word is not split; only the trim can remove blank characters at its ends. |
| LineBreaker.LinesFitWhenWordsFit | app/src/main/java/com/example/gpscamera/MainActivity.java:338-346 | Under a growing metric, if every word measures at most `maxWidth` then every emitted line does too. |
| LineBreaker.FinalFlush | app/src/main/java/com/example/gpscamera/MainActivity.java:346 | After the loop the buffer is non-empty exactly when there was a word, and the lines are then the emitted ones plus the trimmed buffer. |
| LineBreaker.StepEffect | app/src/main/java/com/example/gpscamera/MainActivity.java:337-345 | One iteration either appends `word + " "` to the buffer and emits nothing, or emits the trimmed buffer and restarts the buffer as `word + " "`, depending on the width test of `buffer + word + " "`. |
| JavaText.SplitWords | app/src/main/java/com/example/gpscamera/MainActivity.java:334 | No word contains a space. A text without a space is its own only word. When the text has a space, the last word is not empty. |
| JavaText.SplitRoundTrip | app/src/main/java/com/example/gpscamera/MainActivity.java:334 | Joining the words with single spaces gives back the text without its trailing spaces. Consecutive spaces give empty words, and only the trailing empty words are dropped. |
| JavaText.SplitEmptyIff | app/src/main/java/com/example/gpscamera/MainActivity.java:334 | `split(" ")` yields no word exactly when the text is non-empty and made only of spaces. |
| JavaText.CharStaysInWord | app/src/main/java/com/example/gpscamera/MainActivity.java:334 | Every character of the text other than the space, a newline included, lies inside one of the words. |
| JavaText.TrimIsSlice | app/src/main/java/com/example/gpscamera/MainActivity.java:342 | `trim()` returns a slice of the buffer that neither starts nor ends with a blank, and only blanks lie outside that slice. |
| JavaText.TrimKeepsInterior | app/src/main/java/com/example/gpscamera/MainActivity.java:342 | A string that neither starts nor ends with a blank is its own trim. |
| JavaText.TrimIgnoresTrailingBlank | app/src/main/java/com/example/gpscamera/MainActivity.java:346 | Appending a blank does not change the trim, so the trailing space after the last word never reaches a line. |
| Caption.CaptionLines | app/src/main/java/com/example/gpscamera/MainActivity.java:246-253 | The caption list is the address wrapped to the bitmap width less twice the 40-pixel padding, line by line in order, followed by exactly two entries: `"Lat: " + lat + "  Lng: " + lng`, then the timestamp. The list has just those two entries exactly when the address is non-empty and made only of spaces. |
| Caption.CaptionLength | app/src/main/java/com/example/gpscamera/MainActivity.java:246-253 | The same length fact stated on `Wrap`: the wrapped lines plus the two trailing entries number exactly two when the address is non-empty and made only of spaces, and more otherwise. |
| Rewrap.RewrapCanMerge | app/src/main/java/com/example/gpscamera/MainActivity.java:334-346 | For the text `"a  b"`, with one unit per character and a width of 4, every word fits, the wrapper gives `["a", "b"]`, and wrapping their join `"a b"` gives `["a b"]`. The empty word from the double space takes width in the buffer (338-340), and the trim removes it from the line (342, 346). |
| Rewrap.RewrapStable | app/src/main/java/com/example/gpscamera/MainActivity.java:333-346 | If every word is non-empty and free of blank characters, and the first word fits on its own, then wrapping the lines joined with single spaces gives the same lines. |
| Rewrap.SplitOfJoin | app/src/main/java/com/example/gpscamera/MainActivity.java:334 | Splitting non-empty, blank-free words joined with single spaces gives back exactly those words. |

## Left out

- `Paint.measureText` works in `float` and compares against `maxWidth` widened to `float`. The model uses an arbitrary real-valued metric and an exact comparison, so float rounding is not modelled.
- OversizedWordAlone: stated only for a metric that never shrinks when text is added. The source assumes nothing about the metric, and for an arbitrary metric a wide word can share a line.
- LinesFitWhenWordsFit: stated only for a metric that never shrinks when text is added, for the same reason.
- `Double.toString` of the coordinates and the `SimpleDateFormat` timestamp (MainActivity.java:241-244, 252) are library formatting and depend on the locale. They are opaque string parameters.
- Bitmap decoding, the `Canvas` and `Paint` drawing, the panel and map-inset geometry in `float`, and the JPEG write-back (MainActivity.java:224-239, 255-304) are Android graphics calls and float arithmetic.
- The `catch (Exception ignored)` around the drawing is not modelled, because no modelled operation throws.
- `downloadStaticMap` (network I/O), `saveImageToGallery` (MediaStore and stream I/O) and `fixFrontCameraMirror` (a library matrix flip) are not part of this model.
- The camera and permission UI, the capture callback and its thread, `LocationHelper.java` and `ImageUtil.java` are platform plumbing and are not part of this model.
