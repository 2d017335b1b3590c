/** The list of caption lines that `drawTextAndMapOnImage` stamps onto the
    photo: the wrapped address, then the coordinate line, then the
    timestamp. The numbers and the date arrive already formatted
    (`Double.toString` and `SimpleDateFormat` are library code), so they are
    opaque strings here. */
module Caption {
  import opened JavaText
  import opened LineBreaker

  /** The fixed inner margin in pixels (`int padding = 40`); the address is
      wrapped to the bitmap width minus this margin on both sides. */
  const Padding: int := 40

  /** The wrap width used for the address. */
  function WrapWidth(bitmapWidth: int): int {
    bitmapWidth - Padding * 2
  }

  /** `"Lat: " + lat + "  Lng: " + lng`, with the two numbers as text. */
  function CoordinateLine(latText: string, lngText: string): string {
    "Lat: " + latText + "  Lng: " + lngText
  }

  /** The caption list: every wrapped address line in order, then exactly two
      more entries, the coordinate line and the timestamp, neither of which is
      wrapped. The list holds only those two entries exactly when the address
      is made only of spaces (and is not empty). */
  method CaptionLines(address: string, measure: string -> real, bitmapWidth: int,
                      latText: string, lngText: string, time: string)
    returns (lines: seq<string>)
    ensures lines == Wrap(address, measure, WrapWidth(bitmapWidth)) + [CoordinateLine(latText, lngText), time]
    ensures |lines| == 2 <==> address != [] && AllSpaces(address)
  {
    lines := [];
    var wrapped;
    ghost var failures;
    wrapped, failures := BreakTextIntoLines(address, measure, WrapWidth(bitmapWidth));
    lines := lines + wrapped;
    var coordinates := CoordinateLine(latText, lngText);
    lines := lines + [coordinates];
    lines := lines + [time];
    Appended(wrapped, coordinates, time);
    NoLinesIff(address, measure, WrapWidth(bitmapWidth));
  }

  /** Adding to the empty list the wrapped lines, then one entry, then
      another, gives the wrapped lines followed by those two entries. */
  lemma Appended(wrapped: seq<string>, a: string, b: string)
    ensures [] + wrapped + [a] + [b] == wrapped + [a, b]
  {
  }

  /** The caption length stated on the wrapped lines, for callers that
      reason about `Wrap` rather than the list: this is `NoLinesIff` with the
      two trailing entries added. */
  lemma CaptionLength(address: string, measure: string -> real, bitmapWidth: int)
    ensures var n := |Wrap(address, measure, WrapWidth(bitmapWidth))| + 2;
      n == 2 <==> address != [] && AllSpaces(address)
  {
    NoLinesIff(address, measure, WrapWidth(bitmapWidth));
  }
}
