/** Layout of the response text in the output panel: every non-blank line,
    stripped, is wrapped to the panel width and its segments are stacked one
    line height apart, starting below the panel's top edge and shifted by the
    scroll offset. */
module Layout {
  import opened Text
  import opened WordWrap

  /** Top edge of the output panel. */
  const OutputY: int := 190
  /** Width of the output panel. */
  const OutputWidth: int := 600
  /** Horizontal padding subtracted from the panel width before wrapping. */
  const Padding: int := 20
  /** Distance from the panel's top edge to the first line of text. */
  const TextTop: int := 23
  /** Vertical distance between consecutive rendered segments. */
  const LineHeight: int := 26

  /** The width wrap_text is given. */
  const WrapWidth: int := OutputWidth - Padding

  /** One rendered segment and the y at which it is drawn. */
  datatype Placed = Placed(segment: string, y: int)

  /** The segments one response line contributes: none when it is blank,
      otherwise the wrapped lines of its stripped text. */
  function LineSegments(line: string, measure: string -> int): seq<string>
  {
    var stripped := Strip(line);
    if stripped != "" then Wrap(stripped, measure, WrapWidth) else []
  }

  /** LineSegments as a function of the line alone, for one font. */
  function Pieces(measure: string -> int): string -> seq<string>
  {
    line => LineSegments(line, measure)
  }

  /** The pieces `pieces` gives each of `lines`, concatenated in order. */
  function Flatten(lines: seq<string>, pieces: string -> seq<string>): seq<string>
    decreases |lines|
  {
    if lines == [] then []
    else Flatten(lines[..|lines| - 1], pieces) + pieces(lines[|lines| - 1])
  }

  /** The segments of all response lines, in order. */
  function Segments(lines: seq<string>, measure: string -> int): seq<string>
  {
    Flatten(lines, Pieces(measure))
  }

  /** `rendered` holds `segments` in order, the k-th at y = top + k line heights. */
  predicate Stacked(rendered: seq<Placed>, segments: seq<string>, top: int)
  {
    && |rendered| == |segments|
    && forall k :: 0 <= k < |rendered| ==> rendered[k] == Placed(segments[k], top + LineHeight * k)
  }

  /** One more response line adds its own segments at the end. */
  lemma SegmentsStep(lines: seq<string>, i: nat, measure: string -> int)
    requires i < |lines|
    ensures Segments(lines[..i + 1], measure) == Segments(lines[..i], measure) + LineSegments(lines[i], measure)
  {
    assert lines[..i + 1][..i] == lines[..i];
    assert Pieces(measure)(lines[i]) == LineSegments(lines[i], measure);
  }

  /** Placing one more segment one line height below the last keeps the stack. */
  lemma StackedPush(rendered: seq<Placed>, segments: seq<string>, top: int, segment: string)
    requires Stacked(rendered, segments, top)
    ensures Stacked(rendered + [Placed(segment, top + LineHeight * |rendered|)], segments + [segment], top)
  {
  }

  /** The inner loop of the layout: the wrapped segments of one line are
      placed, one line height apart, below those already placed. */
  method PlaceSegments(rendered: seq<Placed>, contentHeight: int, segments: seq<string>, ghost done: seq<string>, top: int)
    returns (placed: seq<Placed>, height: int)
    requires Stacked(rendered, done, top) && contentHeight == LineHeight * |rendered|
    ensures Stacked(placed, done + segments, top) && height == LineHeight * |placed|
  {
    placed, height := rendered, contentHeight;
    for j := 0 to |segments|
      invariant Stacked(placed, done + segments[..j], top)
      invariant height == LineHeight * |placed|
    {
      StackedPush(placed, done + segments[..j], top, segments[j]);
      assert (done + segments[..j]) + [segments[j]] == done + segments[..j + 1];
      placed := placed + [Placed(segments[j], top + height)];
      height := height + LineHeight;
    }
    assert segments[..|segments|] == segments;
  }

  /** The rendering branch of the main loop when no request is loading: it
      builds the list of placed segments and recomputes content_height. */
  method RenderLines(lines: seq<string>, scrollOffset: int, measure: string -> int)
    returns (rendered: seq<Placed>, contentHeight: int)
    ensures Stacked(rendered, Segments(lines, measure), OutputY + scrollOffset + TextTop)
    ensures contentHeight == LineHeight * |Segments(lines, measure)|
  {
    var top := OutputY + scrollOffset + TextTop;
    contentHeight := 0;
    rendered := [];
    for i := 0 to |lines|
      invariant Stacked(rendered, Segments(lines[..i], measure), top)
      invariant contentHeight == LineHeight * |rendered|
    {
      SegmentsStep(lines, i, measure);
      var stripped := Strip(lines[i]);
      if stripped != "" {
        var wrapped := WrapText(stripped, measure, WrapWidth);
        rendered, contentHeight := PlaceSegments(rendered, contentHeight, wrapped, Segments(lines[..i], measure), top);
      }
    }
    assert lines[..|lines|] == lines;
  }

  /** Flattening one more line appends that line's pieces. */
  lemma FlattenSnoc(xs: seq<string>, x: string, pieces: string -> seq<string>)
    ensures Flatten(xs + [x], pieces) == Flatten(xs, pieces) + pieces(x)
  {
    assert (xs + [x])[..|xs|] == xs;
  }

  /** Flattening a concatenation concatenates the flattened parts. */
  lemma {:induction false} FlattenAppend(a: seq<string>, b: seq<string>, pieces: string -> seq<string>)
    ensures Flatten(a + b, pieces) == Flatten(a, pieces) + Flatten(b, pieces)
    decreases |b|
  {
    if b == [] {
      assert a + b == a;
    } else {
      var init, last := b[..|b| - 1], b[|b| - 1];
      assert b == init + [last];
      assert a + b == (a + init) + [last];
      FlattenAppend(a, init, pieces);
      FlattenSnoc(a + init, last, pieces);
      FlattenSnoc(init, last, pieces);
    }
  }

  /** A line that gives no pieces can be dropped from the list. */
  lemma FlattenSkip(before: seq<string>, line: string, after: seq<string>, pieces: string -> seq<string>)
    requires pieces(line) == []
    ensures Flatten(before + [line] + after, pieces) == Flatten(before + after, pieces)
  {
    FlattenAppend(before + [line], after, pieces);
    FlattenAppend(before, [line], pieces);
    FlattenAppend(before, after, pieces);
    assert [line][..0] == [];
  }

  /** A blank response line contributes nothing: removing it changes neither
      the segments nor, therefore, content_height or any y position. */
  lemma BlankLineIgnored(before: seq<string>, blank: string, after: seq<string>, measure: string -> int)
    requires AllSpace(blank)
    ensures Segments(before + [blank] + after, measure) == Segments(before + after, measure)
  {
    assert Pieces(measure)(blank) == [];
    FlattenSkip(before, blank, after, Pieces(measure));
  }

  /** A single line's segments: with well-spaced stripped text, joining them
      back with single spaces gives the stripped line, so no word is lost or
      reordered by the layout. */
  lemma LineSegmentsCover(line: string, measure: string -> int)
    requires WellSpaced(Strip(line))
    ensures Join(NonBlank(LineSegments(line, measure))) == Strip(line)
  {
    Coverage(Strip(line), measure, WrapWidth);
  }

  /** Every non-blank response line gives at least one segment; a single
      segment is the whole stripped line and fits the wrap width, so a line
      wider than the panel is always split over several segments. */
  lemma LineSegmentsOverlong(line: string, measure: string -> int)
    requires Strip(line) != ""
    ensures |LineSegments(line, measure)| >= 1
    ensures |LineSegments(line, measure)| == 1 ==>
      LineSegments(line, measure) == [Strip(line)] && measure(Strip(line)) <= WrapWidth
    ensures measure(Strip(line)) > WrapWidth ==> |LineSegments(line, measure)| >= 2
  {
    var stripped := Strip(line);
    assert IsSpace(stripped[0]) == false && IsSpace(stripped[|stripped| - 1]) == false;
    Overlong(stripped, measure, WrapWidth);
  }
}
