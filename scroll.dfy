/** Scrolling of the output panel: the offset (in pixels) added to the y of
    every rendered line, moved by the Up and Down keys and the mouse wheel. */
module Scroll {

  /** Height of the output panel. */
  const OutputHeight: int := 280
  /** Pixels one key press or one wheel notch moves the text. */
  const ScrollStep: int := 30

  /** The Up key: move the text down by one step, never past offset 0.
      There is no lower bound here. */
  function ScrollUp(offset: int): (r: int)
    ensures r <= 0
    ensures offset + ScrollStep <= 0 ==> r == offset + ScrollStep
    ensures offset + ScrollStep > 0 ==> r == 0
  {
    if offset + ScrollStep < 0 then offset + ScrollStep else 0
  }

  /** The clamp applied after Down and the wheel, as written:
      max(min(offset, 0), content_height - output_height). Its lower bound is
      the amount by which the content is taller than the panel, with the sign
      it has, so for tall content it is positive. */
  function Clamp(offset: int, contentHeight: int): (r: int)
    ensures r >= contentHeight - OutputHeight
    ensures r <= 0 <==> contentHeight <= OutputHeight
    ensures contentHeight - OutputHeight <= offset <= 0 ==> r == offset
  {
    var upper := if offset < 0 then offset else 0;
    if upper < contentHeight - OutputHeight then contentHeight - OutputHeight else upper
  }

  /** The Down key: move the text up one step, then clamp. */
  function ScrollDown(offset: int, contentHeight: int): (r: int)
    ensures r >= contentHeight - OutputHeight
    ensures r <= 0 <==> contentHeight <= OutputHeight
    ensures contentHeight - OutputHeight <= offset - ScrollStep <= 0 ==> r == offset - ScrollStep
  {
    Clamp(offset - ScrollStep, contentHeight)
  }

  /** The mouse wheel: move by `notches` steps (positive moves the text down),
      then clamp. */
  function Wheel(offset: int, notches: int, contentHeight: int): (r: int)
    ensures r >= contentHeight - OutputHeight
    ensures r <= 0 <==> contentHeight <= OutputHeight
    ensures contentHeight - OutputHeight <= offset + notches * ScrollStep <= 0 ==> r == offset + notches * ScrollStep
  {
    Clamp(offset + notches * ScrollStep, contentHeight)
  }

  /** Twenty wrapped lines (520 px) in the 280 px panel, offset 0: one press of
      Down leaves the offset at +240, pushing the text down out of view
      instead of scrolling it up. */
  lemma DownOnTallContent()
    ensures ScrollDown(0, 20 * 26) == 240
  {
  }

  /** For content taller than the panel the as-written clamp never yields an
      offset inside [-(content_height - output_height), 0]: every result is
      positive. */
  lemma ClampPushesTallContentDown(offset: int, contentHeight: int)
    requires contentHeight > OutputHeight
    ensures Clamp(offset, contentHeight) > 0
  {
  }

  /** The lowest offset at which the content still fills the panel: the
      negated overflow, or 0 when the content fits. */
  function MinOffset(contentHeight: int): (r: int)
    ensures r <= 0
    ensures r + contentHeight >= OutputHeight || r == 0
  {
    if contentHeight > OutputHeight then OutputHeight - contentHeight else 0
  }

  /** The clamp as evidently intended: keep the offset in
      [MinOffset(content_height), 0], so the top of the text never comes below
      the top of the panel and the bottom of tall text never rises above the
      bottom of the panel. */
  function ClampIntended(offset: int, contentHeight: int): (r: int)
    ensures MinOffset(contentHeight) <= r <= 0
    ensures MinOffset(contentHeight) <= offset <= 0 ==> r == offset
    ensures r + contentHeight >= (if contentHeight < OutputHeight then contentHeight else OutputHeight)
    ensures offset < MinOffset(contentHeight) ==> r == MinOffset(contentHeight)
    ensures offset > 0 ==> r == 0
  {
    var upper := if offset < 0 then offset else 0;
    if upper < MinOffset(contentHeight) then MinOffset(contentHeight) else upper
  }

  /** The intended clamp is idempotent: applying it to an offset it produced
      changes nothing. */
  lemma ClampIntendedStable(offset: int, contentHeight: int)
    ensures ClampIntended(ClampIntended(offset, contentHeight), contentHeight) == ClampIntended(offset, contentHeight)
  {
  }
}
