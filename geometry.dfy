/** Window geometry: the rectangles that mouse clicks are checked against. */
module Geometry {

  datatype Point = Point(x: int, y: int)

  /** An axis-aligned rectangle; it contains the points of the half-open box
      [left, left + width) x [top, top + height), as pygame's collidepoint does. */
  datatype Rect = Rect(left: int, top: int, width: int, height: int)
  {
    predicate Contains(p: Point) {
      left <= p.x < left + width && top <= p.y < top + height
    }
  }

  const WindowWidth: int := 720
  const ButtonWidth: int := 200
  const ButtonHeight: int := 40
  const ButtonTop: int := 70

  /** The text input box, as clicks are checked against it. */
  const InputBox: Rect := Rect(60, 125, 600, 45)

  /** The EduPoem button: left of the pair, which is laid out as if it were
      two buttons and a 20 px gap wide, centred in the window. */
  function EduPoemButton(): Rect
  {
    var totalWidth := ButtonWidth * 2 + 20;
    Rect(WindowWidth / 2 - totalWidth / 2, ButtonTop, ButtonWidth, ButtonHeight)
  }

  /** The "GenZ Type Shii" button: 10 px right of the EduPoem button. */
  function GenZButton(): Rect
  {
    var edu := EduPoemButton();
    Rect(edu.left + ButtonWidth + 10, ButtonTop, ButtonWidth, ButtonHeight)
  }

  /** The two mode buttons sit side by side inside the window, 10 px apart,
      so no click hits both, and neither overlaps the input box. */
  lemma ButtonsDisjoint(p: Point)
    ensures EduPoemButton().left >= 0 && GenZButton().left + GenZButton().width <= WindowWidth
    ensures GenZButton().left == EduPoemButton().left + EduPoemButton().width + 10
    ensures !(EduPoemButton().Contains(p) && GenZButton().Contains(p))
    ensures EduPoemButton().Contains(p) ==> !InputBox.Contains(p)
    ensures GenZButton().Contains(p) ==> !InputBox.Contains(p)
  {
  }
}
