/** The state the main loop keeps in module globals, and what each input
    event, each frame's cursor-blink update and each frame's text layout do
    to it. Drawing, the spinner, the generation threads and speech are not
    part of this model: a launched request is returned to the caller.
    `loading` is written only by those threads, so after construction it is an input;
    `verseLines` is replaced by the threads and cleared by an accepted Enter. */
module Ui {
  import opened Text
  import opened Scroll
  import opened Layout
  import opened Geometry

  datatype Option<T> = None | Some(value: T)

  /** The two generators a topic can be sent to. */
  datatype Mode = EduPoem | GenZTypeShii

  /** The keys the loop tells apart; every other key is Other. */
  datatype Key = Return | Backspace | Up | Down | Other

  /** A generator thread started for a topic. */
  datatype Request = Request(mode: Mode, topic: string)

  /** Milliseconds between two toggles of the text cursor. */
  const BlinkInterval: int := 500

  /** Enter submits the topic only when no request is loading and the topic
      is not blank. */
  predicate Submits(key: Key, loading: bool, text: string)
  {
    key == Return && !loading && Strip(text) != ""
  }

  class App {
    var running: bool
    /** The topic typed so far. */
    var text: string
    /** Whether the input box has the keyboard focus. */
    var active: bool
    var modelSelected: Mode
    /** Set and cleared by the generation threads. */
    var loading: bool
    /** The response lines: replaced by the generation threads, cleared by an
        accepted Enter. */
    var verseLines: seq<string>
    var scrollOffset: int
    var contentHeight: int
    var cursorTimer: int
    var showCursor: bool

    ghost predicate Valid()
      reads this
    {
      && 0 <= cursorTimer < BlinkInterval
      && 0 <= contentHeight
      && contentHeight % LineHeight == 0
    }

    constructor ()
      ensures Valid()
      ensures running && text == "" && !active && modelSelected == EduPoem
      ensures !loading && verseLines == [] && scrollOffset == 0 && contentHeight == 0
      ensures cursorTimer == 0 && showCursor
    {
      running := true;
      text := "";
      active := false;
      modelSelected := EduPoem;
      loading := false;
      verseLines := [];
      scrollOffset := 0;
      contentHeight := 0;
      cursorTimer := 0;
      showCursor := true;
    }

    /** The window's close event ends the loop. */
    method Quit()
      modifies this`running
      ensures !running
    {
      running := false;
    }

    /** A mouse click: a click on a mode button selects that mode, and the
      input box has the focus afterwards exactly when the click was inside it. */
    method MouseDown(pos: Point)
      modifies this`modelSelected, this`active
      ensures active <==> InputBox.Contains(pos)
      ensures EduPoemButton().Contains(pos) ==> modelSelected == EduPoem
      ensures GenZButton().Contains(pos) ==> modelSelected == GenZTypeShii
      ensures !EduPoemButton().Contains(pos) && !GenZButton().Contains(pos) ==> modelSelected == old(modelSelected)
    {
      ButtonsDisjoint(pos);
      if EduPoemButton().Contains(pos) {
        modelSelected := EduPoem;
      } else if GenZButton().Contains(pos) {
        modelSelected := GenZTypeShii;
      }
      if InputBox.Contains(pos) {
        active := true;
      } else {
        active := false;
      }
    }

    /** A key press. Without the focus nothing changes. With it, an accepted
      Enter clears the topic, the response and the scroll offset and launches
      exactly one request for the selected mode with the old topic; Backspace
      drops the last character; Up and Down scroll; anything else, a rejected
      Enter included, appends the key's character to the topic. */
    method KeyDown(key: Key, unicode: string) returns (launch: Option<Request>)
      requires Valid()
      modifies this`text, this`verseLines, this`scrollOffset
      ensures Valid()
      ensures launch.Some? <==> old(active) && Submits(key, loading, old(text))
      ensures launch.Some? ==> launch.value == Request(modelSelected, old(text)) && Strip(launch.value.topic) != ""
      ensures !old(active) ==> text == old(text) && verseLines == old(verseLines) && scrollOffset == old(scrollOffset)
      ensures launch.Some? ==> text == "" && verseLines == [] && scrollOffset == 0
      ensures old(active) && launch.None? ==>
        verseLines == old(verseLines) &&
        match key
        case Backspace => text == DropLast(old(text)) && scrollOffset == old(scrollOffset)
        case Up => text == old(text) && scrollOffset == ScrollUp(old(scrollOffset))
        case Down => text == old(text) && scrollOffset == ScrollDown(old(scrollOffset), contentHeight)
        case _ => text == old(text) + unicode && scrollOffset == old(scrollOffset)
    {
      launch := None;
      if active {
        if key == Return && !loading && Strip(text) != "" {
          verseLines := [];
          scrollOffset := 0;
          launch := Some(Request(modelSelected, text));
          text := "";
        } else if key == Backspace {
          text := DropLast(text);
        } else if key == Up {
          scrollOffset := ScrollUp(scrollOffset);
        } else if key == Down {
          scrollOffset := ScrollDown(scrollOffset, contentHeight);
        } else {
          text := text + unicode;
        }
      }
    }

    /** A mouse-wheel event, handled whether or not the input box has the
      focus: `notches` steps (positive scrolls the text down), then the clamp. */
    method MouseWheel(notches: int)
      modifies this`scrollOffset
      ensures scrollOffset == Wheel(old(scrollOffset), notches, contentHeight)
    {
      scrollOffset := Wheel(scrollOffset, notches, contentHeight);
    }

    /** The once-per-frame cursor blink: the milliseconds since the previous
      frame accumulate, and the cursor toggles on exactly the frames where the
      sum reaches the blink interval, which restarts it from 0. */
    method Tick(elapsed: int)
      requires Valid()
      requires elapsed >= 0
      modifies this`cursorTimer, this`showCursor
      ensures Valid()
      ensures old(cursorTimer) + elapsed >= BlinkInterval ==> cursorTimer == 0 && showCursor == !old(showCursor)
      ensures old(cursorTimer) + elapsed < BlinkInterval ==> cursorTimer == old(cursorTimer) + elapsed && showCursor == old(showCursor)
    {
      cursorTimer := cursorTimer + elapsed;
      if cursorTimer >= BlinkInterval {
        cursorTimer := 0;
        showCursor := !showCursor;
      }
    }

    /** The text part of a frame: while a request is loading only the spinner
      is drawn and nothing changes; otherwise the response is laid out and
      content_height becomes the height of all its segments. */
    method Render(measure: string -> int) returns (rendered: seq<Placed>)
      requires Valid()
      modifies this`contentHeight
      ensures Valid()
      ensures loading ==> contentHeight == old(contentHeight) && rendered == []
      ensures !loading ==> Stacked(rendered, Segments(verseLines, measure), OutputY + scrollOffset + TextTop)
      ensures !loading ==> contentHeight == LineHeight * |Segments(verseLines, measure)|
    {
      rendered := [];
      if !loading {
        rendered, contentHeight := RenderLines(verseLines, scrollOffset, measure);
      }
    }
  }
}
