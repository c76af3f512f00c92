/**
 * FeedbackDialog as an object whose event handlers update its fields in place.
 * Each handler is proved to move the dialog exactly as DialogSpec says.
 */
module DialogWidget {
  import opened Base
  import opened PyText
  import opened Countdown
  import opened DialogSpec

  class FeedbackDialog {
    var text: string
    var images: seq<StagedImage>
    var remaining: int
    var timerPending: bool
    var countdown: Label
    var results: seq<DialogResult>
    var closed: bool

    function State(): Dialog
      reads this
    {
      Dialog(text, images, remaining, timerPending, countdown, results, closed)
    }

    ghost predicate Valid()
      reads this
    {
      Inv(State())
    }

    /** `__init__` followed by the part of `create_widgets` that fills the text box and the countdown label. */
    constructor (timeoutSeconds: int)
      ensures Valid() && State() == Open(timeoutSeconds)
    {
      text := Placeholder;
      images := [];
      remaining := timeoutSeconds;
      timerPending := false;
      countdown := InitialLabel(timeoutSeconds);
      results := [];
      closed := false;
    }

    /** `start_countdown`. */
    method StartCountdown(now: string)
      requires Valid() && !closed
      modifies this
      ensures Valid() && State() == DialogSpec.UpdateCountdown(old(State()), now)
      decreases 1, 2
    {
      UpdateCountdown(now);
    }

    /** `update_countdown`. */
    method UpdateCountdown(now: string)
      requires Valid() && !closed
      modifies this
      ensures Valid() && State() == DialogSpec.UpdateCountdown(old(State()), now)
      decreases 1, 1
    {
      if remaining <= 0 {
        AutoSubmitOnTimeout(now);
        return;
      }
      countdown := CountdownLabel(remaining);
      remaining := remaining - 1;
      timerPending := true;
    }

    /** Tk runs the `update_countdown` that `after(1000, ...)` scheduled. */
    method OnTimer(now: string)
      requires Valid() && !closed && timerPending
      modifies this
      ensures Valid() && State() == DialogSpec.OnTimer(old(State()), now)
    {
      timerPending := false;
      UpdateCountdown(now);
    }

    /** `auto_submit_on_timeout`. */
    method AutoSubmitOnTimeout(now: string)
      requires Valid() && !closed
      modifies this
      ensures Valid() && State() == DialogSpec.AutoSubmitOnTimeout(old(State()), now)
      decreases 1, 0
    {
      ghost var d0 := State();
      if Strip(WidgetText(text)) == Placeholder {
        text := "";
      }
      AutoSubmitSteps(d0, now);
      ghost var d1 := d0.(text := AutoTimeoutMessage + text, countdown := TimedOutLabel);
      text := AutoTimeoutMessage + text;
      countdown := TimedOutLabel;
      assert State() == d1;
      SubmitFeedback(now);
    }

    /** `submit_feedback`; the result dictionary it enqueues is `FeedbackOf` the state it starts from. */
    method SubmitFeedback(now: string)
      requires Valid() && !closed
      modifies this
      ensures Valid() && State() == DialogSpec.SubmitFeedback(old(State()), now)
      decreases EmptyRank(State()), 3
    {
      var d0 := State();
      timerPending := false;
      if !HasContent(d0) {
        SubmitRestarts(d0, now);
        StartCountdown(now);
        return;
      }
      SubmitEnqueues(d0, now);
      results := results + [FeedbackOf(d0, now)];
      closed := true;
    }

    /** `cancel`. */
    method Cancel()
      requires Valid() && !closed
      modifies this
      ensures Valid() && State() == DialogSpec.Cancel(old(State()))
    {
      timerPending := false;
      results := results + [Cancelled(CancelMessage)];
      closed := true;
    }

    /** `clear_placeholder`. */
    method ClearPlaceholder()
      requires Valid() && !closed
      modifies this
      ensures Valid() && State() == DialogSpec.ClearPlaceholder(old(State()))
    {
      if Strip(WidgetText(text)) == Placeholder {
        text := "";
      }
    }

    /** `select_image_file`, given what reading each chosen file gave. */
    method SelectImageFiles(files: seq<FileLoad>)
      requires Valid() && !closed
      modifies this
      ensures Valid() && State() == DialogSpec.SelectImageFiles(old(State()), files)
    {
      var i := 0;
      while i < |files|
        invariant 0 <= i <= |files|
        invariant State() == old(State()).(images := old(images) + StagedFiles(files[..i]))
      {
        match files[i] {
          case Loaded(name, data, w, h) =>
            images := images + [StagedImage(data, FileSourcePrefix + name, w, h)];
          case Unreadable(_) =>
        }
        i := i + 1;
        assert files[..i][..i - 1] == files[..i - 1];
      }
      assert files[..|files|] == files;
    }

    /** `paste_handler`; the result says whether it returned "break". */
    method PasteHandler(clip: Clipboard, cursor: nat) returns (consumed: bool)
      requires Valid() && !closed
      modifies this
      ensures Valid() && (State(), consumed) == DialogSpec.PasteHandler(old(State()), clip, cursor)
    {
      match clip
      case ClipboardImage(png, w, h) =>
        images := images + [StagedImage(png, ClipboardSource, w, h)];
        return true;
      case ClipboardText(s) =>
        if s != "" {
          if Strip(WidgetText(text)) == Placeholder {
            text := "";
          }
          var at := if cursor <= |text| then cursor else |text|;
          text := text[..at] + s + text[at..];
          return true;
        }
        return false;
      case ClipboardError =>
        return false;
    }

    /** `paste_from_clipboard`, the paste button. */
    method PasteFromClipboard(clip: Clipboard, cursor: nat)
      requires Valid() && !closed
      modifies this
      ensures Valid() && State() == DialogSpec.PasteHandler(old(State()), clip, cursor).0
    {
      var _ := PasteHandler(clip, cursor);
    }

    /** `clear_all_images`. */
    method ClearAllImages()
      requires Valid() && !closed
      modifies this
      ensures Valid() && State() == DialogSpec.ClearAllImages(old(State()))
    {
      images := [];
    }

    /** `remove_image`. */
    method RemoveImage(index: int)
      requires Valid() && !closed
      modifies this
      ensures Valid() && State() == DialogSpec.RemoveImage(old(State()), index)
    {
      if 0 <= index < |images| {
        images := images[..index] + images[index + 1..];
      }
    }
  }
}
