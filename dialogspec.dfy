/**
 * The state machine inside FeedbackDialog (src/mcp_feedback_collector/server.py),
 * separated from the Tk widgets, as functions from one dialog state to the next.
 *
 * The feedback Text widget is the string `text`: its content without the newline
 * Tk keeps at the end, so `text_widget.get(1.0, tk.END)` is `text + "\n"`.
 * `results` is what has been put on `result_queue`; `closed` records
 * `root.destroy()`; `timerPending` says whether an `after(1000, update_countdown)`
 * call is scheduled and not cancelled.
 */
module DialogSpec {
  import opened Base
  import opened PyText
  import opened Countdown

  const Placeholder: string := "请在此输入您的反馈、建议或问题..."
  /** The message auto-submission puts in front of the text (written in pieces split after its commas). */
  const AutoTimeoutMessage: string :=
    "由于我现在有些忙," + "不能立即回复你," + "继续调用mcp-feedback-collector进行反馈," + "直到我主动回复你其他内容"
  const CancelMessage: string := "用户取消了反馈提交"
  const ClipboardSource: string := "剪贴板"
  const FileSourcePrefix: string := "文件: "

  /** One entry of `selected_images` (the PIL image object itself is not modelled). */
  datatype StagedImage = StagedImage(data: Bytes, source: string, width: nat, height: nat)

  /** What reading one chosen file gives: its bytes and PIL size, or a failure to open or decode it. */
  datatype FileLoad =
    | Loaded(name: string, data: Bytes, width: nat, height: nat)
    | Unreadable(name: string)

  /**
   * What the clipboard yields to the paste handler: an image (already re-encoded
   * as PNG), text (possibly empty), or something that raises on the way
   * (an unrecognised format, a file list, an empty clipboard).
   */
  datatype Clipboard =
    | ClipboardImage(png: Bytes, width: nat, height: nat)
    | ClipboardText(content: string)
    | ClipboardError

  /** The dictionaries put on `result_queue`; the timestamp is `datetime.now().isoformat()`. */
  datatype DialogResult =
    | Feedback(textFeedback: Option<string>, images: Option<seq<Bytes>>, imageSources: Option<seq<string>>,
               hasText: bool, hasImages: bool, imageCount: nat, timestamp: string)
    | Cancelled(message: string)
  {
    /** `result['success']`. */
    predicate Success()
    {
      Feedback?
    }

    /**
     * The fields of a successful result agree with each other: text is present
     * exactly when `has_text`, and both image lists are present exactly when
     * `has_images`, each `image_count` long.
     */
    predicate Consistent()
    {
      Feedback? ==>
        (hasText <==> textFeedback.Some?) && (hasImages <==> imageCount > 0) &&
        (hasImages <==> images.Some?) && (hasImages <==> imageSources.Some?) &&
        (hasImages ==> |images.value| == imageCount && |imageSources.value| == imageCount)
    }
  }

  datatype Dialog = Dialog(
    text: string,
    images: seq<StagedImage>,
    remaining: int,
    timerPending: bool,
    countdown: Label,
    results: seq<DialogResult>,
    closed: bool)

  /** The dialog once `__init__` and `create_widgets` have run, before the countdown starts. */
  function Open(timeoutSeconds: int): Dialog
  {
    Dialog(Placeholder, [], timeoutSeconds, false, InitialLabel(timeoutSeconds), [], false)
  }

  /** `text_widget.get(1.0, tk.END)`. */
  function WidgetText(text: string): string
  {
    text + "\n"
  }

  /** The test every handler uses to recognise the placeholder. */
  predicate ShowsPlaceholder(text: string)
  {
    Strip(WidgetText(text)) == Placeholder
  }

  /** The `text_content` that `submit_feedback` takes from the widget. */
  function SubmittedText(text: string): string
  {
    var content := Strip(WidgetText(text));
    if content == Placeholder then "" else content
  }

  predicate HasContent(d: Dialog)
  {
    SubmittedText(d.text) != "" || d.images != []
  }

  /** Orders submit, tick and auto-submit, which call each other (see SubmitFeedback). */
  function EmptyRank(d: Dialog): nat
  {
    if HasContent(d) then 0 else 1
  }

  function ImageData(images: seq<StagedImage>): (r: seq<Bytes>)
    ensures |r| == |images| && forall k | 0 <= k < |images| :: r[k] == images[k].data
  {
    seq(|images|, k requires 0 <= k < |images| => images[k].data)
  }

  function ImageSources(images: seq<StagedImage>): (r: seq<string>)
    ensures |r| == |images| && forall k | 0 <= k < |images| :: r[k] == images[k].source
  {
    seq(|images|, k requires 0 <= k < |images| => images[k].source)
  }

  /** The result dictionary `submit_feedback` builds from the current state. */
  function FeedbackOf(d: Dialog, now: string): DialogResult
  {
    var content := SubmittedText(d.text);
    var hasText := content != "";
    var hasImages := d.images != [];
    Feedback(if hasText then Some(content) else None,
             if hasImages then Some(ImageData(d.images)) else None,
             if hasImages then Some(ImageSources(d.images)) else None,
             hasText, hasImages, |d.images|, now)
  }

  // ---------------------------------------------------------------------------
  // Events

  /**
   * `update_countdown`: at zero or below it auto-submits; otherwise it shows the
   * seconds left, counts one down and schedules itself again.
   */
  function UpdateCountdown(d: Dialog, now: string): Dialog
    decreases 1, 1
  {
    if d.remaining <= 0 then AutoSubmitOnTimeout(d, now)
    else d.(countdown := CountdownLabel(d.remaining), remaining := d.remaining - 1, timerPending := true)
  }

  /** Tk runs the scheduled `update_countdown`; the scheduled call is used up. */
  function OnTimer(d: Dialog, now: string): Dialog
  {
    UpdateCountdown(d.(timerPending := false), now)
  }

  /**
   * `auto_submit_on_timeout`: drop the placeholder, put the timeout message at the
   * start of the text, show the timed-out label and submit.
   */
  function AutoSubmitOnTimeout(d: Dialog, now: string): Dialog
    decreases 1, 0
  {
    var kept := if ShowsPlaceholder(d.text) then "" else d.text;
    var d1 := d.(text := AutoTimeoutMessage + kept, countdown := TimedOutLabel);
    TimeoutMessageSubmitted(kept);
    SubmitFeedback(d1, now)
  }

  /**
   * `submit_feedback`: cancel the countdown; with neither text nor images restart
   * the countdown (which ticks at once, or auto-submits when no time is left);
   * otherwise enqueue the result and close the window.
   */
  function SubmitFeedback(d: Dialog, now: string): Dialog
    decreases EmptyRank(d), 2
  {
    var d1 := d.(timerPending := false);
    if !HasContent(d) then UpdateCountdown(d1, now)
    else d1.(results := d.results + [FeedbackOf(d, now)], closed := true)
  }

  /** `cancel`: cancel the countdown, enqueue an unsuccessful result, close the window. */
  function Cancel(d: Dialog): Dialog
  {
    d.(timerPending := false, results := d.results + [Cancelled(CancelMessage)], closed := true)
  }

  /** `clear_placeholder`, bound to focus-in on the text box. */
  function ClearPlaceholder(d: Dialog): Dialog
  {
    if ShowsPlaceholder(d.text) then d.(text := "") else d
  }

  /** The entries `select_image_file` appends for the chosen files, in order. */
  function StagedFiles(files: seq<FileLoad>): seq<StagedImage>
  {
    if files == [] then []
    else
      var last := files[|files| - 1];
      StagedFiles(files[..|files| - 1]) +
        match last
        case Loaded(name, data, w, h) => [StagedImage(data, FileSourcePrefix + name, w, h)]
        case Unreadable(_) => []
  }

  /** `select_image_file` once the file dialog has returned. */
  function SelectImageFiles(d: Dialog, files: seq<FileLoad>): Dialog
  {
    d.(images := d.images + StagedFiles(files))
  }

  /**
   * `paste_handler`: an image is staged; otherwise non-empty text replaces the
   * placeholder or goes in at the insertion cursor `cursor` (a character offset,
   * which Tk keeps inside the text). The flag says whether the handler returned
   * "break".
   */
  function PasteHandler(d: Dialog, clip: Clipboard, cursor: nat): (Dialog, bool)
  {
    match clip
    case ClipboardImage(png, w, h) =>
      (d.(images := d.images + [StagedImage(png, ClipboardSource, w, h)]), true)
    case ClipboardText(s) =>
      if s == "" then (d, false)
      else
        var base := if ShowsPlaceholder(d.text) then "" else d.text;
        var at := if cursor <= |base| then cursor else |base|;
        (d.(text := base[..at] + s + base[at..]), true)
    case ClipboardError => (d, false)
  }

  /** `clear_all_images`. */
  function ClearAllImages(d: Dialog): Dialog
  {
    d.(images := [])
  }

  /** `remove_image(index)`. */
  function RemoveImage(d: Dialog, index: int): Dialog
  {
    if 0 <= index < |d.images| then d.(images := d.images[..index] + d.images[index + 1..]) else d
  }

  // ---------------------------------------------------------------------------
  // Text

  /** Text counts as empty exactly when it is the placeholder or only whitespace. */
  lemma SubmittedTextEmptyIff(text: string)
    ensures SubmittedText(text) == "" <==> ShowsPlaceholder(text) || AllSpace(text)
  {
    StripEmptyIff(WidgetText(text));
    assert forall i | 0 <= i < |text| :: WidgetText(text)[i] == text[i];
    assert WidgetText(text)[|text|] == '\n';
  }

  /** With the timeout message in front, the submitted text is that message followed by the rest. */
  lemma TimeoutMessageSubmitted(kept: string)
    ensures SubmittedText(AutoTimeoutMessage + kept) == AutoTimeoutMessage + TrimRight(WidgetText(kept))
    ensures SubmittedText(AutoTimeoutMessage + kept) != ""
  {
    var m := AutoTimeoutMessage;
    assert m[0] == '由' && m[|m| - 1] == '容' && Placeholder[0] == '请';
    assert WidgetText(m + kept) == m + WidgetText(kept);
    StripAfter(m, WidgetText(kept));
    assert (m + TrimRight(WidgetText(kept)))[0] != Placeholder[0];
  }

  /** Focus-in leaves no placeholder behind and touches nothing but the text. */
  lemma ClearPlaceholderClears(d: Dialog)
    ensures var r := ClearPlaceholder(d);
      !ShowsPlaceholder(r.text) && r == d.(text := r.text) &&
      (ShowsPlaceholder(d.text) ==> r.text == "") && (!ShowsPlaceholder(d.text) ==> r == d)
  {
    if ShowsPlaceholder(d.text) {
      assert WidgetText("") == "\n" && IsSpace('\n');
      StripEmptyIff(WidgetText(""));
    }
  }

  // ---------------------------------------------------------------------------
  // Countdown and auto-submit

  /** Auto-submission is a submission of the text with the timeout message in front, which has content. */
  lemma AutoSubmitSteps(d: Dialog, now: string)
    ensures var kept := if ShowsPlaceholder(d.text) then "" else d.text;
      var d1 := d.(text := AutoTimeoutMessage + kept, countdown := TimedOutLabel);
      AutoSubmitOnTimeout(d, now) == SubmitFeedback(d1, now) && HasContent(d1) && (Inv(d) ==> Inv(d1))
  {
    var kept := if ShowsPlaceholder(d.text) then "" else d.text;
    TimeoutMessageSubmitted(kept);
  }

  /**
   * Every auto-submission succeeds: it enqueues one successful result whose text
   * starts with the timeout message, closes the window and leaves no timer.
   */
  lemma AutoSubmitSucceeds(d: Dialog, now: string)
    ensures var r := AutoSubmitOnTimeout(d, now);
      |r.results| == |d.results| + 1 && r.results[..|d.results|] == d.results &&
      var f := r.results[|d.results|];
      f.Success() && f.Consistent() && f.hasText && f.textFeedback.Some? &&
      |f.textFeedback.value| >= |AutoTimeoutMessage| &&
      f.textFeedback.value[..|AutoTimeoutMessage|] == AutoTimeoutMessage &&
      f.imageCount == |d.images| && f.timestamp == now &&
      r.closed && !r.timerPending && r.remaining == d.remaining && r.images == d.images &&
      r.countdown == TimedOutLabel
  {
    var kept := if ShowsPlaceholder(d.text) then "" else d.text;
    TimeoutMessageSubmitted(kept);
    var t := AutoTimeoutMessage + TrimRight(WidgetText(kept));
    assert t[..|AutoTimeoutMessage|] == AutoTimeoutMessage;
  }

  /**
   * A tick with time left counts down by exactly one and schedules the next tick;
   * nothing else changes. The label shows the seconds the tick started from, and
   * is the label as written at every count but 60.
   */
  lemma TickWithTimeLeft(d: Dialog, now: string)
    requires d.remaining > 0
    ensures var r := UpdateCountdown(d, now);
      r.remaining == d.remaining - 1 && r.timerPending &&
      r == d.(remaining := r.remaining, timerPending := true, countdown := r.countdown) &&
      ReadCountdown(r.countdown.text) == Some(d.remaining) && (r.countdown.color == Red <==> d.remaining <= 60) &&
      (d.remaining != 60 ==> r.countdown == CountdownLabelAsWritten(d.remaining))
  {
    CountdownLabelReadsBack(d.remaining);
    if d.remaining != 60 {
      AsWrittenAgreesOffSixty(d.remaining);
    }
  }

  /**
   * A tick with no time left auto-submits, schedules nothing and keeps
   * `remaining` as it was.
   */
  lemma TickAtZero(d: Dialog, now: string)
    requires d.remaining <= 0
    ensures var r := UpdateCountdown(d, now);
      r.remaining == d.remaining && !r.timerPending && r.closed &&
      |r.results| == |d.results| + 1 && r.results[|d.results|].Success() &&
      r.results[|d.results|].textFeedback.Some? &&
      |r.results[|d.results|].textFeedback.value| >= |AutoTimeoutMessage| &&
      r.results[|d.results|].textFeedback.value[..|AutoTimeoutMessage|] == AutoTimeoutMessage
  {
    AutoSubmitSucceeds(d, now);
  }

  /**
   * A zero or negative timeout auto-submits at the first tick, with the timeout
   * message as the whole text (the placeholder having been removed).
   */
  lemma NonPositiveTimeoutSubmitsAtStart(timeoutSeconds: int, now: string)
    requires timeoutSeconds <= 0
    ensures UpdateCountdown(Open(timeoutSeconds), now).results ==
      [Feedback(Some(AutoTimeoutMessage), None, None, true, false, 0, now)]
  {
    var d := Open(timeoutSeconds);
    PlaceholderShown();
    assert UpdateCountdown(d, now) == AutoSubmitOnTimeout(d, now);
    AutoSubmitOverPlaceholder(d, now);
  }

  /** Auto-submitting over the placeholder with no images submits the timeout message alone. */
  lemma AutoSubmitOverPlaceholder(d: Dialog, now: string)
    requires ShowsPlaceholder(d.text) && d.images == []
    ensures AutoSubmitOnTimeout(d, now).results ==
      d.results + [Feedback(Some(AutoTimeoutMessage), None, None, true, false, 0, now)]
  {
    var d1 := d.(text := AutoTimeoutMessage + "", countdown := TimedOutLabel);
    AutoSubmitSteps(d, now);
    assert SubmitFeedback(d1, now).results == d.results + [FeedbackOf(d1, now)];
    TimeoutMessageAlone();
    assert d1.text == AutoTimeoutMessage;
    assert FeedbackOf(d1, now) == Feedback(Some(AutoTimeoutMessage), None, None, true, false, 0, now);
  }

  /** The timeout message on its own is submitted as it is. */
  lemma TimeoutMessageAlone()
    ensures SubmittedText(AutoTimeoutMessage) == AutoTimeoutMessage
  {
    TimeoutMessageSubmitted("");
    assert AutoTimeoutMessage + "" == AutoTimeoutMessage;
    assert TrimRight(WidgetText("")) == [] by {
      assert WidgetText("") == "\n" && IsSpace('\n');
    }
  }

  /** The text the dialog starts with is recognised as the placeholder. */
  lemma PlaceholderShown()
    ensures ShowsPlaceholder(Placeholder)
  {
    assert Placeholder[0] == '请' && Placeholder[|Placeholder| - 1] == '.';
    StripAfter(Placeholder, "\n");
    assert TrimRight("\n") == [] by { assert IsSpace('\n'); }
    assert Placeholder + [] == Placeholder;
  }

  // ---------------------------------------------------------------------------
  // Submit and cancel

  /**
   * Submitting with text or images enqueues exactly one successful result that
   * reports the images in selection order, and closes the window.
   */
  lemma SubmitWithContent(d: Dialog, now: string)
    requires HasContent(d)
    ensures FeedbackOf(d, now).Consistent()
    ensures var r := SubmitFeedback(d, now);
      r.results == d.results + [FeedbackOf(d, now)] && r.closed && !r.timerPending &&
      r.text == d.text && r.images == d.images && r.remaining == d.remaining
    ensures var f := FeedbackOf(d, now);
      f.Success() && f.imageCount == |d.images| &&
      (f.hasText <==> !(ShowsPlaceholder(d.text) || AllSpace(d.text))) &&
      (f.textFeedback.None? <==> !f.hasText) &&
      (f.hasImages <==> d.images != []) &&
      (f.hasImages ==> f.images == Some(ImageData(d.images)) && f.imageSources == Some(ImageSources(d.images)))
  {
    SubmittedTextEmptyIff(d.text);
  }

  /**
   * Submitting with neither text nor images enqueues nothing while time is left:
   * the countdown restarts from where it was and ticks at once. With no time
   * left the restart auto-submits instead.
   */
  lemma SubmitWithoutContent(d: Dialog, now: string)
    requires !HasContent(d)
    ensures var r := SubmitFeedback(d, now);
      if d.remaining > 0 then
        r.results == d.results && r.closed == d.closed && r.timerPending && r.remaining == d.remaining - 1 &&
        r.text == d.text && r.images == d.images
      else
        |r.results| == |d.results| + 1 && r.results[|d.results|].Success() && r.closed
  {
    var d1 := d.(timerPending := false);
    assert SubmitFeedback(d, now) == UpdateCountdown(d1, now);
    if d.remaining <= 0 {
      assert UpdateCountdown(d1, now) == AutoSubmitOnTimeout(d1, now);
      AutoSubmitSucceeds(d1, now);
    }
  }

  /** A submission with nothing to send is a restart of the countdown with the timer cancelled. */
  lemma SubmitRestarts(d: Dialog, now: string)
    requires !HasContent(d)
    ensures SubmitFeedback(d, now) == UpdateCountdown(d.(timerPending := false), now)
  {
  }

  /** A submission with content on an open dialog enqueues its result, closes the window and keeps the invariant. */
  lemma SubmitEnqueues(d: Dialog, now: string)
    requires Inv(d) && !d.closed && HasContent(d)
    ensures var r := SubmitFeedback(d, now);
      r == d.(timerPending := false, results := d.results + [FeedbackOf(d, now)], closed := true) && Inv(r)
  {
    SubmitWithContent(d, now);
  }

  /** Cancelling enqueues one unsuccessful result and closes the window; text and images stay as they were. */
  lemma CancelFails(d: Dialog)
    ensures var r := Cancel(d);
      |r.results| == |d.results| + 1 && !r.results[|d.results|].Success() &&
      r.closed && !r.timerPending && r.text == d.text && r.images == d.images && r.remaining == d.remaining
  {
  }

  // ---------------------------------------------------------------------------
  // Images

  /** Staging a batch of files is staging its parts one after the other. */
  lemma {:induction false} StagedFilesAppend(a: seq<FileLoad>, b: seq<FileLoad>)
    ensures StagedFiles(a + b) == StagedFiles(a) + StagedFiles(b)
    decreases |b|
  {
    if b == [] {
      assert a + b == a;
    } else {
      var b' := b[..|b| - 1];
      assert (a + b)[..|a + b| - 1] == a + b';
      StagedFilesAppend(a, b');
    }
  }

  /** A file that fails to load adds nothing, and the files after it are still staged. */
  lemma UnreadableFileSkipped(a: seq<FileLoad>, name: string, b: seq<FileLoad>)
    ensures StagedFiles(a + [Unreadable(name)] + b) == StagedFiles(a + b)
  {
    StagedFilesAppend(a + [Unreadable(name)], b);
    StagedFilesAppend(a, [Unreadable(name)]);
    StagedFilesAppend(a, b);
    assert [Unreadable(name)][..0] == [];
  }

  /** Each loaded file is one staged entry with its data, size and a `文件: ` source. */
  lemma LoadedFileStaged(name: string, data: Bytes, w: nat, h: nat)
    ensures StagedFiles([Loaded(name, data, w, h)]) == [StagedImage(data, FileSourcePrefix + name, w, h)]
  {
    assert [Loaded(name, data, w, h)][..0] == [];
  }

  /** Adding images, from files or the clipboard, keeps the entries already there. */
  lemma AddingKeepsEarlier(d: Dialog, files: seq<FileLoad>, clip: Clipboard, cursor: nat)
    ensures SelectImageFiles(d, files) == d.(images := SelectImageFiles(d, files).images)
    ensures SelectImageFiles(d, files).images[..|d.images|] == d.images
    ensures clip.ClipboardImage? ==>
      PasteHandler(d, clip, cursor).0 == d.(images := PasteHandler(d, clip, cursor).0.images) &&
      PasteHandler(d, clip, cursor).0.images == d.images + [StagedImage(clip.png, ClipboardSource, clip.width, clip.height)] &&
      PasteHandler(d, clip, cursor).0.text == d.text && PasteHandler(d, clip, cursor).1
  {
    assert (d.images + StagedFiles(files))[..|d.images|] == d.images;
  }

  /**
   * Pasting non-empty text puts it in at the cursor, replacing the placeholder,
   * and stages no image; empty text or an unreadable clipboard changes nothing.
   */
  lemma PasteText(d: Dialog, s: string, cursor: nat)
    ensures var (r, consumed) := PasteHandler(d, ClipboardText(s), cursor);
      r == d.(text := r.text) && (consumed <==> s != "") &&
      (s == "" ==> r == d) &&
      (s != "" && ShowsPlaceholder(d.text) ==> r.text == s) &&
      (s != "" && !ShowsPlaceholder(d.text) && cursor <= |d.text| ==>
         r.text == d.text[..cursor] + s + d.text[cursor..])
    ensures PasteHandler(d, ClipboardError, cursor) == (d, false)
  {
    if s != "" && ShowsPlaceholder(d.text) {
      assert ""[..0] + s + ""[0..] == s;
    }
  }

  /**
   * `remove_image(index)` outside `[0, len)` changes nothing; inside it removes
   * exactly entry `index` and keeps the others in order.
   */
  lemma RemoveImageExact(d: Dialog, index: int)
    ensures var r := RemoveImage(d, index);
      r == d.(images := r.images) &&
      (!(0 <= index < |d.images|) ==> r.images == d.images) &&
      (0 <= index < |d.images| ==>
         |r.images| == |d.images| - 1 &&
         (forall k | 0 <= k < index :: r.images[k] == d.images[k]) &&
         (forall k | index <= k < |r.images| :: r.images[k] == d.images[k + 1]))
  {
  }

  // ---------------------------------------------------------------------------
  // The dialog as a whole

  /**
   * At most one result is ever enqueued, the window is closed exactly when it is,
   * and a closed window has no countdown scheduled.
   */
  ghost predicate Inv(d: Dialog)
  {
    |d.results| <= 1 && (d.closed <==> |d.results| == 1) && (d.closed ==> !d.timerPending) &&
    forall r | r in d.results :: r.Consistent()
  }

  /** What `show_dialog` hands back: the first result enqueued, or `None` when the wait times out first. */
  function Outcome(d: Dialog): Option<DialogResult>
  {
    if d.results == [] then None else Some(d.results[0])
  }

  lemma OpenInv(timeoutSeconds: int)
    ensures Inv(Open(timeoutSeconds)) && !Open(timeoutSeconds).closed
  {
  }

  /**
   * A tick or a submission on an open dialog keeps the invariant and leaves the
   * dialog either closed with its result or with the next tick scheduled: the
   * countdown never stalls.
   */
  lemma CountdownKeepsInv(d: Dialog, now: string)
    requires Inv(d) && !d.closed
    ensures Inv(UpdateCountdown(d, now)) && Inv(OnTimer(d, now)) && Inv(AutoSubmitOnTimeout(d, now))
    ensures Inv(SubmitFeedback(d, now))
    ensures UpdateCountdown(d, now).closed || UpdateCountdown(d, now).timerPending
    ensures SubmitFeedback(d, now).closed || SubmitFeedback(d, now).timerPending
  {
    var d1 := d.(timerPending := false);
    AutoSubmitKeepsInv(d, now);
    AutoSubmitKeepsInv(d1, now);
    assert OnTimer(d, now) == UpdateCountdown(d1, now);
    if !HasContent(d) {
      assert SubmitFeedback(d, now) == UpdateCountdown(d1, now);
    } else {
      SubmitWithContent(d, now);
    }
  }

  /** Auto-submitting an open dialog keeps the invariant. */
  lemma AutoSubmitKeepsInv(d: Dialog, now: string)
    requires Inv(d) && !d.closed
    ensures Inv(AutoSubmitOnTimeout(d, now)) && AutoSubmitOnTimeout(d, now).closed
  {
    var kept := if ShowsPlaceholder(d.text) then "" else d.text;
    var d1 := d.(text := AutoTimeoutMessage + kept, countdown := TimedOutLabel);
    TimeoutMessageSubmitted(kept);
    assert AutoSubmitOnTimeout(d, now) == SubmitFeedback(d1, now);
    SubmitWithContent(d1, now);
  }

  /** Every other event on an open dialog keeps the invariant. */
  lemma EditsKeepInv(d: Dialog, files: seq<FileLoad>, clip: Clipboard, cursor: nat, index: int)
    requires Inv(d) && !d.closed
    ensures Inv(Cancel(d)) && Inv(ClearPlaceholder(d)) && Inv(SelectImageFiles(d, files))
    ensures Inv(PasteHandler(d, clip, cursor).0) && Inv(ClearAllImages(d)) && Inv(RemoveImage(d, index))
  {
  }
}
