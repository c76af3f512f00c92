# Feedback dialog of mcp-feedback-collector, modelled in Dafny

mcp-feedback-collector is an MCP tool server. Its `collect_feedback` tool opens a Tk
dialog that shows the assistant's work summary. The user can type or paste text,
stage images from files or the clipboard, then submit or cancel. A one-second
countdown auto-submits a fixed "I am busy" message when the time runs out. The
tool then turns the dialog's result into a list of text and image content items.

This project models the state machine under the widgets of `FeedbackDialog`. It
also models the timeout configuration read at start-up and the result-to-items
mapping of `collect_feedback`.

- `Base`: `Option`, `Result` and opaque byte strings.
- `PyText`: the Python string behaviour the dialog depends on. This covers
  `str.strip()` over Python's whitespace set, `str()` and `f"{n:02d}"` for
  integers, and `int()` on a string. `int()` refuses more than 4300 digits, as
  CPython does under its default `sys.int_max_str_digits`. It proves that
  `int(str(i)) == i` whenever `str(i)` has at most 4300 digits, that `int()`
  fails on longer ones, and that a string strips to nothing exactly when it is
  all whitespace.
- `Config`: `DIALOG_TIMEOUT`. An unset or unparsable variable gives 300, and so
  does a number of more than 4300 digits. A value above 86400 is cut to 86400,
  and every other value is kept, including zero and negative values.
- `Countdown`: the countdown label's text and colour, plus a reader that gets the
  number it shows back from the text: seconds only, or minutes and a two-digit
  seconds field. The reader refuses a count written with leading zeros. The label is proved to show the seconds left, split as
  `s // 60` minutes and `s % 60` seconds above one minute.
- `DialogSpec`: the dialog state as a value (`Dialog`) and one function per event:
  tick, timer firing, auto-submit, submit, cancel, focus-in, file selection, paste,
  clear and remove-by-index. The lemmas state what each event does and what it
  leaves alone. An invariant says at most one result is ever enqueued, the window
  is closed exactly when a result is enqueued, and the result's fields agree with
  each other. The end-to-end claim is proved too: every auto-submission yields a
  successful result whose text starts with the timeout message.
- `DialogWidget`: the `FeedbackDialog` class. Its fields are updated in place by
  one method per handler, and each method is proved to move the object's state
  exactly as the matching `DialogSpec` function does. `submit_feedback`,
  `start_countdown`, `update_countdown` and `auto_submit_on_timeout` call one
  another, and the model keeps that recursion.
- `Collect`: `collect_feedback` as a method with its building loop, proved equal to
  the function `FeedbackItems`. It gives one text item on a timed-out wait and
  raises on a cancelled dialog. Otherwise it gives the optional text item, then one
  PNG item per staged image in order. Over the outcomes the model gives the dialog,
  it raises only when the user cancelled.

Some inputs come from outside the code and are parameters of the model. The clock
(`now`) is one. What a chosen file loaded as (`FileLoad`) and what the clipboard
held (`Clipboard`) are others, and so is the Tk insertion cursor.

## Model

| member | source | states |
|---|---|---|
| `PyText.Strip` | src/mcp_feedback_collector/server.py:535 | `str.strip()`: drops the longest leading and trailing runs of Python whitespace; partner lemmas `StripEmptyIff` and `StripAfter` |
| `PyText.ParseInt` | src/mcp_feedback_collector/server.py:30 | `int()` on a string: surrounding whitespace, an optional sign, ASCII digits with single underscores between them, at most 4300 digits, None where Python raises; partner lemmas `IntDecimalRoundTrip`, `ParseIntBound` and `ParseIntRejectsBlank` |
| `PyText.ParseIntBound` | src/mcp_feedback_collector/server.py:30 | every integer `int()` accepts prints back in at most 4300 digits |
| `PyText.TrimLeftSpec` | src/mcp_feedback_collector/server.py:535 | the left half of `strip()` drops a run of whitespace and keeps a suffix that does not start with whitespace |
| `PyText.TrimRightSpec` | src/mcp_feedback_collector/server.py:535 | the right half of `strip()` drops a run of whitespace and keeps a prefix that does not end with whitespace |
| `PyText.IntDecimal` | src/mcp_feedback_collector/server.py:136 | `str()` of an integer: a minus sign for a negative value, then its decimal digits; partner lemma `IntDecimalRoundTrip` |
| `PyText.ZeroPad2` | src/mcp_feedback_collector/server.py:139 | `f"{n:02d}"`: one leading zero below 10; partner lemma `ZeroPad2Value` |
| `PyText.StripEmptyIff` | src/mcp_feedback_collector/server.py:535-543 | `strip()` leaves nothing exactly when every character is whitespace |
| `PyText.StripAfter` | src/mcp_feedback_collector/server.py:154-158 | text placed in front, with no whitespace at either end, survives `strip()` whole at the front |
| `PyText.NatDecimalRoundTrip` | src/mcp_feedback_collector/server.py:131-139 | the decimal digits printed for a count read back as that count |
| `PyText.ZeroPad2Value` | src/mcp_feedback_collector/server.py:139 | `{seconds:02d}` of a value below 100 is exactly two digits denoting the value |
| `PyText.IntDecimalRoundTrip` | src/mcp_feedback_collector/server.py:30 | `int()` of an integer's decimal form gives the integer back when its digits number at most 4300, and fails when they number more |
| `PyText.ParseIntRejectsBlank` | src/mcp_feedback_collector/server.py:30 | `int()` of a blank string fails |
| `Config.DialogTimeout` | src/mcp_feedback_collector/server.py:27-38 | never above 86400; unset or unparsable gives 300; a parsed value up to 86400 is kept unchanged and a larger one becomes 86400; the result always prints in at most 4300 digits |
| `Config.DialogTimeoutOfDecimal` | src/mcp_feedback_collector/server.py:29-34 | setting the variable to `str(n)` configures min(n, 86400) when `str(n)` has at most 4300 digits, and 300 when it has more |
| `Config.DialogTimeoutOfBlank` | src/mcp_feedback_collector/server.py:36-38 | a blank setting falls back to 300 |
| `Config.DialogTimeoutIdempotent` | src/mcp_feedback_collector/server.py:32-34 | configuring the configured value again changes nothing |
| `Countdown.SecondsText` | src/mcp_feedback_collector/server.py:136 | the last-minute label text: prefix, the count, `秒`; partner lemma `SecondsTextReadsBack` |
| `Countdown.MinutesSecondsText` | src/mcp_feedback_collector/server.py:139 | the label text above a minute: prefix, `t // 60`, `分`, `t % 60` in two digits, `秒`; partner lemma `MinutesSecondsTextReadsBack` |
| `Countdown.ReadNatOfDecimal` | src/mcp_feedback_collector/server.py:136-139 | the label's digit reader gets back every count `str()` writes |
| `Countdown.SecondsTextReadsBack` | src/mcp_feedback_collector/server.py:136 | the seconds-only text of n reads as n seconds |
| `Countdown.MinutesSecondsTextReadsBack` | src/mcp_feedback_collector/server.py:139 | the minutes text of t reads as `t // 60` minutes and `t % 60` seconds |
| `Countdown.CountdownLabel` | src/mcp_feedback_collector/server.py:131-140 | the label is red exactly when at most 60 seconds are left |
| `Countdown.CountdownLabelReadsBack` | src/mcp_feedback_collector/server.py:131-143 | for every positive count s the label shows s seconds; at most a minute as seconds only, above it as `s // 60` minutes and a two-digit `s % 60` seconds field |
| `Countdown.InitialLabel` | src/mcp_feedback_collector/server.py:184-190 | the label built with the window: `timeout // 60` minutes and a two-digit `timeout % 60` seconds field, in the dark colour |
| `Countdown.InitialLabelReadsBack` | src/mcp_feedback_collector/server.py:184-190 | before the first tick the label shows the whole timeout as `timeout // 60` minutes and a two-digit `timeout % 60` seconds field, in the dark colour |
| `Countdown.CountdownLabelAsWritten` | src/mcp_feedback_collector/server.py:131-140 | the tick's label exactly as the code builds it, printing `s % 60` in the last minute |
| `Countdown.AsWrittenShowsZeroAtSixty` | src/mcp_feedback_collector/server.py:134-137 | as written, the tick at 60 seconds left shows "0秒", which reads as 0 seconds |
| `Countdown.AsWrittenAgreesOffSixty` | src/mcp_feedback_collector/server.py:131-140 | away from 60, the label as written equals the label that shows the seconds left |
| `DialogSpec.Open` | src/mcp_feedback_collector/server.py:41-53 | the state `__init__` and `create_widgets` leave: the placeholder text, no images, the full timeout left, no tick scheduled, the initial label, nothing enqueued, the window open; partner lemma `OpenInv` |
| `DialogSpec.UpdateCountdown` | src/mcp_feedback_collector/server.py:123-149 | `update_countdown`: auto-submit at zero or below, otherwise show the label, count one down and schedule the next tick; partner lemmas `TickWithTimeLeft`, `TickAtZero`, `CountdownKeepsInv` |
| `DialogSpec.OnTimer` | src/mcp_feedback_collector/server.py:149 | Tk running the tick scheduled with `after(1000, ...)`, which uses the scheduled call up; partner lemma `CountdownKeepsInv` |
| `DialogSpec.AutoSubmitOnTimeout` | src/mcp_feedback_collector/server.py:151-165 | `auto_submit_on_timeout`: drop the placeholder, insert the timeout message at the start, show the timed-out label, submit; partner lemmas `AutoSubmitSucceeds`, `AutoSubmitKeepsInv` |
| `DialogSpec.FeedbackOf` | src/mcp_feedback_collector/server.py:535-559 | the result dictionary `submit_feedback` builds; partner lemma `SubmitWithContent` |
| `DialogSpec.SubmitFeedback` | src/mcp_feedback_collector/server.py:528-562 | `submit_feedback`: cancel the timer; with neither text nor images restart the countdown, otherwise enqueue the result and close; partner lemmas `SubmitWithContent`, `SubmitWithoutContent` |
| `DialogSpec.Cancel` | src/mcp_feedback_collector/server.py:564-574 | `cancel`: cancel the timer, enqueue the unsuccessful result, close; partner lemma `CancelFails` |
| `DialogSpec.ClearPlaceholder` | src/mcp_feedback_collector/server.py:378-381 | `clear_placeholder`; partner lemma `ClearPlaceholderClears` |
| `DialogSpec.StagedFiles` | src/mcp_feedback_collector/server.py:397-413 | the entries the file loop appends, in order, skipping files that fail to load; partner lemmas `StagedFilesAppend`, `UnreadableFileSkipped`, `LoadedFileStaged` |
| `DialogSpec.SelectImageFiles` | src/mcp_feedback_collector/server.py:383-414 | `select_image_file` once the file dialog has returned; partner lemma `AddingKeepsEarlier` |
| `DialogSpec.PasteHandler` | src/mcp_feedback_collector/server.py:416-447 | `paste_handler` for an image, text or a failing clipboard, and whether it returns "break"; partner lemmas `PasteText`, `AddingKeepsEarlier` |
| `DialogSpec.ClearAllImages` | src/mcp_feedback_collector/server.py:453-456 | `clear_all_images`; partner lemma `EditsKeepInv` |
| `DialogSpec.RemoveImage` | src/mcp_feedback_collector/server.py:522-526 | `remove_image(index)`; partner lemma `RemoveImageExact` |
| `DialogSpec.Outcome` | src/mcp_feedback_collector/server.py:110-117 | what `show_dialog` returns: the first result enqueued, or None; partner lemma `Collect.RaisesOnlyOnCancel` |
| `DialogSpec.ShowsPlaceholder` | src/mcp_feedback_collector/server.py:378-381 | the placeholder test of every handler: the box's contents, with Tk's trailing newline, strip to the placeholder; partner lemmas `PlaceholderShown`, `ClearPlaceholderClears`, `SubmittedTextEmptyIff` |
| `DialogSpec.SubmittedText` | src/mcp_feedback_collector/server.py:535-537 | `text_content` in `submit_feedback`: the stripped box contents, or "" for the placeholder; partner lemmas `SubmittedTextEmptyIff`, `TimeoutMessageSubmitted` |
| `DialogSpec.SubmittedTextEmptyIff` | src/mcp_feedback_collector/server.py:534-540 | submitted text is empty exactly when the box holds the placeholder or only whitespace |
| `DialogSpec.TimeoutMessageSubmitted` | src/mcp_feedback_collector/server.py:151-165 | with the timeout message in front, the submitted text is that message and the right-stripped rest, and is never empty |
| `DialogSpec.ClearPlaceholderClears` | src/mcp_feedback_collector/server.py:378-381 | focus-in empties a placeholder box, leaves other text alone and changes nothing else |
| `DialogSpec.AutoSubmitSteps` | src/mcp_feedback_collector/server.py:151-165 | auto-submit is a submission of the message-prefixed text, which has content |
| `DialogSpec.AutoSubmitSucceeds` | src/mcp_feedback_collector/server.py:151-165 | auto-submit always enqueues one successful, consistent result with text starting with the timeout message, closes the window and cancels the timer |
| `DialogSpec.TickWithTimeLeft` | src/mcp_feedback_collector/server.py:123-149 | with time left a tick lowers `remaining_seconds` by exactly 1, schedules the next tick and changes only the label otherwise; the label shows the seconds the tick started from, red exactly in the last minute, and equals the as-written label at every count but 60 |
| `DialogSpec.TickAtZero` | src/mcp_feedback_collector/server.py:125-128 | with no time left a tick auto-submits successfully, schedules nothing and keeps `remaining_seconds` |
| `DialogSpec.NonPositiveTimeoutSubmitsAtStart` | src/mcp_feedback_collector/server.py:119-128 | a zero or negative timeout submits the timeout message alone at the first tick |
| `DialogSpec.TimeoutMessageAlone` | src/mcp_feedback_collector/server.py:151-158 | the timeout message alone in the box is submitted exactly as it is |
| `DialogSpec.AutoSubmitOverPlaceholder` | src/mcp_feedback_collector/server.py:153-158 | over the placeholder with no images, auto-submit sends exactly the timeout message |
| `DialogSpec.PlaceholderShown` | src/mcp_feedback_collector/server.py:250-251 | the text the box starts with is recognised as the placeholder |
| `DialogSpec.SubmitWithContent` | src/mcp_feedback_collector/server.py:528-562 | with text or images, exactly one result is enqueued: successful, `image_count` = list length, images and sources in selection order, `text_feedback` None exactly when there is no text |
| `DialogSpec.SubmitWithoutContent` | src/mcp_feedback_collector/server.py:543-547 | with neither, nothing is enqueued while time is left and the countdown restarts from where it was; with no time left the restart auto-submits |
| `DialogSpec.SubmitEnqueues` | src/mcp_feedback_collector/server.py:549-562 | a submission with content on an open dialog enqueues its result dictionary, closes the window and keeps the invariant |
| `DialogSpec.CancelFails` | src/mcp_feedback_collector/server.py:564-574 | cancel enqueues one unsuccessful result and closes the window |
| `DialogSpec.StagedFilesAppend` | src/mcp_feedback_collector/server.py:397-413 | staging a list of files is staging its parts one after the other |
| `DialogSpec.UnreadableFileSkipped` | src/mcp_feedback_collector/server.py:411-412 | a file that fails to load adds nothing and the later files are still staged |
| `DialogSpec.LoadedFileStaged` | src/mcp_feedback_collector/server.py:404-409 | a loaded file becomes one entry with its bytes, its size and a `文件: ` source |
| `DialogSpec.AddingKeepsEarlier` | src/mcp_feedback_collector/server.py:428-433 | adding from files or the clipboard changes only the image list, keeps the earlier entries, and a pasted image is appended at the end |
| `DialogSpec.PasteText` | src/mcp_feedback_collector/server.py:436-447 | pasting text changes only the text; non-empty text replaces the placeholder or goes in at the cursor; empty text or a clipboard error changes nothing |
| `DialogSpec.RemoveImageExact` | src/mcp_feedback_collector/server.py:522-526 | out-of-range index: no change; in range: exactly that entry removed, others kept in order |
| `DialogSpec.OpenInv` | src/mcp_feedback_collector/server.py:41-53 | a new dialog is open, empty of results and satisfies the invariant |
| `DialogSpec.AutoSubmitKeepsInv` | src/mcp_feedback_collector/server.py:151-165 | auto-submit on an open dialog keeps the invariant and closes it |
| `DialogSpec.CountdownKeepsInv` | src/mcp_feedback_collector/server.py:123-165 | ticks and submits keep the invariant, and afterwards the dialog is closed or has a tick scheduled |
| `DialogSpec.EditsKeepInv` | src/mcp_feedback_collector/server.py:522-574 | cancel, focus-in, file selection, paste, clear and remove keep the invariant |
| `DialogWidget.FeedbackDialog.constructor` | src/mcp_feedback_collector/server.py:41-53 | the new object is the opened dialog: placeholder text, no images, full timeout, initial label |
| `DialogWidget.FeedbackDialog.StartCountdown` | src/mcp_feedback_collector/server.py:119-121 | `start_countdown` is one `update_countdown` |
| `DialogWidget.FeedbackDialog.UpdateCountdown` | src/mcp_feedback_collector/server.py:123-149 | the tick moves the object as `DialogSpec.UpdateCountdown` and keeps the invariant |
| `DialogWidget.FeedbackDialog.OnTimer` | src/mcp_feedback_collector/server.py:149 | the scheduled tick is used up, then the tick runs |
| `DialogWidget.FeedbackDialog.AutoSubmitOnTimeout` | src/mcp_feedback_collector/server.py:151-165 | auto-submit moves the object as `DialogSpec.AutoSubmitOnTimeout` |
| `DialogWidget.FeedbackDialog.SubmitFeedback` | src/mcp_feedback_collector/server.py:528-562 | submit moves the object as `DialogSpec.SubmitFeedback` |
| `DialogWidget.FeedbackDialog.Cancel` | src/mcp_feedback_collector/server.py:564-574 | cancel moves the object as `DialogSpec.Cancel` |
| `DialogWidget.FeedbackDialog.ClearPlaceholder` | src/mcp_feedback_collector/server.py:378-381 | focus-in moves the object as `DialogSpec.ClearPlaceholder` |
| `DialogWidget.FeedbackDialog.SelectImageFiles` | src/mcp_feedback_collector/server.py:397-414 | the loop appends the loaded files' entries in order and changes nothing else |
| `DialogWidget.FeedbackDialog.PasteHandler` | src/mcp_feedback_collector/server.py:416-447 | paste moves the object as `DialogSpec.PasteHandler` and returns whether it consumed the event |
| `DialogWidget.FeedbackDialog.PasteFromClipboard` | src/mcp_feedback_collector/server.py:449-451 | the paste button does what the paste handler does |
| `DialogWidget.FeedbackDialog.ClearAllImages` | src/mcp_feedback_collector/server.py:453-456 | the image list becomes empty and nothing else changes |
| `DialogWidget.FeedbackDialog.RemoveImage` | src/mcp_feedback_collector/server.py:522-526 | remove-by-index moves the object as `DialogSpec.RemoveImage` |
| `Collect.TimeoutItem` | src/mcp_feedback_collector/server.py:591-600 | the one text item returned when the wait gives nothing: label, timeout message, time, timed-out status; partner `FeedbackItems` |
| `Collect.TextItem` | src/mcp_feedback_collector/server.py:609-614 | the text item of a successful result; partner lemma `TextItemStartsWith` |
| `Collect.ImageItems` | src/mcp_feedback_collector/server.py:617-619 | one PNG item per pair of the zipped lists, in order |
| `Collect.FeedbackItems` | src/mcp_feedback_collector/server.py:591-621 | a timed-out wait gives exactly one text item; an unsuccessful result raises its message; a text item comes first when there is text |
| `Collect.CollectFeedback` | src/mcp_feedback_collector/server.py:591-621 | the appending loop returns exactly `FeedbackItems` |
| `Collect.ConsistentResultItems` | src/mcp_feedback_collector/server.py:605-621 | a consistent result gives `(1 if has_text else 0) + image_count` items: the text, then each image in order |
| `Collect.SubmissionItems` | src/mcp_feedback_collector/server.py:549-621 | a submission returns its submitted text, then every staged image's bytes, in selection order |
| `Collect.AutoSubmissionItems` | src/mcp_feedback_collector/server.py:609-614 | an auto-submission returns a text item that starts with the label and the timeout message |
| `Collect.TextItemStartsWith` | src/mcp_feedback_collector/server.py:611-614 | a text item keeps the front of the feedback text right after its label |
| `Collect.RaisesOnlyOnCancel` | src/mcp_feedback_collector/server.py:602-603 | for a dialog that kept its invariant, and with the outcome taken as its first result or None, the tool raises exactly when the user cancelled |

## Left out

- Widget construction, layout, styling, window centring, key bindings and the image preview (`update_image_preview`). These are presentation only.
- The dialog thread and `result_queue.get(timeout=...)`. `DialogSpec.Outcome` takes the outcome to be the first result enqueued, or None, without modelling the wait.
- PIL decoding, thumbnailing and PNG re-encoding, the clipboard grab, the file dialog and file reads. They are foreign calls and I/O. Their outcomes are the parameters `FileLoad` and `Clipboard`, and image bytes are opaque.
- The PIL image object kept in each staged entry. Only its bytes, source and size are modelled.
- `messagebox` popups (the warning on an empty submission and the error on an unreadable file), `print` calls, `root.destroy()` beyond the `closed` flag, `datetime.now()` (a `now` parameter) and MCP tool registration and `mcp.run()`.
- `pick_image` and `get_image_info`. These are a separate UI dialog and filesystem, PIL and float work.
- Keystrokes typed into the text box. Tk handles them itself, not the code, so the model's text can be any string and has no typing event.
- Tk's own paste, which runs when the paste handler returns None.
- Events after `root.destroy()`. Tk dispatches none, so every handler requires an open dialog.
- Tk's line.column text indexes. The insertion cursor is a character offset.
- PyText.ParseInt: accepts ASCII digits only, while Python's `int()` also takes other Unicode decimal digits. The 4300-digit limit is CPython's default; a process that changes `sys.int_max_str_digits` is not modelled.
- PyText.IntDecimal: writes any integer, while CPython's `str()` raises beyond 4300 digits. No count the dialog prints comes near that length, because the timeout is at most 86400.
- DialogSpec.UpdateCountdown: at exactly 60 seconds left it shows the corrected label "60秒", not the as-written "0秒" (see Findings). `Countdown.CountdownLabelAsWritten` keeps the original, and `Countdown.AsWrittenAgreesOffSixty` shows that this is the only count where the two differ.
- DialogSpec.TickWithTimeLeft: states the corrected label, so at exactly 60 seconds left it does not state the as-written "0秒". It states equality with the as-written label at every other count.
- DialogWidget.FeedbackDialog.UpdateCountdown: moves the state as `DialogSpec.UpdateCountdown`, so it has the same corrected label at 60 seconds left.
- DialogSpec.Outcome: does not model the wait in `show_dialog` (server.py:113-114). `queue.Queue.get` raises ValueError for a negative timeout, and only `queue.Empty` is caught. So a configured timeout below -5 makes `collect_feedback` raise although nobody cancelled.
- Collect.RaisesOnlyOnCancel: holds only over the modelled outcome. It does not cover the ValueError of a timeout below -5 described above.

## Findings

| source | as written | input that shows it | evidently intended | confidence | as-written member | corrected member |
|---|---|---|---|---|---|---|
| src/mcp_feedback_collector/server.py:134-136 | in the last minute the label prints `remaining_seconds % 60` | `remaining_seconds == 60`: the label reads "⏰ 剩余时间：0秒" one second before it reads "59秒" | the last-minute label prints the seconds left, "60秒" | high; not executed | `Countdown.AsWrittenShowsZeroAtSixty` | `Countdown.CountdownLabelReadsBack` |
