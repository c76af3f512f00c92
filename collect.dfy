/**
 * The `collect_feedback` tool: turning what the dialog handed back into the list
 * of MCP content items returned to the assistant.
 */
module Collect {
  import opened Base
  import opened DialogSpec

  /** `TextContent(type="text", text=...)` and `MCPImage(data=..., format='png')`. */
  datatype ContentItem = TextContent(text: string) | ImageContent(data: Bytes, format: string)

  /**
   * What the tool raises instead of returning: the cancellation exception, or the
   * TypeError `zip` gives when `has_images` is set but an image list is None.
   */
  datatype Failure = Raised(message: string) | NotIterable

  const TextFeedbackLabel: string := "用户文字反馈："
  const SubmittedAtLabel: string := "\n提交时间："
  const AutoTimeoutStatus: string := "\n状态：自动超时反馈"

  /** How an f-string renders an optional string. */
  function FormatOptional(o: Option<string>): string
  {
    match o
    case Some(s) => s
    case None => "None"
  }

  /** The single item returned when the dialog gave no result in time. */
  function TimeoutItem(now: string): ContentItem
  {
    TextContent(TextFeedbackLabel + AutoTimeoutMessage + SubmittedAtLabel + now + AutoTimeoutStatus)
  }

  /** The text item of a successful result. */
  function TextItem(textFeedback: Option<string>, timestamp: string): ContentItem
  {
    TextContent(TextFeedbackLabel + FormatOptional(textFeedback) + SubmittedAtLabel + timestamp)
  }

  /** One PNG item per pair of `zip(images, image_sources)`, in order. */
  function ImageItems(images: seq<Bytes>, sources: seq<string>): (r: seq<ContentItem>)
    ensures |r| == if |images| <= |sources| then |images| else |sources|
    ensures forall k | 0 <= k < |r| :: r[k] == ImageContent(images[k], "png")
  {
    var n := if |images| <= |sources| then |images| else |sources|;
    seq(n, k requires 0 <= k < n => ImageContent(images[k], "png"))
  }

  /** The list `collect_feedback` returns for a dialog outcome, or what it raises. */
  function FeedbackItems(result: Option<DialogResult>, now: string): (r: Result<seq<ContentItem>, Failure>)
    ensures result.None? ==> r == Ok([TimeoutItem(now)])
    ensures result.Some? && !result.value.Success() ==> r == Err(Raised(result.value.message))
    ensures r.Ok? && result.Some? ==>
      result.value.Success() &&
      (result.value.hasText ==> r.value != [] && r.value[0] == TextItem(result.value.textFeedback, result.value.timestamp))
  {
    match result
    case None => Ok([TimeoutItem(now)])
    case Some(f) =>
      if !f.Success() then Err(Raised(f.message))
      else
        var head := if f.hasText then [TextItem(f.textFeedback, f.timestamp)] else [];
        if !f.hasImages then Ok(head)
        else if f.images.None? || f.imageSources.None? then Err(NotIterable)
        else Ok(head + ImageItems(f.images.value, f.imageSources.value))
  }

  /** `collect_feedback` once `show_dialog` has returned `result`; `now` is the time it reads for a timeout. */
  method CollectFeedback(result: Option<DialogResult>, now: string) returns (r: Result<seq<ContentItem>, Failure>)
    ensures r == FeedbackItems(result, now)
  {
    if result.None? {
      var timeoutItems: seq<ContentItem> := [];
      timeoutItems := timeoutItems + [TimeoutItem(now)];
      assert timeoutItems == [TimeoutItem(now)];
      return Ok(timeoutItems);
    }
    var f := result.value;
    if !f.Success() {
      return Err(Raised(f.message));
    }
    var items: seq<ContentItem> := [];
    if f.hasText {
      items := items + [TextItem(f.textFeedback, f.timestamp)];
    }
    assert items == if f.hasText then [TextItem(f.textFeedback, f.timestamp)] else [];
    if f.hasImages {
      if f.images.None? || f.imageSources.None? {
        return Err(NotIterable);
      }
      var images, sources := f.images.value, f.imageSources.value;
      var n := if |images| <= |sources| then |images| else |sources|;
      var head := items;
      var i := 0;
      while i < n
        invariant 0 <= i <= n
        invariant |items| == |head| + i && items[..|head|] == head
        invariant forall k | 0 <= k < i :: items[|head| + k] == ImageContent(images[k], "png")
      {
        items := items + [ImageContent(images[i], "png")];
        i := i + 1;
      }
      assert items == head + ImageItems(images, sources);
    }
    return Ok(items);
  }

  /**
   * A consistent successful result gives its text item first, when there is text,
   * then one PNG item per image in order: `(1 if has_text else 0) + image_count`
   * items in all.
   */
  lemma ConsistentResultItems(f: DialogResult, now: string)
    requires f.Feedback? && f.Consistent()
    ensures var r := FeedbackItems(Some(f), now);
      r.Ok? && |r.value| == (if f.hasText then 1 else 0) + f.imageCount &&
      (f.hasText ==> r.value[0] == TextItem(f.textFeedback, f.timestamp) && f.textFeedback.Some?) &&
      (f.hasImages ==> forall k | 0 <= k < f.imageCount ::
         r.value[(if f.hasText then 1 else 0) + k] == ImageContent(f.images.value[k], "png"))
  {
  }

  /**
   * Submitting a dialog that has content returns its text (as submitted) and then
   * every staged image's bytes as a PNG item, in selection order.
   */
  lemma SubmissionItems(d: Dialog, now: string, later: string)
    requires HasContent(d)
    ensures var f := FeedbackOf(d, now);
      var r := FeedbackItems(Some(f), later);
      var offset := if f.hasText then 1 else 0;
      r.Ok? && |r.value| == offset + |d.images| &&
      (f.hasText ==> r.value[0] == TextContent(TextFeedbackLabel + SubmittedText(d.text) + SubmittedAtLabel + now)) &&
      forall k | 0 <= k < |d.images| :: r.value[offset + k] == ImageContent(d.images[k].data, "png")
  {
    SubmissionShape(d, now, later);
    SubmissionImages(d, now, later);
  }

  lemma SubmissionShape(d: Dialog, now: string, later: string)
    requires HasContent(d)
    ensures var f := FeedbackOf(d, now);
      var r := FeedbackItems(Some(f), later);
      r.Ok? && |r.value| == (if f.hasText then 1 else 0) + |d.images| &&
      (f.hasText ==> r.value[0] == TextContent(TextFeedbackLabel + SubmittedText(d.text) + SubmittedAtLabel + now))
  {
    var f := FeedbackOf(d, now);
    assert f.Consistent();
    ConsistentResultItems(f, later);
    assert f.hasText ==> f.textFeedback == Some(SubmittedText(d.text));
  }

  lemma SubmissionImages(d: Dialog, now: string, later: string)
    requires HasContent(d)
    ensures var f := FeedbackOf(d, now);
      var r := FeedbackItems(Some(f), later);
      var offset := if f.hasText then 1 else 0;
      r.Ok? && |r.value| == offset + |d.images| &&
      forall k | 0 <= k < |d.images| :: r.value[offset + k] == ImageContent(d.images[k].data, "png")
  {
    var f := FeedbackOf(d, now);
    assert f.Consistent() && f.imageCount == |d.images|;
    assert f.hasImages ==> f.images.value == ImageData(d.images);
    StagedImageItems(f, d.images, later);
  }

  /** A consistent result carrying the bytes of `images` lists one PNG item per image, after the text item. */
  lemma StagedImageItems(f: DialogResult, images: seq<StagedImage>, later: string)
    requires f.Feedback? && f.Consistent() && f.imageCount == |images|
    requires f.hasImages ==> f.images.value == ImageData(images)
    ensures var r := FeedbackItems(Some(f), later);
      var offset := if f.hasText then 1 else 0;
      r.Ok? && |r.value| == offset + |images| &&
      forall k | 0 <= k < |images| :: r.value[offset + k] == ImageContent(images[k].data, "png")
  {
    var r := FeedbackItems(Some(f), later);
    var offset := if f.hasText then 1 else 0;
    assert r.Ok? && |r.value| == offset + |images| &&
      (f.hasImages ==> forall k | 0 <= k < |images| :: r.value[offset + k] == ImageContent(f.images.value[k], "png"))
    by {
      ConsistentResultItems(f, later);
    }
    forall k | 0 <= k < |images|
      ensures r.value[offset + k] == ImageContent(images[k].data, "png")
    {
      assert f.images.value[k] == images[k].data;
    }
  }

  /** An auto-submission returns a text item that begins with the timeout message. */
  lemma AutoSubmissionItems(d: Dialog, now: string, later: string)
    ensures var r := AutoSubmitOnTimeout(d, now);
      |r.results| > |d.results| &&
      var items := FeedbackItems(Some(r.results[|d.results|]), later);
      var prefix := TextFeedbackLabel + AutoTimeoutMessage;
      items.Ok? && items.value != [] && items.value[0].TextContent? &&
      |items.value[0].text| >= |prefix| && items.value[0].text[..|prefix|] == prefix
  {
    AutoSubmitSucceeds(d, now);
    var f := AutoSubmitOnTimeout(d, now).results[|d.results|];
    ConsistentResultItems(f, later);
    TextItemStartsWith(f.textFeedback.value, AutoTimeoutMessage, f.timestamp);
  }

  /** A text item whose feedback starts with `m` starts with the label and `m`. */
  lemma TextItemStartsWith(t: string, m: string, timestamp: string)
    requires |t| >= |m| && t[..|m|] == m
    ensures var text := TextItem(Some(t), timestamp).text;
      |text| >= |TextFeedbackLabel + m| && text[..|TextFeedbackLabel + m|] == TextFeedbackLabel + m
  {
    var text := TextItem(Some(t), timestamp).text;
    assert text == TextFeedbackLabel + m + (t[|m|..] + SubmittedAtLabel + timestamp) by {
      assert t == m + t[|m|..];
    }
  }

  /**
   * For a dialog that kept its invariant, the tool raises exactly when the user
   * cancelled; a timed-out wait and every submission give a list of items.
   */
  lemma RaisesOnlyOnCancel(d: Dialog, now: string)
    requires Inv(d)
    ensures FeedbackItems(Outcome(d), now).Err? <==> Outcome(d).Some? && !Outcome(d).value.Success()
  {
    if Outcome(d).Some? && Outcome(d).value.Success() {
      assert d.results[0] in d.results;
      ConsistentResultItems(d.results[0], now);
    }
  }
}
