/** The `collect_feedback` tool: it turns what the dialog's result queue
    yielded into the list of content items handed back to the caller, or
    into the exception the caller sees. Waiting on the queue is outside the
    model; its outcome enters as `result`, `None` when the wait timed out. */
module Tool {
  import opened Wrappers
  import opened Text
  import opened Images
  import opened Feedback

  /** A content item of the tool's answer: text, or image bytes with their
      declared format. */
  datatype Content = TextContent(text: string) | ImageContent(data: Bytes, format: string)

  /** Why the tool raises instead of answering. `InvalidTimeout` is the
      `ValueError` that waiting on the queue with a negative timeout raises
      before any result can arrive; `Internal` stands for the `TypeError`
      that iterating a missing image list would raise. */
  datatype ToolError = TimedOut(seconds: nat) | Refused(message: string) | InvalidTimeout | Internal

  const TimeoutPrefix: string := "操作超时（"
  const TimeoutSuffix: string := "秒），请重试"
  const InvalidTimeoutMessage: string := "'timeout' must be a non-negative number"
  const TextLabel: string := "用户文字反馈："
  const StampLabel: string := "\n提交时间："

  /** The text of the exception the caller sees. A cancel's message passes
      through unchanged; the timeout message consists of its fixed
      beginning and end around a decimal, without leading zeros, that reads
      back as the timeout. */
  function ErrorMessage(e: ToolError): (m: string)
    requires !e.Internal?
    ensures e.Refused? ==> m == e.message
    ensures e.InvalidTimeout? ==> m == InvalidTimeoutMessage
    ensures e.TimedOut? ==>
              && |TimeoutPrefix| + |TimeoutSuffix| < |m|
              && m[..|TimeoutPrefix|] == TimeoutPrefix
              && m[|m| - |TimeoutSuffix|..] == TimeoutSuffix
              && AllDigits(m[|TimeoutPrefix|..|m| - |TimeoutSuffix|])
              && ParseNat(m[|TimeoutPrefix|..|m| - |TimeoutSuffix|]) == e.seconds
              && (|m| - |TimeoutSuffix| - |TimeoutPrefix| == 1 || m[|TimeoutPrefix|] != '0')
  {
    match e
    case TimedOut(seconds) =>
      var d := NatToDecimal(seconds);
      var m := TimeoutPrefix + d + TimeoutSuffix;
      ParseNatToDecimal(seconds);
      assert m[|TimeoutPrefix|..|m| - |TimeoutSuffix|] == d;
      assert m[|TimeoutPrefix|] == d[0];
      assert m[..|TimeoutPrefix|] == TimeoutPrefix;
      assert m[|m| - |TimeoutSuffix|..] == TimeoutSuffix;
      m
    case Refused(message) => message
    case InvalidTimeout => InvalidTimeoutMessage
  }

  /** Python's f-string rendering of an optional text: the text, or `None`. */
  function Show(text: Option<string>): string {
    match text
    case Some(t) => t
    case None => "None"
  }

  /** The text item built from the submitted text and its time stamp: a
      fixed label, the text, a second label, the time stamp, so that both
      can be read back at known offsets. */
  function TextItem(text: Option<string>, timestamp: string): (r: Content)
    ensures r.TextContent?
    ensures StartsWith(r.text, TextLabel)
    ensures |TextLabel| + |Show(text)| + |StampLabel| + |timestamp| == |r.text|
    ensures r.text[|TextLabel|..|TextLabel| + |Show(text)|] == Show(text)
    ensures r.text[|r.text| - |timestamp| - |StampLabel|..|r.text| - |timestamp|] == StampLabel
    ensures r.text[|r.text| - |timestamp|..] == timestamp
  {
    var shown := Show(text);
    var t := TextLabel + shown + StampLabel + timestamp;
    assert t[..|TextLabel|] == TextLabel;
    assert t[|TextLabel|..|TextLabel| + |shown|] == shown;
    assert t[|t| - |timestamp| - |StampLabel|..|t| - |timestamp|] == StampLabel;
    assert t[|t| - |timestamp|..] == timestamp;
    TextContent(t)
  }

  /** `for image_data, source in zip(images, sources)`: one PNG image item
      per pair, stopping at the end of the shorter list. */
  function ImageItems(images: seq<Bytes>, sources: seq<string>): (r: seq<Content>)
    ensures |r| == if |images| <= |sources| then |images| else |sources|
    ensures forall k :: 0 <= k < |r| ==> r[k] == ImageContent(images[k], "png")
    decreases |images|
  {
    if |images| == 0 || |sources| == 0 then []
    else [ImageContent(images[0], "png")] + ImageItems(images[1..], sources[1..])
  }

  /** `collect_feedback` once the wait on the queue is over. A negative
      timeout makes the wait itself raise, whatever the dialog does. Otherwise
      a missing result is a timeout naming the configured duration; a
      cancellation raises with its message; a submission becomes an optional
      text item followed by one image item per image, in collection order. */
  function CollectFeedback(timeoutSeconds: int, result: Option<QueueItem>): (r: Result<seq<Content>, ToolError>)
    ensures timeoutSeconds < 0 ==> r == Failure(InvalidTimeout)
    ensures timeoutSeconds >= 0 && result.None? ==> r == Failure(TimedOut(timeoutSeconds))
    ensures timeoutSeconds >= 0 && result.Some? && !result.value.Success() ==> r == Failure(Refused(result.value.message))
    ensures timeoutSeconds >= 0 && result.Some? && result.value.Success() && WellFormed(result.value) ==>
      var item := result.value;
      var offset := if item.hasText then 1 else 0;
      && r.Success?
      && |r.value| == offset + item.imageCount
      && (item.hasText ==> r.value[0] == TextItem(item.textFeedback, item.timestamp))
      && forall k :: 0 <= k < item.imageCount ==> r.value[offset + k] == ImageContent(item.images.value[k], "png")
  {
    if timeoutSeconds < 0 then Failure(InvalidTimeout)
    else
      match result
      case None => Failure(TimedOut(timeoutSeconds))
      case Some(Cancellation(message)) => Failure(Refused(message))
      case Some(item) => SubmissionItems(item)
  }

  /** The items a submission becomes: an optional text item followed by one
      image item per image, in collection order; a submission that claims
      images but lacks the lists raises. */
  function SubmissionItems(item: QueueItem): (r: Result<seq<Content>, ToolError>)
    requires item.Success()
    ensures WellFormed(item) ==>
      var offset := if item.hasText then 1 else 0;
      && r.Success?
      && |r.value| == offset + item.imageCount
      && (item.hasText ==> r.value[0] == TextItem(item.textFeedback, item.timestamp))
      && forall k :: 0 <= k < item.imageCount ==> r.value[offset + k] == ImageContent(item.images.value[k], "png")
  {
    var text := if item.hasText then [TextItem(item.textFeedback, item.timestamp)] else [];
    if !item.hasImages then Success(text)
    else if item.images.None? || item.imageSources.None? then Failure(Internal)
    else Success(text + ImageItems(item.images.value, item.imageSources.value))
  }

  /** A cancel reaches the caller as an exception carrying the cancel
      message. */
  lemma CancelIsRefused(timeoutSeconds: nat)
    ensures CollectFeedback(timeoutSeconds, Some(Cancel)) == Failure(Refused(CancelMessage))
    ensures ErrorMessage(Refused(CancelMessage)) == CancelMessage
  {
  }

  /** Whatever item a submit assembles, the caller gets one text item
      holding the text when there is text, then the bytes of every
      collected image, as PNG items, in the order they were collected. */
  lemma CollectAssembled(text: string, images: seq<ImageRecord>, timestamp: string, timeoutSeconds: nat)
    requires text != "" || |images| > 0
    ensures var offset := if text != "" then 1 else 0;
            var r := CollectFeedback(timeoutSeconds, Some(Assemble(text, images, timestamp)));
            && r.Success?
            && |r.value| == offset + |images|
            && (text != "" ==> r.value[0] == TextContent(TextLabel + text + StampLabel + timestamp))
            && forall k :: 0 <= k < |images| ==> r.value[offset + k] == ImageContent(images[k].data, "png")
  {
    var offset := if text != "" then 1 else 0;
    var item := Assemble(text, images, timestamp);
    assert WellFormed(item) && item.Success();
    var r := CollectFeedback(timeoutSeconds, Some(item));
    assert r.Success? && |r.value| == offset + |images|;
    if text != "" {
      assert item.textFeedback == Some(text);
      assert r.value[0] == TextItem(Some(text), timestamp);
    }
    forall k | 0 <= k < |images| ensures r.value[offset + k] == ImageContent(images[k].data, "png") {
      assert item.images.value[k] == images[k].data;
    }
  }

  /** End to end: whatever a submit queues, the caller gets one text item
      holding the submitted text when there is text, then the bytes of every
      collected image, as PNG items, in the order they were collected. */
  lemma SubmitThenCollect(contents: string, images: seq<ImageRecord>, timestamp: string, timeoutSeconds: nat)
    ensures var text := FeedbackText(contents);
            var offset := if text != "" then 1 else 0;
            var outcome := SubmitFeedback(contents, images, timestamp);
            outcome.Posted? ==>
            var r := CollectFeedback(timeoutSeconds, Some(outcome.item));
            && r.Success?
            && |r.value| == offset + |images|
            && (text != "" ==> r.value[0] == TextContent(TextLabel + text + StampLabel + timestamp))
            && forall k :: 0 <= k < |images| ==> r.value[offset + k] == ImageContent(images[k].data, "png")
  {
    var text := FeedbackText(contents);
    if text != "" || |images| > 0 {
      assert SubmitFeedback(contents, images, timestamp).item == Assemble(text, images, timestamp);
      CollectAssembled(text, images, timestamp, timeoutSeconds);
    }
  }
}
