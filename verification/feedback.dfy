/** The two terminal actions of the feedback dialog, `submit_feedback` and
    `cancel`, the placeholder handling of the feedback text box, and the
    item each action puts on the dialog's result queue. */
module Feedback {
  import opened Wrappers
  import opened Text
  import opened Images

  /** The text the feedback box starts out with. */
  const FeedbackPlaceholder: string := "请在此输入您的反馈、建议或问题..."
  /** The warning shown when a submit has neither text nor images. */
  const EmptySubmitWarning: string := "请至少提供文字反馈或图片反馈"
  /** The message a cancel puts on the queue. */
  const CancelMessage: string := "用户取消了反馈提交"

  /** What Tk's `get(1.0, END)` returns for a text box showing `contents`:
      Tk always ends the text with one line break. */
  function WidgetText(contents: string): (r: string)
    ensures |r| == |contents| + 1 && r[..|contents|] == contents && r[|contents|] == '\n'
  {
    contents + "\n"
  }

  /** `clear_placeholder` on focus: the box is emptied when, and only when,
      it shows nothing but the placeholder; otherwise it keeps its contents. */
  function ClearPlaceholder(contents: string): (r: string)
    ensures r == contents || r == ""
    ensures r == "" <==> contents == "" || Strip(contents) == FeedbackPlaceholder
  {
    StripTrailingNewline(contents);
    if Strip(WidgetText(contents)) == FeedbackPlaceholder then "" else contents
  }

  /** The text `submit_feedback` reads from the box: the contents stripped of
      surrounding whitespace, with the untouched placeholder counting as no
      text at all. */
  function FeedbackText(contents: string): (t: string)
    ensures t == "" || (Strip(t) == t && t != FeedbackPlaceholder)
    ensures t == "" <==> AllSpace(contents) || Strip(contents) == FeedbackPlaceholder
    ensures t != "" ==> t == Strip(contents)
  {
    StripTrailingNewline(contents);
    var text := Strip(WidgetText(contents));
    if text == FeedbackPlaceholder then ""
    else
      StripIdempotent(contents);
      text
  }

  /** Reading the text of a box that already holds submitted text reads the
      same text again. */
  lemma FeedbackTextIdempotent(contents: string)
    ensures FeedbackText(FeedbackText(contents)) == FeedbackText(contents)
  {
    var t := FeedbackText(contents);
    if t != "" {
      StripTrailingNewline(t);
    }
  }

  /** Focusing the box (which clears the placeholder) never changes what a
      later submit reads from it. */
  lemma ClearPlaceholderKeepsFeedback(contents: string)
    ensures FeedbackText(ClearPlaceholder(contents)) == FeedbackText(contents)
  {
    StripTrailingNewline(contents);
    assert AllSpace("");
  }

  /** Text with no whitespace at either end, other than the placeholder, is
      read back exactly as typed. */
  lemma UnpaddedTextIsRead(contents: string)
    requires contents != "" && !IsSpace(contents[0]) && !IsSpace(contents[|contents| - 1])
    requires contents != FeedbackPlaceholder
    ensures FeedbackText(contents) == contents
  {
    StripTrailingNewline(contents);
    StripUnpadded(contents);
  }

  /** Whatever whitespace surrounds the typed text, a submit reads the
      text alone. */
  lemma PaddedTextIsRead(before: string, typed: string, after: string)
    requires AllSpace(before) && AllSpace(after)
    requires typed != "" && !IsSpace(typed[0]) && !IsSpace(typed[|typed| - 1])
    requires typed != FeedbackPlaceholder
    ensures FeedbackText(before + typed + after) == typed
  {
    var contents := before + typed + after;
    StripTrailingNewline(contents);
    StripPadded(before, typed, after);
  }

  /** An item on the dialog's result queue: the dictionary `submit_feedback`
      builds, or the one `cancel` builds. `success` is `True` for the first
      kind only. */
  datatype QueueItem =
    | Submission(textFeedback: Option<string>, images: Option<seq<Bytes>>, imageSources: Option<seq<string>>,
                 hasText: bool, hasImages: bool, imageCount: nat, timestamp: string)
    | Cancellation(message: string)
  {
    predicate Success() {
      Submission?
    }
  }

  /** The agreements between the fields of an item that `submit_feedback`
      promises: each optional field is present exactly when its flag is set,
      both lists are as long as the count, and something was submitted. */
  ghost predicate WellFormed(item: QueueItem) {
    item.Submission? ==>
      && (item.textFeedback.Some? <==> item.hasText)
      && (item.textFeedback.Some? ==> item.textFeedback.value != "")
      && (item.images.Some? <==> item.hasImages)
      && (item.imageSources.Some? <==> item.hasImages)
      && (item.hasImages <==> item.imageCount > 0)
      && (item.images.Some? ==> |item.images.value| == item.imageCount)
      && (item.imageSources.Some? ==> |item.imageSources.value| == item.imageCount)
      && (item.hasText || item.hasImages)
  }

  /** `[img['data'] for img in images]` */
  function ImageData(images: seq<ImageRecord>): (r: seq<Bytes>)
    ensures |r| == |images| && forall k :: 0 <= k < |r| ==> r[k] == images[k].data
  {
    seq(|images|, k requires 0 <= k < |images| => images[k].data)
  }

  /** `[img['source'] for img in images]` */
  function ImageSources(images: seq<ImageRecord>): (r: seq<string>)
    ensures |r| == |images| && forall k :: 0 <= k < |r| ==> r[k] == images[k].source
  {
    seq(|images|, k requires 0 <= k < |images| => images[k].source)
  }

  /** The result dictionary `submit_feedback` builds from the text it read
      and the collection, once it knows at least one of them is non-empty. */
  function Assemble(text: string, images: seq<ImageRecord>, timestamp: string): (item: QueueItem)
    requires text != "" || |images| > 0
    ensures WellFormed(item) && item.Success()
    ensures item.hasText == (text != "") && (item.hasText ==> item.textFeedback.value == text)
    ensures item.hasImages == (|images| > 0) && item.imageCount == |images|
    ensures item.hasImages ==>
      forall k :: 0 <= k < |images| ==>
        item.images.value[k] == images[k].data && item.imageSources.value[k] == images[k].source
    ensures item.timestamp == timestamp
  {
    var hasText := text != "";
    var hasImages := |images| > 0;
    Submission(
      if hasText then Some(text) else None,
      if hasImages then Some(ImageData(images)) else None,
      if hasImages then Some(ImageSources(images)) else None,
      hasText, hasImages, |images|, timestamp)
  }

  /** What a click on submit does: either a warning and nothing queued, or
      one item queued. */
  datatype SubmitOutcome = Rejected(warning: string) | Posted(item: QueueItem)

  /** `submit_feedback` with the box showing `contents`, the collection
      `images`, and `timestamp` the ISO form of the current time: with neither
      text nor images it only warns; otherwise it queues an item whose fields
      agree with the text and the collection, images in collection order. */
  function SubmitFeedback(contents: string, images: seq<ImageRecord>, timestamp: string): (r: SubmitOutcome)
    ensures r.Rejected? <==> FeedbackText(contents) == "" && |images| == 0
    ensures r.Rejected? ==> r.warning == EmptySubmitWarning
    ensures r.Posted? ==> r.item == Assemble(FeedbackText(contents), images, timestamp)
  {
    var text := FeedbackText(contents);
    if text == "" && |images| == 0 then Rejected(EmptySubmitWarning)
    else Posted(Assemble(text, images, timestamp))
  }

  /** After `clear_all_images` a submit goes through only if there is text. */
  lemma ClearedImagesNeedText(contents: string, images: seq<ImageRecord>, timestamp: string)
    ensures SubmitFeedback(contents, ClearAllImages(images), timestamp).Posted? <==> FeedbackText(contents) != ""
  {
  }

  /** `cancel`: the item it puts on the queue. */
  const Cancel: QueueItem := Cancellation(CancelMessage)
}
