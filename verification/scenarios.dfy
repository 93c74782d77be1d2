/** Whole sessions, from the first action in the dialog to what the caller
    of `collect_feedback` receives, for concrete inputs. */
module Scenarios {
  import opened Wrappers
  import opened Text
  import opened Images
  import opened Feedback
  import opened Tool

  const Stamp: string := "2025-01-01T12:00:00"

  /** Text only: the caller gets one text item holding the text as typed. */
  lemma TextOnlySubmission(contents: string, timestamp: string, timeoutSeconds: nat)
    requires contents != "" && !IsSpace(contents[0]) && !IsSpace(contents[|contents| - 1])
    requires contents != FeedbackPlaceholder
    ensures var outcome := SubmitFeedback(contents, [], timestamp);
            && outcome.Posted?
            && CollectFeedback(timeoutSeconds, Some(outcome.item))
               == Success([TextContent(TextLabel + contents + StampLabel + timestamp)])
  {
    UnpaddedTextIsRead(contents);
    assert SubmitFeedback(contents, [], timestamp) == Posted(Assemble(contents, [], timestamp));
    TextAloneIsOneItem(contents, timestamp, timeoutSeconds);
  }

  /** Assembled text without images reaches the caller as one text item. */
  lemma TextAloneIsOneItem(text: string, timestamp: string, timeoutSeconds: nat)
    requires text != ""
    ensures CollectFeedback(timeoutSeconds, Some(Assemble(text, [], timestamp)))
            == Success([TextContent(TextLabel + text + StampLabel + timestamp)])
  {
    CollectAssembled(text, [], timestamp, timeoutSeconds);
    var r := CollectFeedback(timeoutSeconds, Some(Assemble(text, [], timestamp)));
    assert r.value == [r.value[0]];
  }

  /** Two files that both decode are added as two records, in order. */
  lemma TwoFilesSelected(decode: Decoder, first: ChosenFile, second: ChosenFile)
    requires Admit(decode, first).Some? && Admit(decode, second).Some?
    ensures SelectImageFiles(decode, [], [first, second])
            == Ingested([Admit(decode, first).value, Admit(decode, second).value], [])
  {
    var files := [first, second];
    SelectImageFilesAllDecode(decode, [], files);
    var r := SelectImageFiles(decode, [], files);
    assert r.images == [r.images[0], r.images[1]];
  }

  /** Images only, no text: the caller gets one PNG item per image. */
  lemma ImageOnlySubmission(rec: ImageRecord, timestamp: string, timeoutSeconds: nat)
    ensures var outcome := SubmitFeedback("", [rec], timestamp);
            outcome.Posted? && CollectFeedback(timeoutSeconds, Some(outcome.item)) == Success([ImageContent(rec.data, "png")])
  {
    assert FeedbackText("") == "" by { assert AllSpace(""); }
    var outcome := SubmitFeedback("", [rec], timestamp);
    var r := CollectFeedback(timeoutSeconds, Some(outcome.item));
    SubmitThenCollect("", [rec], timestamp, timeoutSeconds);
    assert r.value == [r.value[0]];
  }

  /** Two files added, the first removed, empty text submitted: the caller
      gets the second file's bytes as the only item. */
  lemma AddTwoRemoveFirst(decode: Decoder, first: ChosenFile, second: ChosenFile, timestamp: string, timeoutSeconds: nat)
    requires Admit(decode, first).Some? && Admit(decode, second).Some?
    ensures var added := SelectImageFiles(decode, [], [first, second]);
            var outcome := SubmitFeedback("", RemoveImage(added.images, 0), timestamp);
            && added.failed == []
            && outcome.Posted?
            && CollectFeedback(timeoutSeconds, Some(outcome.item)) == Success([ImageContent(second.contents.value, "png")])
  {
    var b := Admit(decode, second).value;
    TwoFilesSelected(decode, first, second);
    var kept := RemoveImage([Admit(decode, first).value, b], 0);
    assert kept == [b];
    ImageOnlySubmission(b, timestamp, timeoutSeconds);
  }

  /** A file that cannot be read is reported by its name and adds nothing. */
  lemma UnreadableFileSkipped(decode: Decoder, images: seq<ImageRecord>, dir: string, name: string)
    requires '/' !in name
    ensures SelectImageFiles(decode, images, [ChosenFile(dir + "/" + name, None)]) == Ingested(images, [name])
  {
    BaseNameOfChild(dir, name);
    assert [ChosenFile(dir + "/" + name, None)][..0] == [];
  }

  /** No answer within the timeout: the caller sees a timeout naming one
      second. */
  lemma NoAnswerTimesOut()
    ensures CollectFeedback(1, None) == Failure(TimedOut(1))
    ensures ErrorMessage(TimedOut(1)) == "操作超时（1秒），请重试"
  {
  }

  /** Cancel: the caller sees the cancellation message. */
  lemma CancelledSession()
    ensures CollectFeedback(300, Some(Cancel)) == Failure(Refused("用户取消了反馈提交"))
  {
  }

  /** Only whitespace and no images: nothing is queued. */
  lemma BlankSubmissionRejected()
    ensures SubmitFeedback(" \n\t", [], Stamp) == Rejected(EmptySubmitWarning)
  {
    assert AllSpace(" \n\t");
  }

  /** The untouched placeholder and no images: nothing is queued. */
  lemma PlaceholderSubmissionRejected()
    ensures SubmitFeedback(FeedbackPlaceholder, [], Stamp) == Rejected(EmptySubmitWarning)
  {
    assert !IsSpace(FeedbackPlaceholder[0]) && !IsSpace(FeedbackPlaceholder[|FeedbackPlaceholder| - 1]);
    StripUnpadded(FeedbackPlaceholder);
  }
}
