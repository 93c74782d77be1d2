# Feedback dialog of the MCP feedback collector, in Dafny

This project models the logic at the centre of the `collect_feedback` tool
of the MCP feedback collector. The tool opens a dialog that shows the AI's
work summary and asks the human for text feedback and images. Whatever the
human submits goes back to the caller as a list of content items.

The dialog state is modelled as immutable values, and every event handler
as a pure function from the old state to the new one:

- **Images** (`images.dfy`). The dialog's `selected_images` list of
  records (bytes, source label, decoded size) and the four operations that
  change it:
  - adding the files chosen in the file dialog (`select_image_file`);
  - pasting a picture from the clipboard (`paste_from_clipboard`);
  - removing one entry by index (`remove_image`);
  - clearing the list (`clear_all_images`).

  The collection invariant `Valid` says that every record's bytes decode,
  to the size the record holds.
- **Feedback** (`feedback.dfy`). The text box and the dialog's two terminal
  actions:
  - the box empties itself on focus when it still shows the placeholder
    (`clear_placeholder`);
  - `submit_feedback` reads the box, strips it, maps the placeholder to no
    text, rejects a submission with neither text nor images, and builds the
    result dictionary that goes on the queue;
  - `cancel` queues a cancellation.
- **Tool** (`tool.dfy`). `collect_feedback` once the wait on the queue is
  over. It maps a missing result to the timeout exception, a cancellation
  to an exception carrying its message, and a submission to an optional
  text item followed by one PNG image item per image.
- **Markdown** (`markdown.dfy`). The rendering of the work summary:
  - `set_markdown_content` (called with the placeholder line in place of an
    empty summary) cuts the summary at line breaks and classifies
    each line by its prefix: `### `, `## `, `# `, a code fence, or a list
    bullet or number;
  - `process_inline_markdown` removes the delimiters of inline code, bold
    and italic spans. These are the three regular-expression substitutions,
    written out as a scan (`CloseAt`, `Unwrap`) that finds exactly the
    matches Python's `re.sub` finds.
- **Text** (`text.dfy`). Python's `str.strip` with its exact whitespace
  set, `str.split` on a single character and its inverse `join`, and
  decimal rendering of non-negative integers.
- **Scenarios** (`scenarios.dfy`). Whole sessions, from the first action in
  the dialog to what the caller receives.

Calls into code outside the model become parameters:

- reading a file (`ChosenFile.contents`, `None` when the read raises);
- decoding bytes with the image library (`Decoder`);
- grabbing the clipboard (`Clipboard`);
- saving a picture as PNG (`Encoder`);
- the current time (`timestamp`);
- the outcome of the wait on the result queue (`Option<QueueItem>`).

Python's `text_widget.get(1.0, END)` always ends with a line break. The
model writes that out (`WidgetText`) and proves that stripping removes it
(`Text.StripTrailingNewline`).

Four details of the code that the model keeps as written:

- Records are labelled `文件: <name>` for a file and `剪贴板` for a paste.
- An empty byte sequence is not rejected by the collection code itself.
  Whether such bytes are accepted is up to the decoder.
- A pasted picture is stored with the picture's own size, without decoding
  the PNG again.
- Removing at an index outside the list changes nothing and reports
  nothing. It is not an error.

## Model

| member | source | states |
|---|---|---|
| Text.Strip | src/mcp_feedback_collector/server.py:730 | Python's `str.strip`. The result has no whitespace at either end and is empty exactly when the input is all whitespace. It is the input's characters after the leading whitespace, in place, and everything after it in the input is whitespace. |
| Text.StripWindow | src/mcp_feedback_collector/server.py:730 | Whenever a window of the input has whitespace on both sides of it and none at its own ends, stripping yields exactly that window. |
| Text.StripPadded | src/mcp_feedback_collector/server.py:730 | Text without whitespace at its ends, surrounded by any whitespace, strips to that text. |
| Text.StripUnpadded | src/mcp_feedback_collector/server.py:730 | Text with no whitespace at either end is unchanged by stripping. |
| Text.StripTrailingNewline | src/mcp_feedback_collector/server.py:589-592 | The line break Tk appends to the box's text never changes what stripping yields. |
| Text.StripIdempotent | src/mcp_feedback_collector/server.py:730 | Stripping twice is the same as stripping once. |
| Text.Split | src/mcp_feedback_collector/server.py:540 | `str.split` on one character. There is always at least one piece, and no piece contains the separator. |
| Text.SplitCount | src/mcp_feedback_collector/server.py:540 | There is one piece more than the text has separators. |
| Text.JoinSplit | src/mcp_feedback_collector/server.py:540 | Joining the pieces with the separator gives back the original text. |
| Text.SplitJoin | src/mcp_feedback_collector/server.py:540 | Splitting a join of separator-free pieces gives back those pieces. |
| Text.NatToDecimal | src/mcp_feedback_collector/server.py:782 | `str(n)` in the f-string: at least one digit, digits only, and no leading zero unless the number is zero. |
| Text.ParseNatToDecimal | src/mcp_feedback_collector/server.py:782 | The decimal rendering of a non-negative integer in an f-string reads back as that integer. |
| Text.WithoutAbsent | src/mcp_feedback_collector/server.py:579-585 | Deleting a character that does not occur leaves a text unchanged. |
| Images.BaseName | src/mcp_feedback_collector/server.py:617 | `Path(file_path).name`. The result contains no `/`, is the whole path or what follows its last `/`, and its characters are the path's last characters, in place. |
| Images.BaseNameOfChild | src/mcp_feedback_collector/server.py:617 | The name of `dir/name` is `name`, for any directory. |
| Images.Admit | src/mcp_feedback_collector/server.py:609-620 | A chosen file yields a record exactly when it was read and its bytes decode. The record holds the file's bytes, the label `文件: ` followed by the file's name, and the decoded size. |
| Images.AddFile | src/mcp_feedback_collector/server.py:608-623 | One turn of the loop adds one record or one error name, never both. Earlier records are kept, and an added record is labelled as coming from a file and decodes to its size. |
| Images.SelectImageFiles | src/mcp_feedback_collector/server.py:608-625 | Each chosen file adds one record or one error, so records plus errors grow by the number of files. The existing list is kept as a prefix, and every appended record comes from a file and decodes. |
| Images.SelectImageFilesPartition | src/mcp_feedback_collector/server.py:608-625 | The appended records are exactly those of the files that decode, in the order chosen. The error names are exactly those of the files that do not decode, in the same order. |
| Images.SelectImageFilesAppend | src/mcp_feedback_collector/server.py:608-623 | Choosing `a` then `b` in one dialog equals adding `a` and then adding `b`, so files are handled strictly in order. |
| Images.SelectImageFilesSkipsFailure | src/mcp_feedback_collector/server.py:622-623 | A file that cannot be read or decoded adds no record. The other files give the same list as without it, and one more error is reported. |
| Images.AdmittedAll | src/mcp_feedback_collector/server.py:608-620 | When every chosen file decodes there is one record per file, in order, and nothing is unreadable. |
| Images.SelectImageFilesAllDecode | src/mcp_feedback_collector/server.py:608-625 | When every chosen file decodes, the list grows by exactly those records, in the order chosen, and no error is shown. |
| Images.SelectImageFilesKeepsValid | src/mcp_feedback_collector/server.py:608-625 | Adding files preserves the collection invariant. |
| Images.PasteFromClipboard | src/mcp_feedback_collector/server.py:627-650 | A paste succeeds exactly when the clipboard holds a picture and saving it as PNG works. It then appends one record at the end with the PNG bytes, the label `剪贴板` and the picture's size. An empty clipboard, and only that, shows the warning `剪贴板中没有图片数据`, and in every case but success the list is unchanged. |
| Images.PasteFromClipboardKeepsValid | src/mcp_feedback_collector/server.py:627-650 | Pasting preserves the collection invariant when the saved PNG decodes to the picture's size. |
| Images.RemoveImage | src/mcp_feedback_collector/server.py:721-725 | An index inside the list drops exactly that entry and keeps the others in order. Any other index, negative ones included, leaves the list unchanged. |
| Images.RemoveImageThenReinsert | src/mcp_feedback_collector/server.py:721-725 | Putting the removed entry back at its index restores the list. As multisets, the result plus the removed entry equals the original. |
| Images.RemoveImageKeepsValid | src/mcp_feedback_collector/server.py:721-725 | Removal preserves the collection invariant. |
| Images.ClearAllImages | src/mcp_feedback_collector/server.py:652-655 | The list is empty afterwards. |
| Feedback.WidgetText | src/mcp_feedback_collector/server.py:730 | What Tk returns for the box is its contents followed by exactly one line break. |
| Feedback.ClearPlaceholder | src/mcp_feedback_collector/server.py:589-592 | On focus the box is emptied exactly when its stripped contents are the placeholder. Otherwise it is left as it was. |
| Feedback.FeedbackText | src/mcp_feedback_collector/server.py:730-732 | The text a submit reads is empty exactly when the box is blank or shows only the placeholder. Otherwise it is the box's contents stripped, and is not the placeholder. |
| Feedback.FeedbackTextIdempotent | src/mcp_feedback_collector/server.py:730-732 | Reading the text back from a box holding the text read gives the same text. |
| Feedback.ClearPlaceholderKeepsFeedback | src/mcp_feedback_collector/server.py:589-592 | Focusing the box never changes what a later submit reads. |
| Feedback.UnpaddedTextIsRead | src/mcp_feedback_collector/server.py:730-732 | Text without surrounding whitespace that is not the placeholder is read exactly as typed. |
| Feedback.PaddedTextIsRead | src/mcp_feedback_collector/server.py:730-732 | Typed text that is not the placeholder is read without any whitespace typed around it. |
| Feedback.ImageData | src/mcp_feedback_collector/server.py:746 | The bytes of the records, one per record, in collection order. |
| Feedback.ImageSources | src/mcp_feedback_collector/server.py:747 | The labels of the records, one per record, in collection order. |
| Feedback.Assemble | src/mcp_feedback_collector/server.py:743-752 | The result dictionary is a success and well formed: the text is present exactly when `has_text` holds, and both lists are present exactly when `has_images` holds. Both lists are `image_count` long and in collection order, and at least one of text and images is present. |
| Feedback.SubmitFeedback | src/mcp_feedback_collector/server.py:727-754 | A submit is rejected with the warning exactly when the text read is empty and there are no images. Otherwise it queues the result assembled from that text and the collection. |
| Feedback.ClearedImagesNeedText | src/mcp_feedback_collector/server.py:652-655 | After clearing all images, a submit goes through exactly when there is text. |
| Tool.ErrorMessage | src/mcp_feedback_collector/server.py:781-785 | A cancellation raises with its own message unchanged. The timeout message is its fixed beginning and end around a decimal, without leading zeros, that reads back as the configured seconds. A negative timeout gives the message of the `ValueError` that the queue wait at line 73 raises. |
| Tool.TextItem | src/mcp_feedback_collector/server.py:791-796 | The text item is the label `用户文字反馈：`, the feedback, the label `\n提交时间：` and the time stamp, so the feedback and the time stamp read back at fixed offsets. |
| Tool.ImageItems | src/mcp_feedback_collector/server.py:799-801 | `zip` of bytes and labels gives one PNG item per pair, as many as the shorter list has, in order. |
| Tool.CollectFeedback | src/mcp_feedback_collector/server.py:67-803 | A negative timeout raises before any result, as the queue wait at line 73 does. Otherwise no result is a timeout naming the configured seconds, and a cancellation raises with its message. A well-formed submission gives `(has_text ? 1 : 0) + image_count` items: the text item first when there is text, then the images in order. |
| Tool.SubmissionItems | src/mcp_feedback_collector/server.py:788-803 | A well-formed submission gives the text item first when there is text, then one PNG item per image, in order, and nothing else. |
| Tool.CancelIsRefused | src/mcp_feedback_collector/server.py:757-763 | A cancel reaches the caller as an exception whose message is the cancel message. |
| Tool.CollectAssembled | src/mcp_feedback_collector/server.py:743-803 | Whatever text and images a submit assembles, the caller gets the text item holding that text, when there is text, then the bytes of every collected image, in collection order. |
| Tool.SubmitThenCollect | src/mcp_feedback_collector/server.py:743-803 | Whatever a submit queues, the caller gets the text item holding exactly the stripped text (when there is text), then one PNG item per collected image, in collection order. |
| Markdown.CloseAt | src/mcp_feedback_collector/server.py:579-585 | A match found at the start of a line is a delimiter run, at least one non-delimiter character, and a second delimiter run. |
| Markdown.CloseAtComplete | src/mcp_feedback_collector/server.py:579-585 | Whenever a line starts with such a match, it is found, at the first delimiter after the opening run. |
| Markdown.Unwrap | src/mcp_feedback_collector/server.py:579-585 | One `re.sub` of a delimited span pattern. The substitution never makes a line longer. |
| Markdown.UnwrapIdentity | src/mcp_feedback_collector/server.py:579-585 | A line without the delimiter character is unchanged by the substitution. |
| Markdown.UnwrapFewDelimiters | src/mcp_feedback_collector/server.py:579-585 | A match needs two runs of delimiters, so text with fewer delimiters than that is left unchanged, every delimiter kept. |
| Markdown.CloseAtNeedsTwoRuns | src/mcp_feedback_collector/server.py:579-585 | Whenever a match is found, the text holds at least two runs' worth of the delimiter. |
| Markdown.UnwrapOnlyDropsDelimiters | src/mcp_feedback_collector/server.py:579-585 | The substitution removes only delimiter characters. With those removed from both, the line before and after are equal. |
| Markdown.ProcessInlineMarkdown | src/mcp_feedback_collector/server.py:576-587 | The result is never longer than the line, equals the line when it holds neither a backtick nor an asterisk, and differs from it only in backticks and asterisks. |
| Markdown.LoneDelimitersKept | src/mcp_feedback_collector/server.py:576-587 | A line with at most one backtick and at most one asterisk is shown as written, so `2 * 3` keeps its asterisk. |
| Markdown.HeadingPrefixesExclusive | src/mcp_feedback_collector/server.py:547-558 | A line starts with at most one of `### `, `## ` and `# `. |
| Markdown.IsNumbered | src/mcp_feedback_collector/server.py:565 | `re.match(r'^\d+\. ', line)`. When it holds, the whole leading digit run, which is non-empty, is followed by a dot and a space. |
| Markdown.IsNumberedIff | src/mcp_feedback_collector/server.py:565 | `IsNumbered`, the match of `^\d+\. `, holds exactly when some non-empty run of digits opens the line and is followed by a dot and a space. |
| Markdown.ListLineStart | src/mcp_feedback_collector/server.py:565 | A list line starts with neither `#` nor a backtick, so it can never carry a heading or fence prefix. |
| Markdown.ClassifyLine | src/mcp_feedback_collector/server.py:547-572 | Each style is chosen exactly when its prefix is present. Headings lose exactly their prefix, fences and list lines are kept verbatim, and any other line is shown as its inline markdown processed, which keeps everything but inline delimiters. |
| Markdown.SetMarkdownContent | src/mcp_feedback_collector/server.py:530-574 | Empty content shows the placeholder. Other content shows one line per line break plus one, each the classification of the corresponding piece. |
| Markdown.EmitJoin | src/mcp_feedback_collector/server.py:547-572 | Shown lines are the pieces joined by line breaks, with one more line break at the end. |
| Markdown.UnmarkedContentShownVerbatim | src/mcp_feedback_collector/server.py:530-574 | A summary with no `#`, backtick or asterisk is shown exactly as written, followed by a line break. |
| Markdown.EmptyContentShowsPlaceholder | src/mcp_feedback_collector/server.py:535-538 | An empty summary shows the fixed placeholder text. The dialog itself never passes an empty summary: line 165 substitutes the placeholder line first, which then takes the plain-line path and is shown followed by a line break. |
| Scenarios.TextAloneIsOneItem | src/mcp_feedback_collector/server.py:788-803 | A submission of text alone reaches the caller as the single item `用户文字反馈：<text>` followed by the submit time. |
| Scenarios.TextOnlySubmission | src/mcp_feedback_collector/server.py:727-803 | Text alone, without surrounding whitespace, reaches the caller as the single item `用户文字反馈：<text>` followed by the submit time. |
| Scenarios.TwoFilesSelected | src/mcp_feedback_collector/server.py:608-625 | Two decodable files give two records in order and no error. |
| Scenarios.ImageOnlySubmission | src/mcp_feedback_collector/server.py:727-803 | One image and no text reach the caller as a single PNG item. |
| Scenarios.AddTwoRemoveFirst | src/mcp_feedback_collector/server.py:721-801 | Adding two files, removing the first and submitting empty text gives the caller the second file's bytes alone. |
| Scenarios.UnreadableFileSkipped | src/mcp_feedback_collector/server.py:608-623 | An unreadable file adds nothing and is reported under its name. |
| Scenarios.NoAnswerTimesOut | src/mcp_feedback_collector/server.py:781-782 | With no answer the caller sees `操作超时（1秒），请重试` for a one-second timeout. |
| Scenarios.CancelledSession | src/mcp_feedback_collector/server.py:757-785 | After cancel the caller sees the cancel message. |
| Scenarios.BlankSubmissionRejected | src/mcp_feedback_collector/server.py:730-740 | Only whitespace and no images is rejected with the warning. |
| Scenarios.PlaceholderSubmissionRejected | src/mcp_feedback_collector/server.py:730-740 | The untouched placeholder and no images is rejected with the warning. |

## Left out

- The Tk interface is not modelled: layout, styling, theme switching, window centring, message boxes and thumbnails (`update_image_preview`). A message box appears only as a notice value or the list of reported file names.
- The dialog thread and the wait on the result queue with its timeout are not modelled. Their outcome enters `Tool.CollectFeedback` as an optional queue item; only the wait's refusal of a negative timeout is kept, as `InvalidTimeout`. The refusal of a timeout above `threading.TIMEOUT_MAX` is not kept (see the `Tool.CollectFeedback` line).
- The image library, file reads, the clipboard grab and PNG saving are foreign calls. They enter as parameters, and the image object kept for previews is dropped from the record.
- `get_image_info` and `pick_image` are not modelled. One does filesystem access and formats sizes in floating point; the other is a thin wrapper around the dialog.
- Reading the timeout from the environment and the MCP server registration and startup are not modelled.
- The current time is a parameter: `datetime.now().isoformat()` is not modelled.
- The text of the exception in the error boxes (`str(e)`) is not modelled.
- Images.BaseName: treats only `/` as a separator. It does not model `Path.name` for Windows backslashes, for paths ending in a slash, or for a final `.` component, which `Path` drops: `Path("a/.").name` is `a`, while the model gives `.`.
- Markdown.IsNumbered: counts only ASCII digits, whereas Python's `\d` also matches other Unicode decimal digits.
- Tool.CollectFeedback: an item whose `has_images` is set without image lists makes Python raise a `TypeError`. The model reports it as `Internal`, with no message text. Its contract covers only well-formed items, which are the only ones `submit_feedback` builds.
- Tool.CollectFeedback: a timeout above `threading.TIMEOUT_MAX` makes the wait at line 73 raise `OverflowError`, which is not caught, so no timeout message is shown. The limit depends on the platform (about 4294967 seconds on Windows, about 9223372036 on 64-bit Linux), so the model has no such case: for every timeout of zero or more it gives `TimedOut` or the result.
- Markdown.ProcessInlineMarkdown: its contract states the length bound, the identity on lines without markup, and that only delimiters are removed; `LoneDelimitersKept` adds that a lone backtick or asterisk is kept. Which spans are removed in general is defined by `Unwrap` and characterised by `CloseAt`/`CloseAtComplete`, not restated in the contract.
- Markdown.Unwrap: its contract is the length bound only. That a delimiter outside every match is kept is proved only for text with fewer than two runs of delimiters (`UnwrapFewDelimiters`); for other text it follows from the definition and is not stated as a lemma.
- The tag ranges that style each shown line are not modelled. The model keeps each line's style and text.
