/** How the dialog shows the caller's work summary: `set_markdown_content`
    classifies each line by its prefix and `process_inline_markdown` drops
    the inline delimiters of plain lines. Fonts, colours and Tk text tags are
    not modelled; each shown line carries the name of its style instead. */
module Markdown {
  import opened Wrappers
  import opened Text

  /** What the summary box shows when the summary is empty. */
  const ReportPlaceholder: string := "本次对话中完成的工作内容..."

  datatype Style = Heading1 | Heading2 | Heading3 | CodeBlock | ListItem | Plain

  /** One shown line: its style and its text (without the line break). */
  datatype Line = Line(style: Style, text: string)

  /** What the summary box holds: the placeholder, or the classified lines. */
  datatype Report = Placeholder | Lines(lines: seq<Line>)

  /* ------------------------------------------------------- inline markup */

  /** `s` holds `n` copies of `c` starting at index `i`: a span delimiter. */
  predicate RunAt(s: string, c: char, n: nat, i: nat) {
    i + n <= |s| && forall j :: i <= j < i + n ==> s[j] == c
  }

  /** No `c` in `s` from index `lo` up to, but not including, `hi`. */
  predicate FreeOf(s: string, c: char, lo: nat, hi: nat) {
    hi <= |s| && forall j :: lo <= j < hi ==> s[j] != c
  }

  /** The index of the first `c` at or after `from`, or `|s|` if there is
      none. */
  function NextIndex(s: string, c: char, from: nat): (k: nat)
    requires from <= |s|
    ensures from <= k <= |s|
    ensures k < |s| ==> s[k] == c
    ensures FreeOf(s, c, from, k)
    decreases |s| - from
  {
    if from == |s| || s[from] == c then from
    else NextIndex(s, c, from + 1)
  }

  /** Whether the pattern `D([^c]+)D`, with `D` the run of `n` copies of `c`,
      matches at the start of `s`: the index where the closing run starts. */
  function CloseAt(s: string, c: char, n: nat): (r: Option<nat>)
    requires n >= 1
    ensures r.Some? ==> n < r.value && r.value + n <= |s|
    ensures r.Some? ==> RunAt(s, c, n, 0) && FreeOf(s, c, n, r.value) && RunAt(s, c, n, r.value)
  {
    if !RunAt(s, c, n, 0) then None
    else
      var k := NextIndex(s, c, n);
      if n < k && RunAt(s, c, n, k) then Some(k) else None
  }

  /** `CloseAt` misses no match: whenever `s` begins with an opening run, a
      non-empty text free of `c`, and a closing run, `CloseAt` finds exactly
      that closing run. */
  lemma CloseAtComplete(s: string, c: char, n: nat, k: nat)
    requires n >= 1 && n < k
    requires RunAt(s, c, n, 0) && FreeOf(s, c, n, k) && RunAt(s, c, n, k)
    ensures CloseAt(s, c, n) == Some(k)
  {
    assert s[k] == c;
  }

  /** `re.sub(D([^c]+)D, r'\1', s)`: scanning from the left, every match is
      replaced by the text between its delimiters, and scanning resumes
      after it. Unwrapping never lengthens the text. */
  function Unwrap(s: string, c: char, n: nat): (r: string)
    requires n >= 1
    ensures |r| <= |s|
    decreases |s|
  {
    if |s| == 0 then ""
    else
      match CloseAt(s, c, n)
      case Some(k) => s[n..k] + Unwrap(s[k + n..], c, n)
      case None => [s[0]] + Unwrap(s[1..], c, n)
  }

  /** Deleting `c` from a string of nothing but `c` leaves nothing. */
  lemma {:induction false} WithoutOnly(s: string, c: char)
    requires forall j :: 0 <= j < |s| ==> s[j] == c
    ensures Without(s, c) == ""
    decreases |s|
  {
    if |s| > 0 {
      assert forall j :: 0 <= j < |s| - 1 ==> s[1..][j] == s[j + 1];
      WithoutOnly(s[1..], c);
    }
  }

  /** Removing the delimiters of one matched span leaves what removing
      them from the span's text leaves. */
  lemma WithoutSpan(s: string, c: char, n: nat, k: nat)
    requires n >= 1 && n < k
    requires RunAt(s, c, n, 0) && FreeOf(s, c, n, k) && RunAt(s, c, n, k)
    ensures c !in s[n..k]
    ensures Without(s, c) == s[n..k] + Without(s[k + n..], c)
  {
    var open, text, close, rest := s[..n], s[n..k], s[k..k + n], s[k + n..];
    assert s == open + (text + (close + rest));
    assert Without(open, c) == "" by {
      WithoutOnly(open, c);
    }
    assert Without(close, c) == "" by {
      assert forall j :: 0 <= j < n ==> close[j] == s[k + j];
      WithoutOnly(close, c);
    }
    assert c !in text by {
      assert forall j :: 0 <= j < |text| ==> text[j] == s[n + j];
    }
    WithoutDelimited(open, text, close, rest, c);
  }

  lemma WithoutDelimited(open: string, text: string, close: string, rest: string, c: char)
    requires Without(open, c) == "" && Without(close, c) == "" && c !in text
    ensures Without(open + (text + (close + rest)), c) == text + Without(rest, c)
  {
    WithoutAppend(open, text + (close + rest), c);
    WithoutAppend(text, close + rest, c);
    WithoutAbsent(text, c);
    WithoutAppend(close, rest, c);
  }

  /** A match at the start is replaced by its text. */
  lemma UnwrapMatch(s: string, c: char, n: nat, k: nat)
    requires n >= 1 && CloseAt(s, c, n) == Some(k)
    ensures Unwrap(s, c, n) == s[n..k] + Unwrap(s[k + n..], c, n)
  {
  }

  /** Without a match at the start, the first character is kept. */
  lemma UnwrapNoMatch(s: string, c: char, n: nat)
    requires n >= 1 && |s| > 0 && CloseAt(s, c, n).None?
    ensures Unwrap(s, c, n) == [s[0]] + Unwrap(s[1..], c, n)
  {
  }

  /** A line without the delimiter character is left as it is. */
  lemma {:induction false} UnwrapIdentity(s: string, c: char, n: nat)
    requires n >= 1
    ensures c !in s ==> Unwrap(s, c, n) == s
    decreases |s|
  {
    if |s| > 0 && c !in s {
      assert !RunAt(s, c, n, 0) by { assert s[0] != c; }
      UnwrapNoMatch(s, c, n);
      UnwrapIdentity(s[1..], c, n);
      assert c !in s[1..] by { assert forall j :: 0 <= j < |s| - 1 ==> s[1..][j] == s[j + 1]; }
      assert s == [s[0]] + s[1..];
    }
  }

  /** A run of `n` copies of `c` holds `n` of them. */
  lemma {:induction false} RunCount(s: string, c: char, n: nat, i: nat)
    requires RunAt(s, c, n, i)
    ensures multiset(s[i..i + n])[c] == n
    decreases n
  {
    if n > 0 {
      assert s[i..i + n] == s[i..i + n - 1] + [s[i + n - 1]];
      RunCount(s, c, n - 1, i);
    }
  }

  /** Counting a character distributes over concatenation. */
  lemma CountAppend(a: string, b: string, c: char)
    ensures multiset(a + b)[c] == multiset(a)[c] + multiset(b)[c]
  {
  }

  /** A slice that contains a run of `n` copies of `c` holds at least `n`
      of them. */
  lemma RunInside(s: string, c: char, n: nat, i: nat, lo: nat, hi: nat)
    requires lo <= i && i + n <= hi <= |s| && RunAt(s, c, n, i)
    ensures multiset(s[lo..hi])[c] >= n
  {
    var before, run, after := s[lo..i], s[i..i + n], s[i + n..hi];
    RunCount(s, c, n, i);
    assert s[lo..hi] == (before + run) + after;
    CountAppend(before + run, after, c);
    CountAppend(before, run, c);
  }

  /** Two runs of `n` copies of `c` that do not overlap hold `2 * n` of
      them. */
  lemma TwoRunsCount(s: string, c: char, n: nat, k: nat)
    requires n <= k && RunAt(s, c, n, 0) && RunAt(s, c, n, k)
    ensures multiset(s)[c] >= 2 * n
  {
    RunInside(s, c, n, 0, 0, k);
    RunInside(s, c, n, k, k, |s|);
    assert s == s[0..k] + s[k..|s|];
    CountAppend(s[0..k], s[k..|s|], c);
  }

  /** A match takes two runs of `n` delimiters. */
  lemma CloseAtNeedsTwoRuns(s: string, c: char, n: nat)
    requires n >= 1
    ensures CloseAt(s, c, n).Some? ==> multiset(s)[c] >= 2 * n
  {
    if CloseAt(s, c, n).Some? {
      TwoRunsCount(s, c, n, CloseAt(s, c, n).value);
    }
  }

  /** With fewer than two runs' worth of delimiters there is no match
      anywhere, so every delimiter is kept: `re.sub` leaves `2 * 3` as it
      is. */
  lemma {:induction false} UnwrapFewDelimiters(s: string, c: char, n: nat)
    requires n >= 1 && multiset(s)[c] < 2 * n
    ensures Unwrap(s, c, n) == s
    decreases |s|
  {
    if |s| > 0 {
      CloseAtNeedsTwoRuns(s, c, n);
      UnwrapNoMatch(s, c, n);
      assert s == [s[0]] + s[1..];
      UnwrapFewDelimiters(s[1..], c, n);
    }
  }

  /** One replaced span: if unwrapping the rest drops only delimiters, so
      does unwrapping the whole. */
  lemma UnwrapSpanStep(s: string, c: char, n: nat, k: nat)
    requires n >= 1 && CloseAt(s, c, n) == Some(k)
    requires Without(Unwrap(s[k + n..], c, n), c) == Without(s[k + n..], c)
    ensures Without(Unwrap(s, c, n), c) == Without(s, c)
  {
    var text, u := s[n..k], Unwrap(s[k + n..], c, n);
    UnwrapMatch(s, c, n, k);
    WithoutSpan(s, c, n, k);
    WithoutAppend(text, u, c);
    WithoutAbsent(text, c);
  }

  /** One character kept as it is: if unwrapping the rest drops only
      delimiters, so does unwrapping the whole. */
  lemma UnwrapSkipStep(s: string, c: char, n: nat)
    requires n >= 1 && |s| > 0 && CloseAt(s, c, n).None?
    requires Without(Unwrap(s[1..], c, n), c) == Without(s[1..], c)
    ensures Without(Unwrap(s, c, n), c) == Without(s, c)
  {
    var head, tail, u := [s[0]], s[1..], Unwrap(s[1..], c, n);
    UnwrapNoMatch(s, c, n);
    WithoutAppend(head, u, c);
    WithoutAppend(head, tail, c);
    assert s == head + tail;
  }

  /** Unwrapping deletes delimiter characters and nothing else: every other
      character survives, in order. */
  lemma {:induction false} UnwrapOnlyDropsDelimiters(s: string, c: char, n: nat)
    requires n >= 1
    ensures Without(Unwrap(s, c, n), c) == Without(s, c)
    decreases |s|
  {
    if |s| > 0 {
      match CloseAt(s, c, n)
      case Some(k) =>
        UnwrapOnlyDropsDelimiters(s[k + n..], c, n);
        UnwrapSpanStep(s, c, n, k);
      case None =>
        UnwrapOnlyDropsDelimiters(s[1..], c, n);
        UnwrapSkipStep(s, c, n);
    }
  }

  /** The characters that carry no inline markup. */
  function Unmarked(s: string): string {
    Without(Without(s, '`'), '*')
  }

  /** `process_inline_markdown`: inline code spans, then bold spans, then
      italic spans lose their delimiters. The result is never longer than the
      line, keeps every other character in order, and is the line itself
      when the line holds neither a backtick nor an asterisk. */
  function ProcessInlineMarkdown(line: string): (r: string)
    ensures |r| <= |line|
    ensures '`' !in line && '*' !in line ==> r == line
    ensures Unmarked(r) == Unmarked(line)
  {
    var code := Unwrap(line, '`', 1);
    var bold := Unwrap(code, '*', 2);
    var italic := Unwrap(bold, '*', 1);
    UnwrapIdentity(line, '`', 1);
    UnwrapIdentity(code, '*', 2);
    UnwrapIdentity(bold, '*', 1);
    UnwrapOnlyDropsDelimiters(line, '`', 1);
    UnwrapOnlyDropsDelimiters(code, '*', 2);
    UnwrapOnlyDropsDelimiters(bold, '*', 1);
    WithoutCommutes(code, '`', '*');
    WithoutCommutes(bold, '`', '*');
    WithoutCommutes(italic, '`', '*');
    italic
  }

  /** A line with at most one backtick and at most one asterisk is shown as
      written: a lone delimiter, as in `2 * 3`, is not markup. */
  lemma LoneDelimitersKept(line: string)
    requires multiset(line)['`'] < 2 && multiset(line)['*'] < 2
    ensures ProcessInlineMarkdown(line) == line
  {
    UnwrapFewDelimiters(line, '`', 1);
    UnwrapFewDelimiters(line, '*', 2);
    UnwrapFewDelimiters(line, '*', 1);
  }

  /* ------------------------------------------------------ classification */

  /** The length of the run of decimal digits at the start of `s`. */
  function LeadingDigits(s: string): (n: nat)
    ensures n <= |s| && AllDigits(s[..n]) && (n < |s| ==> !IsDigit(s[n]))
    decreases |s|
  {
    if |s| > 0 && IsDigit(s[0]) then
      var n := 1 + LeadingDigits(s[1..]);
      assert s[..n] == [s[0]] + s[1..][..n - 1];
      n
    else 0
  }

  /** A run of `n` digits at the start of `line`, then a dot and a space. */
  predicate NumberedAt(line: string, n: nat) {
    1 <= n && n + 2 <= |line| && AllDigits(line[..n]) && line[n] == '.' && line[n + 1] == ' '
  }

  /** `re.match(r'^\d+\. ', line)`: digits, a dot, a space. When it
      holds, the match ends right after the whole leading digit run. */
  predicate IsNumbered(line: string)
    ensures IsNumbered(line) ==> NumberedAt(line, LeadingDigits(line))
  {
    var n := LeadingDigits(line);
    if n >= 1 && StartsWith(line[n..], ". ") then
      assert line[n] == line[n..][..2][0] && line[n + 1] == line[n..][..2][1];
      true
    else false
  }

  /** The digit run at the start of `s` ends at the first non-digit. */
  lemma {:induction false} LeadingDigitsIs(s: string, n: nat)
    requires n < |s| && AllDigits(s[..n]) && !IsDigit(s[n])
    ensures LeadingDigits(s) == n
    decreases n
  {
    if n > 0 {
      assert IsDigit(s[0]) by { assert s[..n][0] == s[0]; }
      assert s[1..][..n - 1] == s[..n][1..];
      LeadingDigitsIs(s[1..], n - 1);
    }
  }

  /** `IsNumbered` holds exactly when some non-empty run of digits opens the
      line and is followed by a dot and a space. */
  lemma IsNumberedIff(line: string)
    ensures IsNumbered(line) <==> exists n :: NumberedAt(line, n)
  {
    if IsNumbered(line) {
      assert NumberedAt(line, LeadingDigits(line));
    }
    if n: nat :| NumberedAt(line, n) {
      LeadingDigitsIs(line, n);
      assert line[n..][..2] == [line[n], line[n + 1]];
    }
  }

  /** A list line: a dash or an asterisk bullet, or a numbered item. */
  predicate IsListLine(line: string) {
    StartsWith(line, "- ") || StartsWith(line, "* ") || IsNumbered(line)
  }

  /** The prefix a style strips from its line. */
  function Marker(style: Style): string {
    match style
    case Heading3 => "### "
    case Heading2 => "## "
    case Heading1 => "# "
    case _ => ""
  }

  lemma StartsWithAt(s: string, p: string, i: nat)
    requires StartsWith(s, p) && i < |p|
    ensures s[i] == p[i]
  {
    assert s[i] == s[..|p|][i];
  }

  /** A line starts with at most one of the three heading prefixes. */
  lemma HeadingPrefixesExclusive(line: string)
    ensures !(StartsWith(line, "### ") && StartsWith(line, "## "))
    ensures !(StartsWith(line, "### ") && StartsWith(line, "# "))
    ensures !(StartsWith(line, "## ") && StartsWith(line, "# "))
  {
    if StartsWith(line, "### ") {
      StartsWithAt(line, "### ", 1);
      StartsWithAt(line, "### ", 2);
      if StartsWith(line, "## ") { StartsWithAt(line, "## ", 2); }
      if StartsWith(line, "# ") { StartsWithAt(line, "# ", 1); }
    }
    if StartsWith(line, "## ") {
      StartsWithAt(line, "## ", 1);
      if StartsWith(line, "# ") { StartsWithAt(line, "# ", 1); }
    }
  }

  /** The first character of a list line is never `#` or a backtick. */
  lemma ListLineStart(line: string)
    ensures IsListLine(line) ==> |line| > 0 && line[0] != '#' && line[0] != '`'
  {
    if !IsListLine(line) {
    } else if StartsWith(line, "- ") {
      StartsWithAt(line, "- ", 0);
    } else if StartsWith(line, "* ") {
      StartsWithAt(line, "* ", 0);
    } else {
      assert IsDigit(line[..LeadingDigits(line)][0]);
    }
  }

  /** One line of the summary, matched against the prefixes in the order the
      dialog tests them. The three heading prefixes exclude one another and
      the code fence and list prefixes start differently, so each style is
      chosen exactly when its own prefix is present: the order of the tests
      never matters. Headings lose their prefix, code fences and list lines
      are kept as they are, and any other line loses its inline markup. */
  function ClassifyLine(line: string): (r: Line)
    ensures r.style == Heading3 <==> StartsWith(line, "### ")
    ensures r.style == Heading2 <==> StartsWith(line, "## ")
    ensures r.style == Heading1 <==> StartsWith(line, "# ")
    ensures r.style == CodeBlock <==> StartsWith(line, "```")
    ensures r.style == ListItem <==> IsListLine(line)
    ensures r.style != Plain ==> Marker(r.style) + r.text == line
    ensures r.style == Plain ==> r.text == ProcessInlineMarkdown(line)
    ensures r.style == Plain ==> |r.text| <= |line| && Unmarked(r.text) == Unmarked(line)
  {
    HeadingPrefixesExclusive(line);
    if StartsWith(line, "### ") then
      StartsWithAt(line, "### ", 2);
      StartsWithAt(line, "### ", 3);
      assert line == line[..4] + line[4..];
      StartsWithAt(line, "### ", 0);
      ListLineStart(line);
      Line(Heading3, line[4..])
    else if StartsWith(line, "## ") then
      StartsWithAt(line, "## ", 1);
      StartsWithAt(line, "## ", 2);
      assert line == line[..3] + line[3..];
      StartsWithAt(line, "## ", 0);
      ListLineStart(line);
      Line(Heading2, line[3..])
    else if StartsWith(line, "# ") then
      StartsWithAt(line, "# ", 0);
      StartsWithAt(line, "# ", 1);
      assert line == line[..2] + line[2..];
      ListLineStart(line);
      Line(Heading1, line[2..])
    else if StartsWith(line, "```") then
      StartsWithAt(line, "```", 0);
      ListLineStart(line);
      Line(CodeBlock, line)
    else if IsListLine(line) then
      Line(ListItem, line)
    else
      Line(Plain, ProcessInlineMarkdown(line))
  }

  /* ------------------------------------------------------------- content */

  /** `set_markdown_content`: an empty summary shows the placeholder;
      otherwise the summary is cut at its line breaks and every piece is
      classified on its own, so there is one shown line per line break plus
      one. */
  function SetMarkdownContent(content: string): (r: Report)
    ensures r.Placeholder? <==> content == ""
    ensures r.Lines? ==> |r.lines| == multiset(content)['\n'] + 1 == |Split(content, '\n')|
    ensures r.Lines? ==> forall k :: 0 <= k < |r.lines| ==> r.lines[k] == ClassifyLine(Split(content, '\n')[k])
  {
    if content == "" then Placeholder
    else
      var parts := Split(content, '\n');
      SplitCount(content, '\n');
      Lines(seq(|parts|, k requires 0 <= k < |parts| => ClassifyLine(parts[k])))
  }

  /** The shown lines, each followed by a line break. */
  function Emit(lines: seq<Line>): string
    decreases |lines|
  {
    if |lines| == 0 then "" else lines[0].text + "\n" + Emit(lines[1..])
  }

  /** The text the summary box ends up holding. */
  function ShownText(r: Report): string {
    match r
    case Placeholder => ReportPlaceholder
    case Lines(lines) => Emit(lines)
  }

  lemma {:induction false} EmitJoin(lines: seq<Line>, parts: seq<string>)
    requires |lines| == |parts| >= 1
    requires forall k :: 0 <= k < |lines| ==> lines[k].text == parts[k]
    ensures Emit(lines) == Join(parts, '\n') + "\n"
    decreases |lines|
  {
    if |lines| > 1 {
      EmitJoin(lines[1..], parts[1..]);
      assert Emit(lines[1..]) == Join(parts[1..], '\n') + "\n";
    } else {
      assert Emit(lines[1..]) == "";
    }
  }

  /** A summary without `#`, backticks or asterisks is shown exactly as
      written, followed by one line break. */
  lemma UnmarkedContentShownVerbatim(content: string)
    requires content != ""
    requires '#' !in content && '`' !in content && '*' !in content
    ensures ShownText(SetMarkdownContent(content)) == content + "\n"
  {
    var parts := Split(content, '\n');
    var lines := SetMarkdownContent(content).lines;
    SplitChars(content, '\n');
    forall k | 0 <= k < |lines| ensures lines[k].text == parts[k] {
      var p := parts[k];
      assert '#' !in p && '`' !in p && '*' !in p;
      if StartsWith(p, "### ") { StartsWithAt(p, "### ", 0); }
      if StartsWith(p, "## ") { StartsWithAt(p, "## ", 0); }
      if StartsWith(p, "# ") { StartsWithAt(p, "# ", 0); }
      if StartsWith(p, "```") { StartsWithAt(p, "```", 0); }
    }
    EmitJoin(lines, parts);
    JoinSplit(content, '\n');
  }

  /** An empty summary shows the fixed placeholder text. */
  lemma EmptyContentShowsPlaceholder()
    ensures ShownText(SetMarkdownContent("")) == ReportPlaceholder
  {
  }
}
