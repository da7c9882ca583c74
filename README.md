# Message resolution of the voice-notification hook

`notify.py` is a hook that turns an assistant event into a sentence that a
text-to-speech voice reads out. This project models the part that decides what
is said:

- `resolve_message`: the decision tree over `UserPromptSubmit`, `Stop` and
  `Notification` events, with stop-hook suppression, placeholder
  substitution, the notification fallback chain, and stutter avoidance.
- The default message templates of `DEFAULT_CONFIG["messages"]`.
- The transcript summariser `_extract_summary`. Its input is the transcript
  file already read and decoded, one record per line.
- The text transforms it uses:
  - `_get_speakable_lines`;
  - the line sanitiser `_clean_line`;
  - `_first_sentence`;
  - the length limiter `_truncate`.

Modules, leaf first:

| file | module | models |
|---|---|---|
| `optional.dfy` | `Optional` | the `Option` type used for absent fields |
| `strings.dfy` | `Strings` | the parts of Python `str` used: whitespace, line boundaries, ASCII `lower`, `find`/`rfind`, `split(...)[0]`, `strip`/`rstrip`, `replace`; also two reference notions used in specifications, erasure of a character class and subsequence |
| `sanitize.dfy` | `Sanitize` | `_clean_line`, one function per `re.sub` stage |
| `speakable.dfy` | `SpeakableLines` | fence removal, `splitlines`, `_get_speakable_lines` (a method with the source's append loop) |
| `sentences.dfy` | `Sentences` | `_first_sentence`, `_truncate` |
| `transcript.dfy` | `Transcript` | the scan for the last assistant text (methods with the source's nested loops) and the summary built from it |
| `resolve.dfy` | `Resolve` | `resolve_message` and the default messages |

Python's regular expressions are not modelled as an engine. Each `re.sub` and
`re.match` of the source is a hand-written scan. It keeps the pattern's own
matching behaviour:
- leftmost, non-overlapping matches;
- greedy `\S+`;
- the lazy `[\s\S]*?` between code fences;
- the lazy `.+?` of the first-sentence pattern;
- `.` not matching a newline.

Whitespace is the full set of `str.isspace()`. Line boundaries are the full set
of `str.splitlines()`, with `\r\n` counted as one boundary.

Behaviour of `notify.py` worth knowing, which the model keeps:
- **Only static templates.** Each message comes from one configured template
  (or its default). There is no personality layer and no random choice, and
  no stage strips file paths.
- **No sentence-count limits.** Stop and notification texts are limited only by
  `_truncate` at 250 characters. The prompt text is not substituted into the
  `prompt_submit` template.
- **The summary is built from the first and last speakable lines.** It is the
  first sentence of the first speakable line, plus the first sentence of the
  last speakable line when the two differ. It is not the first two sentences of
  the joined text.
- **The last text wins.** The text used is the last `text` block of any
  assistant entry. An assistant entry without a text block (only a tool call,
  say) leaves the earlier text in place. Texts of several blocks are not
  concatenated.
- **The sanitiser is not idempotent.** A word in doubled backticks loses one
  pair of backticks per application (`Sanitize.CleanLineNotIdempotent`).
- **Truncation can overshoot by one character.** `_truncate` can return
  `max_len + 1` characters, because it appends `.` after cutting at `max_len`
  (`Sentences.Truncate`).

## Model

| member | source | states |
|---|---|---|
| Sentences.Truncate | notify.py:65-73 | text within the limit is returned unchanged; longer text becomes a prefix of it followed by `.`, of 1 to `max_len + 1` characters |
| Sentences.TruncateAtPeriod | notify.py:69-72 | when a period lies after `max_len // 2` within the cut, the result is the text up to and including the last such period |
| Sentences.TruncateWithoutPeriod | notify.py:69-73 | when no period lies after `max_len // 2` within the cut, the result is the cut without trailing whitespace, followed by `.` |
| Sanitize.CleanLine | notify.py:76-90 | the six rewrites in the source's order, then `strip()`; never longer than the line |
| Sanitize.UnwrapCode | notify.py:79 | each backtick, non-empty backtick-free run and backtick becomes the run; never longer than the input |
| Strings.RFind | notify.py:70 | `rfind`: -1 or an index holding the character, with no occurrence after it |
| Strings.Strip | notify.py:89 | `strip()`: the result has no whitespace at either end and is no longer than the input |
| Strings.TrimEnd | notify.py:73 | `rstrip`, here of whitespace at :73 and of periods at :177: the result is a prefix of the text, everything cut off is a dropped character, and the result does not end in one |
| Strings.AsciiSpaces | notify.py:89 | on ASCII, `\s` and `isspace()` hold for space, tab, `\n`, `\r`, `\v`, `\f` and 0x1C-0x1F, and `splitlines` breaks on all of these except space, tab and 0x1F |
| Strings.LineBreaksAreSpaces | notify.py:99 | every `splitlines` boundary is whitespace; no-break space, ideographic space and the line separator are whitespace, 0x85 is a boundary, the zero-width space is not whitespace, and the no-break space is not a boundary |
| Strings.Replace | notify.py:173 | `str.replace`: every occurrence of the pattern, found left to right without overlap, is replaced |
| Strings.FillTrailingPlaceholder | notify.py:181 | a template of plain text followed by the placeholder becomes the text followed by the substitute |
| Strings.SplitHead | notify.py:177 | `split(sep)[0]`: everything before the first occurrence of the separator |
| Strings.Find | notify.py:177 | `find`: the first index where the pattern starts, or the length when it does not occur |
| Strings.Lower | notify.py:177-178 | `lower()` on ASCII letters |
| Sanitize.UnwrapCodeOnlyDropsBackticks | notify.py:79 | unwrapping inline code removes backticks and nothing else: erasing backticks from input and output gives the same text |
| Sanitize.CodeSpanAtFront | notify.py:79 | a code span `` `code` `` is replaced by its content and the rest is processed on |
| Sanitize.UnwrapCodeKeepsPrefix | notify.py:79 | a prefix in which no code span starts is kept as it is, and unwrapping goes on after it |
| Sanitize.UnwrapCodePlain | notify.py:79 | text without a backtick is left unchanged |
| Sanitize.UnclosedTickKept | notify.py:79 | a backtick with no later backtick is kept |
| Sanitize.DropUrls | notify.py:81 | each `http://` or `https://` URL is deleted up to the next whitespace character; never longer than the input |
| Sanitize.UrlWordDropped | notify.py:81 | a URL word at the front is deleted up to the next whitespace, and removal goes on after it |
| Sanitize.DropUrlsNoUrl | notify.py:81 | text in which no position starts a URL is returned unchanged |
| Sanitize.DropUrlsKeepsPrefix | notify.py:81 | a prefix in which no URL starts is kept as it is, and removal goes on after it |
| Sanitize.DropUrlsLeavesNoUrl | notify.py:81 | no `http://` or `https://` URL with a non-space character after the scheme is left anywhere in the output |
| Sanitize.DropUrlsSubsequence | notify.py:81 | URL removal only deletes characters, keeping the order of the rest |
| Sanitize.DropUrlsWord | notify.py:81 | URL removal never lengthens the leading word, so it cannot create a URL at the front |
| Sanitize.DropUrlsPlain | notify.py:81 | text without a colon is left unchanged |
| Sanitize.LinkAtFront | notify.py:83 | a link `[caption](target)` at the front is matched from its `[` to the first `)` after its `](` |
| Sanitize.ReduceLinks | notify.py:83 | each markdown link becomes its caption; never longer than the input |
| Sanitize.LinkReducedToCaption | notify.py:83 | a markdown link is replaced by its caption and the rest is processed on |
| Sanitize.ReduceLinksSubsequence | notify.py:83 | link reduction only deletes characters, keeping the order of the rest |
| Sanitize.ReduceLinksPlain | notify.py:83 | text without `[` is left unchanged |
| Sanitize.ReduceLinksKeepsPrefix | notify.py:83 | a prefix in which no link starts is kept as it is, and reduction goes on after it |
| Sanitize.UnclosedBracketKept | notify.py:83 | a `[` with no later `]` is kept |
| Sanitize.DeleteStarsErasesStars | notify.py:85 | deleting asterisks in runs of one or two removes exactly the asterisks |
| Sanitize.DeleteStars | notify.py:85 | asterisks are deleted in runs of one or two; never longer than the input |
| Sanitize.StripMarkers | notify.py:87 | the result is a suffix of the input that does not start with `#`, `>`, `-`, `*` or whitespace, and everything removed is such a character |
| Sanitize.CollapseSpaces | notify.py:89 | collapsing is empty exactly for empty input, keeps a non-space first character, turns leading whitespace into one space, and never lengthens |
| Sanitize.CollapseSpacesSpacing | notify.py:89 | after collapsing, every whitespace character is a plain space and no two whitespace characters are adjacent |
| Sanitize.CollapseSpacesKeepsText | notify.py:89 | collapsing changes only whitespace: the non-whitespace characters stay the same, in order |
| Sanitize.CollapseSpacesRun | notify.py:89 | a whitespace run followed by a non-space character or by the end becomes one space |
| Sanitize.CollapseSpacesWord | notify.py:89 | a non-space character is kept as it is |
| Sanitize.CollapseSpacesWords | notify.py:89 | a leading run of non-space characters is kept as it is |
| Sanitize.CollapseSpacesBetweenWords | notify.py:89 | two words separated by any whitespace run come out separated by exactly one space |
| Sanitize.CleanLineShape | notify.py:76-90 | every cleaned line has no `*`, no whitespace at either end, no leading `#`/`>`/`-`, and only single plain spaces |
| Sanitize.CleanLineOfPlainWord | notify.py:76-90 | a line whose code unwrapping leaves a single plain word is cleaned to that word |
| Sanitize.CleanSingleTicks | notify.py:79-90 | a plain word in single backticks is cleaned to the word |
| Sanitize.CleanNestedTicks | notify.py:79-90 | a plain word in doubled backticks is cleaned to the word in single backticks |
| Sanitize.CleanLineNotIdempotent | notify.py:76-90 | cleaning a cleaned line can change it again |
| SpeakableLines.RemoveFencesSubsequence | notify.py:96 | fence removal only deletes characters, keeping the order of the rest |
| SpeakableLines.RemoveFences | notify.py:96 | each fence is matched to the nearest later fence and both are deleted with everything between; never longer than the input |
| SpeakableLines.FencedBlockRemoved | notify.py:96 | a fenced block at the front disappears together with both fences, whatever its body holds (inline code included) as long as no fence starts inside it |
| SpeakableLines.ClosingFence | notify.py:96 | the closing fence of such a block is found where its body ends, whatever follows |
| SpeakableLines.PlainBodyHasNoFence | notify.py:96 | a body without backticks holds no fence |
| SpeakableLines.RemoveFencesPlain | notify.py:96 | text without a backtick is left unchanged |
| SpeakableLines.RemoveFencesKeepsPrefix | notify.py:96 | a prefix in which no fenced block starts is kept as it is, and removal goes on after it |
| SpeakableLines.UnclosedFenceKept | notify.py:96 | a fence with no later fence is kept |
| SpeakableLines.NoBlockInsideFence | notify.py:96 | no fenced block starts within a fence that has no later fence |
| Strings.FindAbsentSuffix | notify.py:96 | a pattern absent from a text is absent from each of its suffixes |
| SpeakableLines.SplitLines | notify.py:99 | `splitlines()`: lines end at Python's line boundaries, `\r\n` counts as one, and a boundary at the very end opens no empty line |
| SpeakableLines.SplitLinesStep | notify.py:99 | the first line runs up to the first boundary and the split goes on after it |
| SpeakableLines.SplitLinesAtBreak | notify.py:99 | a line ending at a single boundary is split off without it |
| SpeakableLines.SplitLinesAtCrLf | notify.py:99 | a line ending at `\r\n` is split off without the pair |
| SpeakableLines.SplitLinesSingle | notify.py:99 | text without a boundary is one line, and the empty text is no line |
| SpeakableLines.SplitLinesNoBreaks | notify.py:99 | no line produced by `splitlines` contains a line boundary |
| SpeakableLines.SplitLinesKeepsText | notify.py:99 | the lines concatenated are the text with its line boundaries erased |
| SpeakableLines.GetSpeakableLines | notify.py:93-103 | the append loop returns the cleaned lines, after fence removal and splitting, that are longer than five characters, in order |
| SpeakableLines.SpeakableMembers | notify.py:98-103 | a string is returned exactly when it is longer than five characters and is the cleaned form of some line |
| SpeakableLines.SpeakableInOrder | notify.py:98-103 | the returned lines keep the order of the cleaned input lines |
| SpeakableLines.SpeakableShape | notify.py:93-103 | every returned line is longer than five characters and has the shape of a cleaned line |
| SpeakableLines.KeepLongMembers | notify.py:101-102 | the length filter keeps a line exactly when it is longer than five characters |
| SpeakableLines.KeepLong | notify.py:101-102 | the length filter keeps only lines of the input longer than five characters, and never more lines than it is given |
| SpeakableLines.Speakable | notify.py:98-103 | the speakable lines are at most as many as the lines and each is longer than five characters |
| Sentences.SentenceEnd | notify.py:109 | the lazy scan of `(.+?[.!?])\s` finds the first sentence end at or after the start, or reports that there is none |
| Sentences.FirstSentence | notify.py:106-112 | the first sentence is a prefix of the text of at most 150 characters, non-empty for non-empty text |
| Sentences.FirstSentenceAt | notify.py:109-112 | where the first sentence ends at `e`, the result runs through `e` when that is under 150 characters, and is the first 150 characters otherwise |
| Sentences.FirstSentenceNoEnd | notify.py:109-112 | where no sentence ends, the result is the first 150 characters |
| Sentences.FirstSentenceEndsWithTerminator | notify.py:109-111 | a sentence end within the first 149 characters makes the result end with `.`, `!` or `?` |
| Transcript.ScanBlocks | notify.py:131-133 | the inner loop fails exactly when a text block has no `text`; otherwise it leaves the last text found, or the earlier one |
| Transcript.LastText | notify.py:122-133 | what the scan leaves in `last_text`: the last text of all assistant text blocks, or nothing when the scan raises |
| Transcript.ScanLastText | notify.py:122-133 | the scan leaves the text of the last text block of any assistant entry (empty if none), or fails on an unparsable line or a text block without `text` |
| Transcript.ExtractSummary | notify.py:115-153 | the source's sequence of steps computes the transcript summary |
| Transcript.TranscriptSummary | notify.py:115-153 | the summary of the last text, or the empty summary when the scan raises |
| Transcript.SummaryOfText | notify.py:134-149 | a summary is at most 301 characters: two first sentences and a space |
| Transcript.Summarize | notify.py:141-147 | the summary of any lines is at most 301 characters: two first sentences and a space |
| Transcript.SummarizeNonEmpty | notify.py:141-147 | lines whose first one is non-empty give a non-empty summary |
| Transcript.SummaryEmptyIff | notify.py:134-139 | the summary is empty exactly when the last text is empty or has no speakable line |
| Transcript.SummaryParts | notify.py:141-149 | the summary is the first line's first sentence, followed by a space and the last line's first sentence when there are several lines and the two differ |
| Transcript.LaterTextWins | notify.py:129-133 | texts in later entries replace texts found earlier |
| Transcript.TranscriptSummaryEmptyIff | notify.py:115-153 | the transcript summary is empty exactly when the scan fails, finds no text, or finds a last text without a speakable line |
| Transcript.MalformedLineFails | notify.py:128 | one unparsable line anywhere makes the whole scan fail |
| Resolve.ResolveMessage | notify.py:156-192 | unknown events and an active stop hook give nothing; a prompt submission gives `prompt_submit` or "On it."; stop and notification events give their truncated text, of at most 251 characters |
| Resolve.StopMessage | notify.py:163-182 | the stop text after truncation has at most 251 characters |
| Resolve.NotificationText | notify.py:184-190 | the notification text after truncation has at most 251 characters |
| Resolve.StopSummary | notify.py:167-171 | the event's own summary, else the summary of the transcript at its path, else empty |
| Resolve.StopText | notify.py:172-181 | the stop text before truncation: the stripped template without placeholder for an empty summary, the summary alone when it starts with the template's prefix, else the filled template |
| Resolve.StutterPrefix | notify.py:177 | the template's text before `{summary}`, stripped, without trailing periods, lower-cased |
| Resolve.NotificationTemplate | notify.py:187 | the kind's template, else `notification_default`, else `{message}` |
| Resolve.Lookup | notify.py:158-166 | `dict.get(key, default)`: the entry when the key is present, the default otherwise |
| Resolve.DefaultMessagesTable | notify.py:42-48 | the default table has exactly the five keys, `prompt_submit` is "On it.", `stop` is "Done. {summary}", `notification_permission_prompt` is "Need your permission. {message}", `notification_idle_prompt` is "Waiting for your input." and `notification_default` is "{message}" |
| Resolve.StopTextTrailingPlaceholder | notify.py:172-181 | for a template `lead{summary}` whose lead holds no `{`: an empty summary gives the stripped lead; a summary starting with the lead's prefix (case-folded, trailing periods dropped) replaces the template; any other summary follows the lead |
| Resolve.NoStutter | notify.py:177-181 | whenever the stop text is not the summary alone, the summary does not start with the template's prefix |
| Resolve.EventSummaryWins | notify.py:167-171 | a summary in the event makes the transcript irrelevant |
| Resolve.NotificationFallsBackToMessage | notify.py:187-190 | with neither the kind's template nor the default one configured, the notification speaks its message, truncated |
| Resolve.DefaultStopText | notify.py:42-48 | with the default `Done. {summary}`: "Done." for no summary; the summary alone when it starts with "done" in any case; otherwise "Done. " before it |
| Resolve.DefaultIdleNotification | notify.py:42-48 | with the default messages, an idle notification says "Waiting for your input." whatever its message |
| Resolve.DefaultPermissionNotification | notify.py:42-48 | with the default messages, a permission notification puts its message after "Need your permission. " |
| Resolve.DefaultOtherNotification | notify.py:42-48 | with the default messages, any other notification kind speaks its message |
| Resolve.DefaultPromptSubmit | notify.py:160-161 | a prompt submission with the default messages says "On it." |
| Resolve.DefaultStopWithSummary | notify.py:163-182 | a stop event with an inline summary and the default messages speaks the summary, prefixed with "Done. " unless it already starts with "done" |
| Resolve.DefaultStopWithoutSummary | notify.py:163-182 | a stop event with no summary anywhere and the default messages says "Done." |
| Resolve.StopScenarioPrefixed | notify.py:163-182 | "Fixed the null pointer bug in the parser." is spoken as "Done. Fixed the null pointer bug in the parser." |
| Resolve.StopScenarioStutter | notify.py:177-179 | "Done, fixed the bug." is spoken as is, without a second "Done." |
| Resolve.IdleScenario | notify.py:184-190 | an idle notification with message "waiting" says "Waiting for your input." |
| Resolve.EmptyEventScenario | notify.py:192 | an event without a name gives nothing |

## Left out

- `play_mp3`, `speak` and `_generate_and_play` (notify.py:24-31, 198-223): a subprocess, asyncio, an external speech library and temporary files.
- `load_config` and `_debug_log` (notify.py:52-59, 229-235): file I/O and JSON decoding. The configured message map is a parameter (`None` when `config` has no `messages`).
- `main` (notify.py:238-260): reading standard input, the `enabled` gate, and the catch-all exception handler.
- Reading and decoding the transcript file inside `_extract_summary`:
  - The transcript is a sequence of records (blank, unparsable, or a decoded entry).
  - A path that cannot be opened is a path missing from the `transcripts` map, and gives the empty summary as the `OSError` handler does.
- Entries that are JSON but not objects are not modelled: JSON arrays, numbers, and a `content` that is a string. In the source these raise `AttributeError`, which `_extract_summary` does not catch.
- Transcript.Block: a `text` field that is present but not a string is not modelled.
- Strings.Lower: lowers ASCII letters only, not Python's full Unicode case mapping. This can matter for the stutter-prefix comparison of non-ASCII summaries.
- Resolve.Event: event fields of the wrong JSON type are not modelled. This includes a `message` of `null`, on which `str.replace` raises. It also includes a truthy non-boolean `stop_hook_active`.
