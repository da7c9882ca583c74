/** The in-memory part of `_extract_summary` (notify.py:115-153): the scan of
    the transcript for the last assistant text, and the summary built from
    it. The transcript arrives already read and decoded, one record per line
    of the file. */
module Transcript {
  import opened Optional
  import opened SpeakableLines
  import opened Sentences

  /** One element of an entry's `message.content`: its `type` (the empty
      string when absent) and its `text` field, which may be missing. */
  datatype Block = Block(kind: string, text: Option<string>)

  /** One decoded transcript line: its `type` and the blocks of its message
      (an empty list when `message` or `content` is absent). */
  datatype Entry = Entry(kind: string, content: seq<Block>)

  /** A line of the file: blank after stripping, not valid JSON, or an entry. */
  datatype Record = Blank | Malformed | Parsed(entry: Entry)

  predicate IsTextBlock(b: Block) { b.kind == "text" }

  predicate IsAssistant(r: Record) { r.Parsed? && r.entry.kind == "assistant" }

  /** `block["text"]` raises `KeyError` inside one of these blocks. */
  function BlocksFail(blocks: seq<Block>): bool
  {
    if blocks == [] then false
    else BlocksFail(blocks[..|blocks| - 1]) || (IsTextBlock(blocks[|blocks| - 1]) && blocks[|blocks| - 1].text.None?)
  }

  /** The scan stops with an exception: a line that is not JSON, or a text
      block of an assistant entry without a `text` field. */
  function ScanFails(records: seq<Record>): bool
  {
    if records == [] then false
    else
      var r := records[|records| - 1];
      ScanFails(records[..|records| - 1]) || r.Malformed? || (IsAssistant(r) && BlocksFail(r.entry.content))
  }

  /** The texts of the text blocks, in order. */
  function BlockTexts(blocks: seq<Block>): seq<string>
  {
    if blocks == [] then []
    else
      var b := blocks[|blocks| - 1];
      BlockTexts(blocks[..|blocks| - 1]) + (if IsTextBlock(b) && b.text.Some? then [b.text.value] else [])
  }

  /** The texts of all text blocks of all assistant entries, in file order. */
  function Texts(records: seq<Record>): seq<string>
  {
    if records == [] then []
    else
      var r := records[|records| - 1];
      Texts(records[..|records| - 1]) + (if IsAssistant(r) then BlockTexts(r.entry.content) else [])
  }

  function LastOr(texts: seq<string>, default: string): string
  {
    if texts == [] then default else texts[|texts| - 1]
  }

  /** What the scan leaves in `last_text`, or `None` when it raises. */
  function LastText(records: seq<Record>): Option<string>
  {
    if ScanFails(records) then None else Some(LastOr(Texts(records), ""))
  }

  /** A failure in a prefix is a failure of the whole scan. */
  lemma {:induction false} ScanFailsPrefix(records: seq<Record>, i: nat)
    requires i <= |records| && ScanFails(records[..i])
    ensures ScanFails(records)
    decreases |records|
  {
    if i < |records| {
      var n := |records| - 1;
      assert records[..n][..i] == records[..i];
      ScanFailsPrefix(records[..n], i);
    } else {
      assert records[..i] == records;
    }
  }

  /** The last of `texts`, or `default` when there is none, after an
      earlier run of texts. */
  lemma LastOrAppend(texts: seq<string>, more: seq<string>, default: string)
    ensures LastOr(texts + more, default) == LastOr(more, LastOr(texts, default))
  {
    if more != [] {
      assert (texts + more)[|texts + more| - 1] == more[|more| - 1];
    } else {
      assert texts + more == texts;
    }
  }

  /** A failure in a prefix of the blocks is a failure of the entry. */
  lemma {:induction false} BlocksFailPrefix(blocks: seq<Block>, j: nat)
    requires j <= |blocks| && BlocksFail(blocks[..j])
    ensures BlocksFail(blocks)
    decreases |blocks|
  {
    if j < |blocks| {
      var n := |blocks| - 1;
      assert blocks[..n][..j] == blocks[..j];
      BlocksFailPrefix(blocks[..n], j);
    } else {
      assert blocks[..j] == blocks;
    }
  }

  /** The inner loop of the scan, over the blocks of one assistant entry:
      `ok` is false when a text block has no `text`, and otherwise `last` is
      the last text found, or the one found before when there is none. */
  method ScanBlocks(content: seq<Block>, before: string) returns (ok: bool, last: string)
    ensures ok == !BlocksFail(content)
    ensures ok ==> last == LastOr(BlockTexts(content), before)
  {
    last := before;
    var j := 0;
    while j < |content|
      invariant 0 <= j <= |content|
      invariant !BlocksFail(content[..j])
      invariant last == LastOr(BlockTexts(content[..j]), before)
    {
      var block := content[j];
      assert content[..j + 1][..j] == content[..j];
      if IsTextBlock(block) {
        if block.text.None? {
          assert BlocksFail(content[..j + 1]);
          BlocksFailPrefix(content, j + 1);
          return false, last;
        }
        last := block.text.value;
      }
      j := j + 1;
    }
    assert content[..|content|] == content;
    ok := true;
  }

  /** The scan of notify.py:122-133: every line in order, every block of every
      assistant entry in order, remembering the last text seen. */
  method ScanLastText(records: seq<Record>) returns (r: Option<string>)
    ensures r == LastText(records)
  {
    var lastText := "";
    var i := 0;
    while i < |records|
      invariant 0 <= i <= |records|
      invariant !ScanFails(records[..i])
      invariant lastText == LastOr(Texts(records[..i]), "")
    {
      var record := records[i];
      assert records[..i + 1][..i] == records[..i];
      assert records[..i + 1][i] == record;
      if record.Malformed? {
        ScanFailsPrefix(records, i + 1);
        return None;
      }
      if IsAssistant(record) {
        var ok, found := ScanBlocks(record.entry.content, lastText);
        if !ok {
          ScanFailsPrefix(records, i + 1);
          return None;
        }
        LastOrAppend(Texts(records[..i]), BlockTexts(record.entry.content), "");
        lastText := found;
      }
      i := i + 1;
    }
    assert records[..|records|] == records;
    r := Some(lastText);
  }

  /** The first line's first sentence, followed by the last line's when the
      two differ and there are several lines. */
  function Summarize(lines: seq<string>): (summary: string)
    ensures |summary| <= 2 * SentenceLimit + 1
  {
    if lines == [] then ""
    else
      var first := FirstSentence(lines[0]);
      var last := FirstSentence(lines[|lines| - 1]);
      if first == last || |lines| == 1 then first else first + " " + last
  }

  /** Lines that start with a non-empty one give a non-empty summary. */
  lemma SummarizeNonEmpty(lines: seq<string>)
    requires lines != [] && lines[0] != []
    ensures Summarize(lines) != []
  {
    var first := FirstSentence(lines[0]);
    assert first != [];
    assert |first + " " + FirstSentence(lines[|lines| - 1])| > 0;
  }

  /** The summary rule of notify.py:134-149 applied to the last text. */
  function SummaryOfText(text: string): (summary: string)
    ensures |summary| <= 2 * SentenceLimit + 1
  {
    if text == [] then "" else Summarize(Speakable(SplitLines(RemoveFences(text))))
  }

  /** `_extract_summary` on an already read transcript (`None` stands for a
      file that cannot be opened, which the source reports as `OSError`). */
  function TranscriptSummary(records: seq<Record>): string
  {
    match LastText(records)
    case None => ""
    case Some(text) => SummaryOfText(text)
  }

  /** `_extract_summary` as the source runs it: the scan, then the summary. */
  method ExtractSummary(records: seq<Record>) returns (summary: string)
    ensures summary == TranscriptSummary(records)
  {
    var found := ScanLastText(records);
    if found.None? || found.value == "" {
      return "";
    }
    var lines := GetSpeakableLines(found.value);
    if lines == [] {
      return "";
    }
    var first := FirstSentence(lines[0]);
    var last := FirstSentence(lines[|lines| - 1]);
    summary := if first == last || |lines| == 1 then first else first + " " + last;
  }

  /** The summary of a text is empty exactly when the text is empty or has
      no speakable line. */
  lemma SummaryEmptyIff(text: string)
    ensures SummaryOfText(text) == "" <==>
      text == "" || Speakable(SplitLines(RemoveFences(text))) == []
  {
    var lines := Speakable(SplitLines(RemoveFences(text)));
    if text != [] && lines != [] {
      assert lines[0] in lines;
      SummarizeNonEmpty(lines);
    }
  }

  /** A summary is one or two first sentences of speakable lines: the first
      line's, followed by the last line's when there are several lines and the
      two sentences differ. */
  lemma SummaryParts(text: string)
    requires text != [] && Speakable(SplitLines(RemoveFences(text))) != []
    ensures var lines := Speakable(SplitLines(RemoveFences(text)));
      var first, last := FirstSentence(lines[0]), FirstSentence(lines[|lines| - 1]);
      && first <= lines[0] && last <= lines[|lines| - 1]
      && (if |lines| == 1 || first == last then SummaryOfText(text) == first
          else SummaryOfText(text) == first + " " + last)
  {
  }

  /** Texts of later lines win: appending records whose scan finds a text
      replaces the earlier text. */
  lemma LaterTextWins(records: seq<Record>, more: seq<Record>)
    requires !ScanFails(records + more) && Texts(more) != []
    ensures LastText(records + more) == Some(LastOr(Texts(more), ""))
  {
    TextsAppend(records, more);
  }

  lemma {:induction false} TextsAppend(records: seq<Record>, more: seq<Record>)
    ensures Texts(records + more) == Texts(records) + Texts(more)
    decreases |more|
  {
    if more == [] {
      assert records + more == records;
    } else {
      var n := |more| - 1;
      var last := more[n];
      assert more == more[..n] + [last];
      assert records + more == (records + more[..n]) + [last];
      TextsAppend(records, more[..n]);
      TextsSnoc(records + more[..n], last);
      TextsSnoc(more[..n], last);
    }
  }

  /** The texts of one more record come after the earlier ones. */
  lemma TextsSnoc(records: seq<Record>, r: Record)
    ensures Texts(records + [r]) == Texts(records) + (if IsAssistant(r) then BlockTexts(r.entry.content) else [])
  {
    assert (records + [r])[..|records|] == records;
  }

  /** A transcript's summary is empty exactly when the scan raises, finds no
      text, or finds a last text without a speakable line. */
  lemma TranscriptSummaryEmptyIff(records: seq<Record>)
    ensures TranscriptSummary(records) == "" <==>
      ScanFails(records) || LastOr(Texts(records), "") == "" ||
      Speakable(SplitLines(RemoveFences(LastOr(Texts(records), "")))) == []
  {
    SummaryEmptyIff(LastOr(Texts(records), ""));
  }

  /** A scan with an unparsable line yields no text, wherever the line is. */
  lemma MalformedLineFails(records: seq<Record>, i: nat)
    requires i < |records| && records[i].Malformed?
    ensures LastText(records) == None
  {
    assert records[..i + 1][..i] == records[..i];
    ScanFailsPrefix(records, i + 1);
  }
}
