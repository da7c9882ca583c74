/** `_first_sentence` (notify.py:106-112) and `_truncate` (notify.py:65-73):
    the two length limits applied to spoken text. */
module Sentences {
  import opened Strings

  /** `MAX_MESSAGE_LENGTH`. */
  const MaxMessageLength := 250

  /** A first sentence is only kept when it is shorter than this. */
  const SentenceLimit := 150

  predicate IsTerminator(c: char) { c == '.' || c == '!' || c == '?' }

  /** re.match(r"(.+?[.!?])\s", t) can stop with its group ending at index
      `e`: at least one character precedes, `t[e]` is a terminator followed
      by whitespace, and `.` (which does not match a newline) has covered
      everything before `e`. */
  predicate SentenceEndsAt(t: string, e: int)
  {
    1 <= e && e + 1 < |t| && IsTerminator(t[e]) && IsSpace(t[e + 1]) && '\n' !in t[..e]
  }

  /** The lazy scan of the pattern, from candidate end `j` on: the first end
      at or after `j`, or `|t|` when the match fails. */
  function SentenceEnd(t: string, j: nat): (e: nat)
    requires 1 <= j <= |t| && '\n' !in t[..j]
    ensures j <= e <= |t|
    ensures e < |t| ==> SentenceEndsAt(t, e)
    ensures forall k :: j <= k < e ==> !SentenceEndsAt(t, k)
    ensures e == |t| ==> forall k :: j <= k < |t| ==> !SentenceEndsAt(t, k)
    decreases |t| - j
  {
    if j + 1 >= |t| then |t|
    else if IsTerminator(t[j]) && IsSpace(t[j + 1]) then j
    else if t[j] == '\n' then
      assert forall k :: j < k < |t| ==> t[j] in t[..k];
      |t|
    else
      assert t[..j + 1] == t[..j] + [t[j]];
      SentenceEnd(t, j + 1)
  }

  /** `_first_sentence`. */
  function FirstSentence(text: string): (r: string)
    ensures r <= text && |r| <= SentenceLimit
    ensures text != [] ==> r != []
  {
    var t := text + " ";
    var e := if t[0] == '\n' then |t| else SentenceEnd(t, 1);
    if e < |t| && e + 1 < SentenceLimit then text[..e + 1] else text[..Min(SentenceLimit, |text|)]
  }

  /** Where the first sentence ends, the extracted sentence runs to that
      end when it leaves fewer than 150 characters, and is the first 150
      characters otherwise. */
  lemma FirstSentenceAt(text: string, e: nat)
    requires SentenceEndsAt(text + " ", e)
    requires forall k :: 1 <= k < e ==> !SentenceEndsAt(text + " ", k)
    ensures FirstSentence(text) == if e + 1 < SentenceLimit then text[..e + 1] else text[..Min(SentenceLimit, |text|)]
  {
    var t := text + " ";
    assert t[0] != '\n' by {
      assert t[..e][0] == t[0];
    }
    var found := SentenceEnd(t, 1);
    assert found == e;
  }

  /** Where no sentence ends, the extracted sentence is the first 150
      characters. */
  lemma FirstSentenceNoEnd(text: string)
    requires forall e :: 1 <= e <= |text| ==> !SentenceEndsAt(text + " ", e)
    ensures FirstSentence(text) == text[..Min(SentenceLimit, |text|)]
  {
  }

  function Min(a: int, b: int): int { if a <= b then a else b }

  /** When a sentence ends within the first 149 characters, the extracted
      sentence ends with its terminator. */
  lemma FirstSentenceEndsWithTerminator(text: string, e: nat)
    requires SentenceEndsAt(text + " ", e) && e + 1 < SentenceLimit
    ensures var r := FirstSentence(text); r != [] && IsTerminator(r[|r| - 1])
  {
    var t := text + " ";
    var e0 := FirstEnd(t, e);
    FirstSentenceAt(text, e0);
    assert t[e0] == text[e0];
  }

  /** The least sentence end at or below a given one. */
  lemma {:induction false} FirstEnd(t: string, e: nat) returns (e0: nat)
    requires SentenceEndsAt(t, e)
    ensures e0 <= e && SentenceEndsAt(t, e0)
    ensures forall k :: 1 <= k < e0 ==> !SentenceEndsAt(t, k)
    decreases e
  {
    if forall k :: 1 <= k < e ==> !SentenceEndsAt(t, k) {
      e0 := e;
    } else {
      var k :| 1 <= k < e && SentenceEndsAt(t, k);
      e0 := FirstEnd(t, k);
    }
  }

  /** `_truncate(text, max_len)`: text within the limit is kept; longer text
      is cut and ends in a period, so it can be one character over the
      limit. */
  function Truncate(text: string, maxLen: nat): (r: string)
    ensures |text| <= maxLen ==> r == text
    ensures |text| > maxLen ==> 0 < |r| <= maxLen + 1 && r[|r| - 1] == '.' && r[..|r| - 1] <= text
  {
    if |text| <= maxLen then text
    else
      var cut := text[..maxLen];
      var lastPeriod := RFind(cut, '.');
      if lastPeriod > maxLen / 2 then
        assert cut[..lastPeriod + 1][..lastPeriod] <= text;
        cut[..lastPeriod + 1]
      else
        var kept := TrimEnd(cut, IsSpace);
        assert (kept + ".")[..|kept|] == kept;
        kept + "."
  }

  /** A long text with a period in the second half of its first `maxLen`
      characters is cut right after the last such period. */
  lemma TruncateAtPeriod(text: string, maxLen: nat, p: nat)
    requires |text| > maxLen && maxLen / 2 < p < maxLen && text[p] == '.'
    requires forall q :: p < q < maxLen ==> text[q] != '.'
    ensures Truncate(text, maxLen) == text[..p + 1]
  {
    var cut := text[..maxLen];
    assert cut[p] == '.';
    assert forall q :: p < q < maxLen ==> cut[q] == text[q];
    assert RFind(cut, '.') == p;
  }

  /** A long text without a period in the second half of its first `maxLen`
      characters is cut at `maxLen`, loses its trailing whitespace and gets a
      period. */
  lemma TruncateWithoutPeriod(text: string, maxLen: nat)
    requires |text| > maxLen && forall p :: maxLen / 2 < p < maxLen ==> text[p] != '.'
    ensures Truncate(text, maxLen) == TrimEnd(text[..maxLen], IsSpace) + "."
  {
    var cut := text[..maxLen];
    assert forall p :: maxLen / 2 < p < maxLen ==> cut[p] == text[p];
    assert RFind(cut, '.') <= maxLen / 2;
  }
}
