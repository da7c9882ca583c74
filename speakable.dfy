/** `_get_speakable_lines` (notify.py:93-103): fenced code blocks are removed
    from the whole message, the rest is split into lines, every line is
    cleaned, and only cleaned lines longer than five characters are kept. */
module SpeakableLines {
  import opened Strings
  import opened Sanitize

  const Fence := "```"

  /** Cleaned lines of at most this many characters are not worth speaking. */
  const MinSpeakableLength := 5

  /** re.sub(r"```[\s\S]*?```", "", text): an opening fence is matched to the
      nearest later fence and everything from the first to the end of the
      second is deleted; a fence with no partner is kept as text. */
  function RemoveFences(s: string): (r: string)
    ensures |r| <= |s|
    decreases |s|
  {
    if s == [] then []
    else if BlockAt(s) then
      RemoveFences(s[3 + Find(s[3..], Fence) + 3..])
    else [s[0]] + RemoveFences(s[1..])
  }

  /** A fenced block starts `s`: a fence with a later fence after it. */
  predicate BlockAt(s: string)
  {
    Fence <= s && Find(s[3..], Fence) < |s| - 3
  }

  /** Fence removal only deletes characters. */
  lemma {:induction false} RemoveFencesSubsequence(s: string)
    ensures IsSubsequence(RemoveFences(s), s)
    decreases |s|
  {
    if s == [] {
    } else if BlockAt(s) {
      var k := 3 + Find(s[3..], Fence) + 3;
      RemoveFencesSubsequence(s[k..]);
      SubsequenceSkip(RemoveFences(s[k..]), s, k);
    } else {
      RemoveFencesSubsequence(s[1..]);
      SubsequenceCons(s[0], RemoveFences(s[1..]), s[1..]);
      assert [s[0]] + s[1..] == s;
    }
  }

  /** Text without a backtick holds no fence and is kept whole. */
  lemma {:induction false} RemoveFencesPlain(s: string)
    requires '`' !in s
    ensures RemoveFences(s) == s
    decreases |s|
  {
    if s != [] {
      assert !(Fence <= s) by {
        assert s[0] != '`';
      }
      RemoveFencesPlain(s[1..]);
      assert [s[0]] + s[1..] == s;
    }
  }

  /** Characters at which no fenced block starts are kept, and removal goes
      on after them. */
  lemma {:induction false} RemoveFencesKeepsPrefix(a: string, t: string)
    requires forall i :: 0 <= i < |a| ==> !BlockAt((a + t)[i..])
    ensures RemoveFences(a + t) == a + RemoveFences(t)
    decreases |a|
  {
    if a == [] {
      assert a + t == t;
    } else {
      var s := a + t;
      assert s[0..] == s;
      assert s[1..] == a[1..] + t;
      forall i | 0 <= i < |a| - 1
        ensures !BlockAt((a[1..] + t)[i..])
      {
        assert (a[1..] + t)[i..] == s[i + 1..];
      }
      RemoveFencesKeepsPrefix(a[1..], t);
      ConsAppend(a, t);
      ConsAppend(a, RemoveFences(t));
    }
  }

  /** A fence with no later fence is kept as text. */
  lemma UnclosedFenceKept(rest: string)
    requires Find(rest, Fence) == |rest|
    ensures RemoveFences(Fence + rest) == Fence + RemoveFences(rest)
  {
    forall i | 0 <= i < |Fence|
      ensures !BlockAt((Fence + rest)[i..])
    {
      NoBlockInsideFence(rest, i);
    }
    RemoveFencesKeepsPrefix(Fence, rest);
  }

  /** No block starts inside a fence that has no later fence. */
  lemma NoBlockInsideFence(rest: string, i: nat)
    requires Find(rest, Fence) == |rest| && i < |Fence|
    ensures !BlockAt((Fence + rest)[i..])
  {
    var x := (Fence + rest)[i..];
    if i <= |rest| {
      assert x[3..] == rest[i..];
      FindAbsentSuffix(rest, Fence, i);
    }
  }

  /** A fenced block at the front disappears, together with both fences,
      whatever its body holds as long as no fence starts inside it. */
  lemma FencedBlockRemoved(body: string, rest: string)
    requires Find(body + Fence, Fence) == |body|
    ensures RemoveFences(Fence + body + Fence + rest) == RemoveFences(rest)
  {
    var s := Fence + body + Fence + rest;
    assert s[3..] == body + Fence + rest;
    ClosingFence(body, rest);
    assert s[3 + |body| + 3..] == rest;
  }

  /** The closing fence is found where the body ends, whatever follows it. */
  lemma ClosingFence(body: string, rest: string)
    requires Find(body + Fence, Fence) == |body|
    ensures Find(body + Fence + rest, Fence) == |body|
  {
    var u := body + Fence;
    var t := u + rest;
    forall k | 0 <= k < |body|
      ensures !(Fence <= t[k..])
    {
      PatternInPrefix(u, t, Fence, k);
    }
    assert t[|body|..][..3] == Fence;
  }

  /** A block whose body holds no backtick is such a block. */
  lemma PlainBodyHasNoFence(body: string)
    requires '`' !in body
    ensures Find(body + Fence, Fence) == |body|
  {
    FindAfterPlain(body, Fence);
  }

  /** Python's `str.splitlines()`: line boundaries are dropped, `\r\n` counts
      as one boundary, and a boundary at the very end opens no empty line. */
  function SplitLines(s: string): (lines: seq<string>)
    decreases |s|
  {
    if s == [] then []
    else
      var i := IndexWhere(s, IsLineBreak);
      if i == |s| then [s]
      else
        var next := if s[i] == '\r' && i + 1 < |s| && s[i + 1] == '\n' then i + 2 else i + 1;
        [s[..i]] + SplitLines(s[next..])
  }

  predicate HasNoBreak(line: string)
  {
    forall k :: 0 <= k < |line| ==> !IsLineBreak(line[k])
  }

  /** A line that ends at a single line boundary (any boundary but a `\r`
      that begins `\r\n`) is split off without it. */
  lemma SplitLinesAtBreak(a: string, b: char, rest: string)
    requires HasNoBreak(a) && IsLineBreak(b)
    requires !(b == '\r' && rest != [] && rest[0] == '\n')
    ensures SplitLines(a + [b] + rest) == [a] + SplitLines(rest)
  {
    var s := a + [b] + rest;
    IndexWhereAfter(a, b, rest, IsLineBreak);
    assert s[..|a|] == a;
    assert s[|a| + 1..] == rest;
    if b == '\r' && |a| + 1 < |s| {
      assert s[|a| + 1] == rest[0];
    }
  }

  /** A line that ends at `\r\n` is split off without the pair. */
  lemma SplitLinesAtCrLf(a: string, rest: string)
    requires HasNoBreak(a)
    ensures SplitLines(a + "\r\n" + rest) == [a] + SplitLines(rest)
  {
    var s := a + "\r\n" + rest;
    assert s == a + ['\r'] + (['\n'] + rest);
    IndexWhereAfter(a, '\r', ['\n'] + rest, IsLineBreak);
    assert s[..|a|] == a;
    assert s[|a|] == '\r' && s[|a| + 1] == '\n';
    assert s[|a| + 2..] == rest;
  }

  /** Text without a boundary is one line; the empty text is none. */
  lemma SplitLinesSingle(a: string)
    requires HasNoBreak(a)
    ensures SplitLines(a) == if a == [] then [] else [a]
  {
  }

  /** No line holds a line boundary. */
  lemma {:induction false} SplitLinesNoBreaks(s: string)
    ensures forall line :: line in SplitLines(s) ==> HasNoBreak(line)
    decreases |s|
  {
    if s != [] {
      var i := IndexWhere(s, IsLineBreak);
      if i < |s| {
        var next := if s[i] == '\r' && i + 1 < |s| && s[i + 1] == '\n' then i + 2 else i + 1;
        SplitLinesStep(s, i, next);
        SplitLinesNoBreaks(s[next..]);
        PrefixHasNoBreak(s, i);
      }
    }
  }

  lemma PrefixHasNoBreak(s: string, i: nat)
    requires i <= |s| && forall k :: 0 <= k < i ==> !IsLineBreak(s[k])
    ensures HasNoBreak(s[..i])
  {
  }

  /** The lines glued back together. */
  function Concat(lines: seq<string>): string
  {
    if lines == [] then [] else lines[0] + Concat(lines[1..])
  }

  /** Splitting loses the line boundaries and nothing else. */
  lemma {:induction false} SplitLinesKeepsText(s: string)
    ensures Concat(SplitLines(s)) == Erase(s, IsLineBreak)
    decreases |s|
  {
    if s != [] {
      var i := IndexWhere(s, IsLineBreak);
      if i == |s| {
        EraseNone(s, IsLineBreak);
        assert SplitLines(s) == [s];
        assert Concat([s]) == s + Concat([]);
      } else {
        var next := if s[i] == '\r' && i + 1 < |s| && s[i + 1] == '\n' then i + 2 else i + 1;
        var rest := s[next..];
        SplitLinesKeepsText(rest);
        SplitLinesStep(s, i, next);
        ConcatCons(s[..i], SplitLines(rest));
        EraseAtBreak(s, i, next);
      }
    }
  }

  /** One step of the split: the first line runs up to the first boundary. */
  lemma SplitLinesStep(s: string, i: nat, next: nat)
    requires i == IndexWhere(s, IsLineBreak) && i < |s|
    requires next == if s[i] == '\r' && i + 1 < |s| && s[i + 1] == '\n' then i + 2 else i + 1
    ensures SplitLines(s) == [s[..i]] + SplitLines(s[next..])
  {
  }

  /** Erasing the boundaries from a text whose first boundary spans `i` up
      to `next` keeps the first line whole. */
  lemma EraseAtBreak(s: string, i: nat, next: nat)
    requires i < |s| && IsLineBreak(s[i]) && forall k :: 0 <= k < i ==> !IsLineBreak(s[k])
    requires next == if s[i] == '\r' && i + 1 < |s| && s[i + 1] == '\n' then i + 2 else i + 1
    ensures Erase(s, IsLineBreak) == s[..i] + Erase(s[next..], IsLineBreak)
  {
    forall k | i <= k < next
      ensures IsLineBreak(s[k])
    {
      if k != i {
        assert k == i + 1 && s[k] == '\n';
      }
    }
    EraseSliceNone(s, i, IsLineBreak);
    EraseSliceAll(s, i, next, IsLineBreak);
    EraseLineAndGap(s, i, next, IsLineBreak);
  }

  lemma ConcatCons(line: string, lines: seq<string>)
    ensures Concat([line] + lines) == line + Concat(lines)
  {
    assert ([line] + lines)[1..] == lines;
  }

  /** `f` applied to every line. */
  function MapLines(f: string -> string, lines: seq<string>): (r: seq<string>)
    ensures |r| == |lines|
    ensures forall i :: 0 <= i < |lines| ==> r[i] == f(lines[i])
  {
    seq(|lines|, i requires 0 <= i < |lines| => f(lines[i]))
  }

  lemma MapLinesSnoc(f: string -> string, lines: seq<string>, i: nat)
    requires i < |lines|
    ensures MapLines(f, lines[..i + 1]) == MapLines(f, lines[..i]) + [f(lines[i])]
  {
  }

  /** The cleaned lines, one per input line. */
  function Cleaned(lines: seq<string>): (r: seq<string>)
    ensures |r| == |lines|
    ensures forall i :: 0 <= i < |lines| ==> r[i] == CleanLine(lines[i])
  {
    MapLines(CleanLine, lines)
  }

  /** The length filter of `_get_speakable_lines`, applied from the first
      line to the last, as the loop appends. */
  function KeepLong(cleaned: seq<string>): (r: seq<string>)
    ensures |r| <= |cleaned|
    ensures forall x :: x in r ==> x in cleaned && |x| > MinSpeakableLength
  {
    if cleaned == [] then []
    else
      var last := cleaned[|cleaned| - 1];
      KeepLong(cleaned[..|cleaned| - 1]) + (if |last| > MinSpeakableLength then [last] else [])
  }

  /** The speakable lines of an already split text. */
  function Speakable(lines: seq<string>): (r: seq<string>)
    ensures |r| <= |lines|
    ensures forall x :: x in r ==> |x| > MinSpeakableLength
  {
    KeepLong(Cleaned(lines))
  }

  lemma KeepLongSnoc(cleaned: seq<string>, c: string)
    ensures KeepLong(cleaned + [c]) == KeepLong(cleaned) + (if |c| > MinSpeakableLength then [c] else [])
  {
    assert (cleaned + [c])[..|cleaned|] == cleaned;
  }

  /** `_get_speakable_lines`. */
  method GetSpeakableLines(text: string) returns (result: seq<string>)
    ensures result == Speakable(SplitLines(RemoveFences(text)))
  {
    var lines := SplitLines(RemoveFences(text));
    result := [];
    for i := 0 to |lines|
      invariant result == Speakable(lines[..i])
    {
      var cleaned := CleanLine(lines[i]);
      MapLinesSnoc(CleanLine, lines, i);
      KeepLongSnoc(Cleaned(lines[..i]), cleaned);
      if |cleaned| > MinSpeakableLength {
        result := result + [cleaned];
      }
    }
    assert lines[..|lines|] == lines;
  }

  /** The kept lines are cleaned input lines in their original order. */
  lemma {:induction false} KeepLongInOrder(cleaned: seq<string>)
    ensures IsSubsequence(KeepLong(cleaned), cleaned)
  {
    if cleaned != [] {
      var n := |cleaned| - 1;
      var last := [cleaned[n]];
      KeepLongInOrder(cleaned[..n]);
      var tail := if |cleaned[n]| > MinSpeakableLength then last else [];
      if tail == [] {
        SubsequenceEmpty(last);
      } else {
        SubsequenceRefl(last);
      }
      SubsequenceAppend(KeepLong(cleaned[..n]), cleaned[..n], tail, last);
      assert cleaned[..n] + last == cleaned;
    }
  }

  /** A line is kept exactly when it is longer than five characters. */
  lemma {:induction false} KeepLongMembers(cleaned: seq<string>, x: string)
    ensures x in KeepLong(cleaned) <==> |x| > MinSpeakableLength && x in cleaned
  {
    if cleaned != [] {
      var n := |cleaned| - 1;
      KeepLongMembers(cleaned[..n], x);
      assert cleaned == cleaned[..n] + [cleaned[n]];
    }
  }

  /** The speakable lines are cleaned input lines, in their original order. */
  lemma SpeakableInOrder(lines: seq<string>)
    ensures IsSubsequence(Speakable(lines), Cleaned(lines))
  {
    KeepLongInOrder(Cleaned(lines));
  }

  /** A string is kept exactly when it is longer than five characters and is
      the cleaned form of some input line. */
  lemma SpeakableMembers(lines: seq<string>, x: string)
    ensures x in Speakable(lines) <==>
      |x| > MinSpeakableLength && exists i :: 0 <= i < |lines| && CleanLine(lines[i]) == x
  {
    var all := Cleaned(lines);
    KeepLongMembers(all, x);
    if x in all {
      var i :| 0 <= i < |all| && all[i] == x;
    }
  }

  /** Every kept line is long enough and has the shape of a cleaned line. */
  lemma SpeakableShape(lines: seq<string>)
    ensures forall x :: x in Speakable(lines) ==> |x| > MinSpeakableLength && IsCleanShape(x)
  {
    forall x | x in Speakable(lines)
      ensures |x| > MinSpeakableLength && IsCleanShape(x)
    {
      SpeakableMembers(lines, x);
      var i :| 0 <= i < |lines| && CleanLine(lines[i]) == x;
      CleanLineShape(lines[i]);
    }
  }
}
