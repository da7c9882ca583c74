/** `_clean_line` (notify.py:76-90): the fixed, ordered pipeline of rewrites
    that turns one line of assistant markdown into speakable text. Each
    `re.sub` of the source is a hand-written scan with the same left-to-right,
    non-overlapping matching as Python's regex engine for that pattern. */
module Sanitize {
  import opened Strings

  predicate IsBacktick(c: char) { c == '`' }

  predicate IsStar(c: char) { c == '*' }

  /** The class `[#>\-*\s]` of leading structural markers. */
  predicate IsMarkerOrSpace(c: char) { c == '#' || c == '>' || c == '-' || c == '*' || IsSpace(c) }

  /** re.sub(r"`([^`]+)`", r"\1", s): a backtick, a non-empty run without
      backticks and a closing backtick become the run. */
  function UnwrapCode(s: string): (r: string)
    ensures |r| <= |s|
    decreases |s|
  {
    if s == [] then []
    else if SpanAt(s) then
      var k := IndexOf(s[1..], '`');
      s[1..k + 1] + UnwrapCode(s[k + 2..])
    else [s[0]] + UnwrapCode(s[1..])
  }

  /** A code span starts `s`: a backtick, a non-empty run without backticks
      and a closing backtick. */
  predicate SpanAt(s: string)
  {
    s != [] && s[0] == '`' && 0 < IndexOf(s[1..], '`') < |s| - 1
  }

  /** Unwrapping inline code deletes backticks and nothing else. */
  lemma {:induction false} UnwrapCodeOnlyDropsBackticks(s: string)
    ensures Erase(UnwrapCode(s), IsBacktick) == Erase(s, IsBacktick)
    decreases |s|
  {
    if s == [] {
    } else if SpanAt(s) {
      var k := IndexOf(s[1..], '`');
      UnwrapCodeOnlyDropsBackticks(s[k + 2..]);
      UnwrapSpanCase(s, k);
    } else {
      UnwrapCodeOnlyDropsBackticks(s[1..]);
      UnwrapCharCase(s);
    }
  }

  /** The step of the proof above where a code span stands at the front. */
  lemma UnwrapSpanCase(s: string, k: nat)
    requires s != [] && s[0] == '`' && k == IndexOf(s[1..], '`') && 0 < k < |s| - 1
    requires Erase(UnwrapCode(s[k + 2..]), IsBacktick) == Erase(s[k + 2..], IsBacktick)
    ensures Erase(UnwrapCode(s), IsBacktick) == Erase(s, IsBacktick)
  {
    var rest := s[k + 2..];
    UnwrapSpanStep(s, k);
    assert s[1..][k] == s[k + 1];
    SpanStep(s, k, UnwrapCode(rest));
  }

  /** The step of the proof above where the first character is kept. */
  lemma UnwrapCharCase(s: string)
    requires s != [] && !SpanAt(s)
    requires Erase(UnwrapCode(s[1..]), IsBacktick) == Erase(s[1..], IsBacktick)
    ensures Erase(UnwrapCode(s), IsBacktick) == Erase(s, IsBacktick)
  {
    assert UnwrapCode(s) == [s[0]] + UnwrapCode(s[1..]);
    ConsStep(s, UnwrapCode(s[1..]));
  }

  lemma SpanStep(s: string, k: nat, x: string)
    requires 0 < k < |s| - 1 && s[0] == '`' && s[k + 1] == '`'
    requires Erase(x, IsBacktick) == Erase(s[k + 2..], IsBacktick)
    ensures Erase(s[1..k + 1] + x, IsBacktick) == Erase(s, IsBacktick)
  {
    EraseSpan(s, k, IsBacktick);
    EraseAppend(s[1..k + 1], x, IsBacktick);
  }

  lemma ConsStep(s: string, x: string)
    requires s != [] && Erase(x, IsBacktick) == Erase(s[1..], IsBacktick)
    ensures Erase([s[0]] + x, IsBacktick) == Erase(s, IsBacktick)
  {
    EraseAppend([s[0]], x, IsBacktick);
    assert [s[0]][1..] == [];
  }

  /** A code span at the front is replaced by its content. */
  lemma CodeSpanAtFront(code: string, rest: string)
    requires code != [] && '`' !in code
    ensures UnwrapCode("`" + code + "`" + rest) == code + UnwrapCode(rest)
  {
    var s := "`" + code + "`" + rest;
    assert s[1..] == code + ['`'] + rest;
    IndexOfAfterPlain(code, '`', rest);
    UnwrapSpanStep(s, |code|);
    assert s[1..|code| + 1] == code;
    assert s[|code| + 2..] == rest;
  }

  /** One step of unwrapping where a code span stands at the front. */
  lemma UnwrapSpanStep(s: string, k: nat)
    requires s != [] && s[0] == '`' && k == IndexOf(s[1..], '`') && 0 < k < |s| - 1
    ensures UnwrapCode(s) == s[1..k + 1] + UnwrapCode(s[k + 2..])
  {
  }

  /** A code span with nothing around it is replaced by its content. */
  lemma CodeSpanUnwrapped(code: string)
    requires code != [] && '`' !in code
    ensures UnwrapCode("`" + code + "`") == code
  {
    CodeSpanAtFront(code, "");
    assert "`" + code + "`" + "" == "`" + code + "`";
  }

  /** Characters at which no code span starts are kept, and unwrapping goes
      on after them. */
  lemma {:induction false} UnwrapCodeKeepsPrefix(a: string, t: string)
    requires forall i :: 0 <= i < |a| ==> !SpanAt((a + t)[i..])
    ensures UnwrapCode(a + t) == a + UnwrapCode(t)
    decreases |a|
  {
    if a == [] {
      assert a + t == t;
    } else {
      var s := a + t;
      assert s[0..] == s;
      assert s[1..] == a[1..] + t;
      forall i | 0 <= i < |a| - 1
        ensures !SpanAt((a[1..] + t)[i..])
      {
        assert (a[1..] + t)[i..] == s[i + 1..];
      }
      UnwrapCodeKeepsPrefix(a[1..], t);
      ConsAppend(a, t);
      ConsAppend(a, UnwrapCode(t));
    }
  }

  /** Text without a backtick is left alone. */
  lemma UnwrapCodePlain(s: string)
    requires '`' !in s
    ensures UnwrapCode(s) == s
  {
    forall i | 0 <= i < |s|
      ensures !SpanAt((s + [])[i..])
    {
      assert (s + [])[i..][0] == s[i];
    }
    UnwrapCodeKeepsPrefix(s, []);
    assert s + [] == s;
  }

  /** A backtick with no backtick after it is kept. */
  lemma UnclosedTickKept(rest: string)
    requires '`' !in rest
    ensures UnwrapCode("`" + rest) == "`" + rest
  {
    var s := "`" + rest;
    assert s[1..] == rest;
    assert IndexOf(rest, '`') == |rest|;
    assert !SpanAt(s);
    UnwrapCodePlain(rest);
  }

  /** `https?://` followed by at least one non-space character starts `s`. */
  predicate UrlAt(s: string)
  {
    ("https://" <= s && |s| > 8 && !IsSpace(s[8])) || ("http://" <= s && |s| > 7 && !IsSpace(s[7]))
  }

  /** re.sub(r"https?://\S+", "", s): `\S+` is greedy, so a URL runs to the
      next whitespace character. */
  function DropUrls(s: string): (r: string)
    ensures |r| <= |s|
    decreases |s|
  {
    if s == [] then []
    else if UrlAt(s) then DropUrls(TrimStart(s, IsNonSpace))
    else [s[0]] + DropUrls(s[1..])
  }

  /** The leading run of non-space characters. */
  function Word(s: string): string
  {
    s[..IndexWhere(s, IsSpace)]
  }

  lemma UrlAtWord(s: string)
    ensures UrlAt(s) <==> UrlAt(Word(s))
  {
    var n := IndexWhere(s, IsSpace);
    if "https://" <= s && |s| > 8 && !IsSpace(s[8]) {
      assert forall k :: 0 <= k < 8 ==> s[k] == "https://"[k];
      assert n > 8;
      assert "https://" <= Word(s);
    } else if "http://" <= s && |s| > 7 && !IsSpace(s[7]) {
      assert forall k :: 0 <= k < 7 ==> s[k] == "http://"[k];
      assert n > 7;
      assert "http://" <= Word(s);
    }
    if UrlAt(Word(s)) {
      UrlAtExtends(Word(s), s);
    }
  }

  lemma UrlAtExtends(x: string, y: string)
    requires x <= y && UrlAt(x)
    ensures UrlAt(y)
  {
    if "https://" <= x && |x| > 8 {
      assert y[8] == x[8];
    } else {
      assert y[7] == x[7];
    }
  }

  lemma WordCons(c: char, s: string)
    requires !IsSpace(c)
    ensures Word([c] + s) == [c] + Word(s)
  {
    assert ([c] + s)[1..] == s;
  }

  /** URL removal never lengthens the leading word. */
  lemma {:induction false} DropUrlsWord(s: string)
    ensures Word(DropUrls(s)) <= Word(s)
    decreases |s|
  {
    if s == [] {
    } else if UrlAt(s) {
      var u := TrimStart(s, IsNonSpace);
      if u != [] {
        assert IsSpace(u[0]) && !UrlAt(u);
        assert DropUrls(u) == [u[0]] + DropUrls(u[1..]);
        assert Word(DropUrls(u)) == [];
      }
    } else if IsSpace(s[0]) {
      assert Word(DropUrls(s)) == [];
    } else {
      DropUrlsWord(s[1..]);
      WordCons(s[0], DropUrls(s[1..]));
      WordCons(s[0], s[1..]);
      assert [s[0]] + s[1..] == s;
    }
  }

  /** No URL is left anywhere in the output of URL removal. */
  lemma {:induction false} DropUrlsLeavesNoUrl(s: string)
    ensures forall i :: 0 <= i < |DropUrls(s)| ==> !UrlAt(DropUrls(s)[i..])
    decreases |s|
  {
    var r := DropUrls(s);
    if s == [] {
    } else if UrlAt(s) {
      DropUrlsLeavesNoUrl(TrimStart(s, IsNonSpace));
    } else {
      var rest := DropUrls(s[1..]);
      DropUrlsLeavesNoUrl(s[1..]);
      assert r == [s[0]] + rest;
      forall i | 0 <= i < |r|
        ensures !UrlAt(r[i..])
      {
        if i == 0 {
          if UrlAt(r) {
            UrlAtWord(r);
            DropUrlsWord(s);
            UrlAtExtends(Word(r), Word(s));
            UrlAtWord(s);
            assert false;
          }
        } else {
          assert r[i..] == rest[i - 1..];
        }
      }
    }
  }

  /** URL removal only deletes characters. */
  lemma {:induction false} DropUrlsSubsequence(s: string)
    ensures IsSubsequence(DropUrls(s), s)
    decreases |s|
  {
    if s == [] {
    } else if UrlAt(s) {
      var u := TrimStart(s, IsNonSpace);
      DropUrlsSubsequence(u);
      SubsequenceSkip(DropUrls(u), s, |s| - |u|);
    } else {
      DropUrlsSubsequence(s[1..]);
      assert ([s[0]] + DropUrls(s[1..]))[1..] == DropUrls(s[1..]);
    }
  }

  /** A URL at the front is deleted up to the next whitespace character, and
      removal goes on from there. */
  lemma UrlWordDropped(url: string, rest: string)
    requires UrlAt(url) && forall k :: 0 <= k < |url| ==> !IsSpace(url[k])
    requires rest == [] || IsSpace(rest[0])
    ensures DropUrls(url + rest) == DropUrls(rest)
  {
    assert (url + rest)[..|url|] == url;
    UrlAtExtends(url, url + rest);
    TrimStartRun(url, rest, IsNonSpace);
  }

  /** Text in which no position starts a URL is left alone. */
  lemma {:induction false} DropUrlsNoUrl(s: string)
    requires forall i :: 0 <= i < |s| ==> !UrlAt(s[i..])
    ensures DropUrls(s) == s
    decreases |s|
  {
    if s != [] {
      assert s[0..] == s;
      forall i | 0 <= i < |s| - 1
        ensures !UrlAt(s[1..][i..])
      {
        assert s[1..][i..] == s[i + 1..];
      }
      DropUrlsNoUrl(s[1..]);
      assert [s[0]] + s[1..] == s;
    }
  }

  /** Characters at which no URL starts are kept, and removal goes on after
      them. */
  lemma {:induction false} DropUrlsKeepsPrefix(a: string, t: string)
    requires forall i :: 0 <= i < |a| ==> !UrlAt((a + t)[i..])
    ensures DropUrls(a + t) == a + DropUrls(t)
    decreases |a|
  {
    if a == [] {
      assert a + t == t;
    } else {
      var s := a + t;
      assert s[0..] == s;
      assert s[1..] == a[1..] + t;
      forall i | 0 <= i < |a| - 1
        ensures !UrlAt((a[1..] + t)[i..])
      {
        assert (a[1..] + t)[i..] == s[i + 1..];
      }
      DropUrlsKeepsPrefix(a[1..], t);
      ConsAppend(a, t);
      ConsAppend(a, DropUrls(t));
    }
  }

  /** Where a markdown link `[caption](target)` sits at the start of `s`: the
      index of its `]` and of its `)`, or (0, 0) when there is none. As in
      re.sub(r"\[([^\]]+)\]\([^)]+\)", ...), the caption is a non-empty run
      without `]` and the target a non-empty run without `)`. */
  function LinkAt(s: string): (jk: (nat, nat))
    ensures jk.0 > 0 ==> 1 < jk.0 && jk.0 + 2 < jk.1 < |s|
  {
    if s == [] || s[0] != '[' then (0, 0)
    else
      var j := 1 + IndexOf(s[1..], ']');
      if 1 < j && j + 2 < |s| && s[j + 1] == '(' then
        var k := j + 2 + IndexOf(s[j + 2..], ')');
        if j + 2 < k < |s| then (j, k) else (0, 0)
      else (0, 0)
  }

  /** re.sub(r"\[([^\]]+)\]\([^)]+\)", r"\1", s): each link becomes its caption. */
  function ReduceLinks(s: string): (r: string)
    ensures |r| <= |s|
    decreases |s|
  {
    if s == [] then []
    else
      var jk := LinkAt(s);
      if jk.0 > 0 then s[1..jk.0] + ReduceLinks(s[jk.1 + 1..])
      else [s[0]] + ReduceLinks(s[1..])
  }

  /** Where a link stands at the front: its `]` follows the caption and its
      `)` follows the target. */
  lemma LinkAtFront(caption: string, target: string, rest: string)
    requires caption != [] && ']' !in caption
    requires target != [] && ')' !in target
    ensures LinkAt("[" + caption + "](" + target + ")" + rest) == (|caption| + 1, |caption| + 3 + |target|)
  {
    var s := "[" + caption + "](" + target + ")" + rest;
    var n := |caption|;
    assert s[1..] == caption + [']'] + ("(" + target + ")" + rest);
    IndexOfAfterPlain(caption, ']', "(" + target + ")" + rest);
    assert s[n + 2] == '(';
    assert s[n + 3..] == target + [')'] + rest;
    IndexOfAfterPlain(target, ')', rest);
  }

  /** A markdown link is replaced by its caption. */
  lemma LinkReducedToCaption(caption: string, target: string, rest: string)
    requires caption != [] && ']' !in caption
    requires target != [] && ')' !in target
    ensures ReduceLinks("[" + caption + "](" + target + ")" + rest) == caption + ReduceLinks(rest)
  {
    var s := "[" + caption + "](" + target + ")" + rest;
    var n, m := |caption|, |target|;
    LinkAtFront(caption, target, rest);
    assert s[1..n + 1] == caption;
    assert s[n + 3 + m + 1..] == rest;
  }

  lemma LinkKeepsCaption(s: string, x: string)
    requires s != [] && LinkAt(s).0 > 0
    requires IsSubsequence(x, s[LinkAt(s).1 + 1..])
    ensures IsSubsequence(s[1..LinkAt(s).0] + x, s)
  {
    SubsequenceKeepSlice(s, 1, LinkAt(s).0, LinkAt(s).1 + 1, x);
  }

  /** Link reduction only deletes characters. */
  lemma {:induction false} ReduceLinksSubsequence(s: string)
    ensures IsSubsequence(ReduceLinks(s), s)
    decreases |s|
  {
    if s == [] {
    } else if LinkAt(s).0 > 0 {
      ReduceLinksSubsequence(s[LinkAt(s).1 + 1..]);
      LinkKeepsCaption(s, ReduceLinks(s[LinkAt(s).1 + 1..]));
    } else {
      var rest := s[1..];
      assert ReduceLinks(s) == [s[0]] + ReduceLinks(rest);
      ReduceLinksSubsequence(rest);
      SubsequenceCons(s[0], ReduceLinks(rest), rest);
      assert [s[0]] + rest == s;
    }
  }

  /** Characters at which no link starts are kept, and reduction goes on
      after them. */
  lemma {:induction false} ReduceLinksKeepsPrefix(a: string, t: string)
    requires forall i :: 0 <= i < |a| ==> LinkAt((a + t)[i..]).0 == 0
    ensures ReduceLinks(a + t) == a + ReduceLinks(t)
    decreases |a|
  {
    if a == [] {
      assert a + t == t;
    } else {
      var s := a + t;
      assert s[0..] == s;
      assert s[1..] == a[1..] + t;
      forall i | 0 <= i < |a| - 1
        ensures LinkAt((a[1..] + t)[i..]).0 == 0
      {
        assert (a[1..] + t)[i..] == s[i + 1..];
      }
      ReduceLinksKeepsPrefix(a[1..], t);
      ConsAppend(a, t);
      ConsAppend(a, ReduceLinks(t));
    }
  }

  /** A `[` with no `]` after it is kept. */
  lemma UnclosedBracketKept(rest: string)
    requires ']' !in rest
    ensures ReduceLinks("[" + rest) == "[" + ReduceLinks(rest)
  {
    var s := "[" + rest;
    assert s[1..] == rest;
    assert IndexOf(rest, ']') == |rest|;
    assert LinkAt(s) == (0, 0);
  }

  /** re.sub(r"\*{1,2}", "", s): asterisks are matched in runs of at most two. */
  function DeleteStars(s: string): (r: string)
    ensures |r| <= |s|
    decreases |s|
  {
    if s == [] then []
    else if s[0] == '*' then
      if |s| > 1 && s[1] == '*' then DeleteStars(s[2..]) else DeleteStars(s[1..])
    else [s[0]] + DeleteStars(s[1..])
  }

  /** Removing asterisks two at a time removes every asterisk and nothing else. */
  lemma {:induction false} DeleteStarsErasesStars(s: string)
    ensures DeleteStars(s) == Erase(s, IsStar)
    decreases |s|
  {
    if s == [] {
    } else if s[0] == '*' && |s| > 1 && s[1] == '*' {
      DeleteStarsErasesStars(s[2..]);
      assert s[1..][1..] == s[2..];
    } else {
      DeleteStarsErasesStars(s[1..]);
    }
  }

  /** re.sub(r"^[#>\-*\s]+", "", s). */
  function StripMarkers(s: string): (r: string)
    ensures r == [] || !IsMarkerOrSpace(r[0])
    ensures |r| <= |s| && r == s[|s| - |r|..]
  {
    TrimStart(s, IsMarkerOrSpace)
  }

  /** No two whitespace characters stand next to each other. */
  ghost predicate NoDoubleSpace(s: string)
  {
    forall i, j :: 0 <= i < j < |s| && j == i + 1 ==> !(IsSpace(s[i]) && IsSpace(s[j]))
  }

  /** re.sub(r"\s+", " ", s): each whitespace run becomes one space. */
  function CollapseSpaces(s: string): (r: string)
    ensures r == [] <==> s == []
    ensures r != [] && !IsSpace(s[0]) ==> r[0] == s[0]
    ensures r != [] && IsSpace(s[0]) ==> r[0] == ' '
    ensures |r| <= |s|
    decreases |s|
  {
    if s == [] then []
    else if IsSpace(s[0]) then [' '] + CollapseSpaces(TrimStart(s, IsSpace))
    else [s[0]] + CollapseSpaces(s[1..])
  }

  /** Every whitespace character of `s` is a plain space. */
  ghost predicate PlainSpaces(s: string)
  {
    forall k :: 0 <= k < |s| && IsSpace(s[k]) ==> s[k] == ' '
  }

  /** Putting a character in front keeps the spacing when a space is never
      put before another whitespace character. */
  lemma SpacingCons(head: char, rest: string)
    requires NoDoubleSpace(rest) && PlainSpaces(rest)
    requires IsSpace(head) ==> head == ' ' && (rest == [] || !IsSpace(rest[0]))
    ensures NoDoubleSpace([head] + rest) && PlainSpaces([head] + rest)
  {
    var r := [head] + rest;
    assert forall k :: 0 < k < |r| ==> r[k] == rest[k - 1];
    forall i, j | 0 <= i < j < |r| && j == i + 1
      ensures !(IsSpace(r[i]) && IsSpace(r[j]))
    {
      if i > 0 {
        assert r[i] == rest[i - 1] && r[j] == rest[j - 1];
      }
    }
  }

  /** After collapsing, every whitespace character is a plain space and no two
      of them are adjacent. */
  lemma {:induction false} CollapseSpacesSpacing(s: string)
    ensures NoDoubleSpace(CollapseSpaces(s)) && PlainSpaces(CollapseSpaces(s))
    decreases |s|
  {
    if s != [] {
      if IsSpace(s[0]) {
        var t := TrimStart(s, IsSpace);
        CollapseSpacesSpacing(t);
        SpacingCons(' ', CollapseSpaces(t));
      } else {
        CollapseSpacesSpacing(s[1..]);
        SpacingCons(s[0], CollapseSpaces(s[1..]));
      }
    }
  }

  /** Collapsing whitespace keeps every other character, in order. */
  lemma {:induction false} CollapseSpacesKeepsText(s: string)
    ensures Erase(CollapseSpaces(s), IsSpace) == Erase(s, IsSpace)
    decreases |s|
  {
    if s == [] {
    } else if IsSpace(s[0]) {
      var t := TrimStart(s, IsSpace);
      CollapseSpacesKeepsText(t);
      var n := |s| - |t|;
      assert s == s[..n] + t;
      EraseAppend(s[..n], t, IsSpace);
      assert forall k :: 0 <= k < n ==> IsSpace(s[..n][k]);
      EraseAll(s[..n], IsSpace);
    } else {
      CollapseSpacesKeepsText(s[1..]);
    }
  }

  /** A whitespace run followed by a non-space character (or by nothing)
      becomes one space. */
  lemma CollapseSpacesRun(w: string, rest: string)
    requires w != [] && forall k :: 0 <= k < |w| ==> IsSpace(w[k])
    requires rest == [] || !IsSpace(rest[0])
    ensures CollapseSpaces(w + rest) == " " + CollapseSpaces(rest)
  {
    assert (w + rest)[0] == w[0];
    TrimStartRun(w, rest, IsSpace);
  }

  /** A non-space character is kept as it is. */
  lemma CollapseSpacesWord(c: char, rest: string)
    requires !IsSpace(c)
    ensures CollapseSpaces([c] + rest) == [c] + CollapseSpaces(rest)
  {
    assert ([c] + rest)[1..] == rest;
  }

  /** Two words with a whitespace run between them keep one space. */
  lemma CollapseSpacesBetweenWords(a: string, w: string, b: string)
    requires forall k :: 0 <= k < |a| ==> !IsSpace(a[k])
    requires forall k :: 0 <= k < |b| ==> !IsSpace(b[k])
    requires w != [] && forall k :: 0 <= k < |w| ==> IsSpace(w[k])
    ensures CollapseSpaces(a + (w + b)) == a + (" " + b)
  {
    CollapseSpacesPlain(b);
    CollapseSpacesRun(w, b);
    CollapseSpacesWords(a, w + b);
  }

  /** A leading word is kept as it is. */
  lemma {:induction false} CollapseSpacesWords(a: string, rest: string)
    requires forall k :: 0 <= k < |a| ==> !IsSpace(a[k])
    ensures CollapseSpaces(a + rest) == a + CollapseSpaces(rest)
    decreases |a|
  {
    if a == [] {
      assert a + rest == rest;
    } else {
      CollapseSpacesWords(a[1..], rest);
      CollapseSpacesWord(a[0], a[1..] + rest);
      ConsAppend(a, rest);
      ConsAppend(a, CollapseSpaces(rest));
    }
  }

  /** The shape every cleaned line has: no asterisk, no whitespace at either
      end, no header, quote or bullet marker in front, and whitespace only as
      single plain spaces. */
  ghost predicate IsCleanShape(r: string)
  {
    && '*' !in r
    && (r == [] || (!IsSpace(r[0]) && !IsSpace(r[|r| - 1]) && !IsMarkerOrSpace(r[0])))
    && NoDoubleSpace(r)
    && PlainSpaces(r)
  }

  /** `_clean_line`: the six rewrites in the source's order, the last one
      followed by `strip()`. */
  function CleanLine(line: string): (r: string)
    ensures |r| <= |line|
  {
    var noCode := UnwrapCode(line);
    var noUrls := DropUrls(noCode);
    var noLinks := ReduceLinks(noUrls);
    var noStars := DeleteStars(noLinks);
    var noMarkers := StripMarkers(noStars);
    Strip(CollapseSpaces(noMarkers))
  }

  /** `strip()` keeps a first character that is not whitespace. */
  lemma StripKeepsFirst(x: string)
    requires x != [] && !IsSpace(x[0])
    ensures Strip(x) != [] && Strip(x)[0] == x[0]
  {
    var front := TrimEnd(x, IsSpace);
    assert front != [] && front[0] == x[0];
    assert TrimStart(front, IsSpace) == front;
  }

  /** A slice keeps single plain spaces single and plain, and adds no
      character. */
  lemma SliceKeepsSpacing(r: string, c: string, lo: nat)
    requires lo + |r| <= |c| && r == c[lo..lo + |r|]
    requires NoDoubleSpace(c) && PlainSpaces(c)
    ensures NoDoubleSpace(r) && PlainSpaces(r)
    ensures '*' !in c ==> '*' !in r
  {
    assert forall k :: 0 <= k < |r| ==> r[k] == c[lo + k];
    forall i, j | 0 <= i < j < |r| && j == i + 1
      ensures !(IsSpace(r[i]) && IsSpace(r[j]))
    {
      assert r[i] == c[lo + i] && r[j] == c[lo + j];
    }
  }

  /** `strip()` keeps single plain spaces single and plain, and adds no
      character. */
  lemma StripKeepsSpacing(c: string)
    requires NoDoubleSpace(c) && PlainSpaces(c)
    ensures NoDoubleSpace(Strip(c)) && PlainSpaces(Strip(c))
    ensures '*' !in c ==> '*' !in Strip(c)
  {
    var front := TrimEnd(c, IsSpace);
    assert front == c[0..|front|];
    SliceKeepsSpacing(front, c, 0);
    var r := TrimStart(front, IsSpace);
    SliceKeepsSpacing(r, front, |front| - |r|);
    assert Strip(c) == r;
  }

  /** The last two stages keep an asterisk-free, marker-free start and leave
      single plain spaces between words. */
  lemma CollapseStripShape(x: string)
    requires '*' !in x && (x == [] || !IsMarkerOrSpace(x[0]))
    ensures IsCleanShape(Strip(CollapseSpaces(x)))
  {
    var collapsed := CollapseSpaces(x);
    assert '*' !in collapsed by {
      CollapseSpacesKeepsText(x);
      EraseMembership(collapsed, IsSpace, '*');
      EraseMembership(x, IsSpace, '*');
    }
    CollapseSpacesSpacing(x);
    StripKeepsSpacing(collapsed);
    if x != [] {
      StripKeepsFirst(collapsed);
    }
  }

  /** Every cleaned line has the clean shape. */
  lemma CleanLineShape(line: string)
    ensures IsCleanShape(CleanLine(line))
  {
    LastStagesShape(ReduceLinks(DropUrls(UnwrapCode(line))));
  }

  /** The last three stages give the clean shape, whatever the first three
      left. */
  lemma LastStagesShape(x: string)
    ensures IsCleanShape(Strip(CollapseSpaces(StripMarkers(DeleteStars(x)))))
  {
    var noStars := DeleteStars(x);
    DeleteStarsErasesStars(x);
    EraseRemoves(x, IsStar);
    var noMarkers := StripMarkers(noStars);
    assert '*' !in noMarkers by {
      assert forall k :: 0 <= k < |noMarkers| ==> noMarkers[k] == noStars[|noStars| - |noMarkers| + k];
    }
    CollapseStripShape(noMarkers);
  }

  /** A URL starts with a scheme followed by `:`. */
  lemma UrlHasColon(s: string)
    requires UrlAt(s)
    ensures ':' in s
  {
    if "https://" <= s {
      assert s[5] == "https://"[5] == ':';
    } else {
      assert s[4] == "http://"[4] == ':';
    }
  }

  /** Text without `:` holds no URL. */
  lemma {:induction false} DropUrlsPlain(s: string)
    requires ':' !in s
    ensures DropUrls(s) == s
    decreases |s|
  {
    if s != [] {
      if UrlAt(s) {
        UrlHasColon(s);
        assert false;
      }
      assert DropUrls(s) == [s[0]] + DropUrls(s[1..]);
      DropUrlsPlain(s[1..]);
      assert [s[0]] + s[1..] == s;
    }
  }

  /** Text without `[` holds no link. */
  lemma {:induction false} ReduceLinksPlain(s: string)
    requires '[' !in s
    ensures ReduceLinks(s) == s
    decreases |s|
  {
    if s != [] {
      ReduceLinksPlain(s[1..]);
      assert [s[0]] + s[1..] == s;
    }
  }

  /** Text without whitespace is left alone by the last two stages. */
  lemma {:induction false} CollapseSpacesPlain(s: string)
    requires forall k :: 0 <= k < |s| ==> !IsSpace(s[k])
    ensures CollapseSpaces(s) == s && Strip(s) == s
    decreases |s|
  {
    if s != [] {
      CollapseSpacesPlain(s[1..]);
      assert [s[0]] + s[1..] == s;
    }
  }

  /** A single word with no asterisk, colon or bracket and no leading marker
      passes unchanged through every stage after code unwrapping. */
  lemma PlainWordSurvives(w: string)
    requires ':' !in w && '[' !in w && '*' !in w
    requires forall k :: 0 <= k < |w| ==> !IsSpace(w[k])
    requires w == [] || !IsMarkerOrSpace(w[0])
    ensures Strip(CollapseSpaces(StripMarkers(DeleteStars(ReduceLinks(DropUrls(w)))))) == w
  {
    DropUrlsPlain(w);
    ReduceLinksPlain(w);
    assert DeleteStars(w) == w by {
      DeleteStarsErasesStars(w);
      EraseNone(w, IsStar);
    }
    assert StripMarkers(w) == w;
    CollapseSpacesPlain(w);
  }

  /** A line whose code unwrapping yields a plain word is cleaned to that word. */
  lemma CleanLineOfPlainWord(line: string, w: string)
    requires UnwrapCode(line) == w
    requires ':' !in w && '[' !in w && '*' !in w
    requires forall k :: 0 <= k < |w| ==> !IsSpace(w[k])
    requires w == [] || !IsMarkerOrSpace(w[0])
    ensures CleanLine(line) == w
  {
    PlainWordSurvives(w);
  }

  /** A word of at least one character that every stage after code
      unwrapping leaves alone, and that holds no backtick itself. */
  ghost predicate IsPlainWord(w: string)
  {
    && w != [] && '`' !in w && ':' !in w && '[' !in w && '*' !in w
    && (forall k :: 0 <= k < |w| ==> !IsSpace(w[k]))
    && !IsMarkerOrSpace(w[0])
  }

  /** Doubled backticks around a word lose one level: the first backtick is
      kept, the second opens a span that ends at the third. */
  lemma UnwrapNestedTicks(w: string)
    requires w != [] && '`' !in w
    ensures UnwrapCode("``" + w + "``") == "`" + w + "`"
  {
    var s := "``" + w + "``";
    var t := "`" + w + "`" + "`";
    assert s == "`" + t && s[1..] == t;
    assert IndexOf(t, '`') == 0;
    assert UnwrapCode(s) == "`" + UnwrapCode(t);
    CodeSpanAtFront(w, "`");
    assert UnwrapCode("`") == "`";
  }

  /** The backtick-wrapped word also passes the later stages unchanged. */
  lemma TickedWordPlain(w: string)
    requires IsPlainWord(w)
    ensures var v := "`" + w + "`";
      && ':' !in v && '[' !in v && '*' !in v
      && (forall k :: 0 <= k < |v| ==> !IsSpace(v[k]))
      && !IsMarkerOrSpace(v[0])
  {
    var v := "`" + w + "`";
    forall k | 0 <= k < |v|
      ensures !IsSpace(v[k]) && v[k] != ':' && v[k] != '[' && v[k] != '*'
    {
      if 0 < k < |v| - 1 {
        assert v[k] == w[k - 1];
      }
    }
  }

  /** `_clean_line` on a word in doubled backticks keeps one pair. */
  lemma CleanNestedTicks(w: string)
    requires IsPlainWord(w)
    ensures CleanLine("``" + w + "``") == "`" + w + "`"
  {
    UnwrapNestedTicks(w);
    TickedWordPlain(w);
    CleanLineOfPlainWord("``" + w + "``", "`" + w + "`");
  }

  /** `_clean_line` on a word in single backticks gives the word. */
  lemma CleanSingleTicks(w: string)
    requires IsPlainWord(w)
    ensures CleanLine("`" + w + "`") == w
  {
    CodeSpanUnwrapped(w);
    CleanLineOfPlainWord("`" + w + "`", w);
  }

  /** The sanitiser is not idempotent: nested backticks are unwrapped one
      level per application, so cleaning a cleaned line can change it again. */
  lemma CleanLineNotIdempotent(w: string)
    requires IsPlainWord(w)
    ensures CleanLine(CleanLine("``" + w + "``")) != CleanLine("``" + w + "``")
  {
    CleanNestedTicks(w);
    CleanSingleTicks(w);
    assert |w| != |"`" + w + "`"|;
  }
}
