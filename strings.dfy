/** The parts of Python's `str` and `re` that the message pipeline relies on,
    written out over `seq<char>`: character classes, searching, trimming,
    replacing, and two reference notions (erasure and subsequence) that the
    sanitiser's stages are specified against. */
module Strings {

  /** Python's `str.isspace()`; the regex class `\s` and the argument-less
      `strip()`/`rstrip()` use the same set. */
  predicate IsSpace(c: char)
  {
    var n := c as int;
    n == 0x20 || 0x09 <= n <= 0x0D || 0x1C <= n <= 0x1F || n == 0x85 || n == 0xA0 ||
    n == 0x1680 || 0x2000 <= n <= 0x200A || n == 0x2028 || n == 0x2029 ||
    n == 0x202F || n == 0x205F || n == 0x3000
  }

  predicate IsNonSpace(c: char)
  {
    !IsSpace(c)
  }

  /** The line boundaries of Python's `str.splitlines()` (`\r\n` counts as one). */
  predicate IsLineBreak(c: char)
  {
    var n := c as int;
    0x0A <= n <= 0x0D || 0x1C <= n <= 0x1E || n == 0x85 || n == 0x2028 || n == 0x2029
  }

  /** On ASCII, `str.isspace()` holds for the six C whitespace characters and
      the four separators 0x1C-0x1F, and `str.splitlines()` breaks on all of
      them except the space, the tab and the unit separator 0x1F. */
  lemma AsciiSpaces(c: char)
    requires c as int < 0x80
    ensures IsSpace(c) <==> c in " \t\n\r\U{000b}\U{000c}\U{001c}\U{001d}\U{001e}\U{001f}"
    ensures IsLineBreak(c) <==> c in "\n\r\U{000b}\U{000c}\U{001c}\U{001d}\U{001e}"
  {
  }

  /** Every line boundary is whitespace, and so are the Unicode spaces
      beyond ASCII that the source's regular expressions see as `\s`. */
  lemma LineBreaksAreSpaces(c: char)
    ensures IsLineBreak(c) ==> IsSpace(c)
    ensures IsSpace('\U{00A0}') && IsSpace('\U{3000}') && IsSpace('\U{2028}') && IsLineBreak('\U{0085}')
    ensures !IsSpace('\U{200B}') && !IsLineBreak('\U{00A0}')
  {
  }

  /** `str.lower()` on the ASCII letters; every other character is kept. */
  function LowerChar(c: char): char
  {
    if 'A' <= c <= 'Z' then (c as int + 32) as char else c
  }

  function Lower(s: string): string
  {
    seq(|s|, i requires 0 <= i < |s| => LowerChar(s[i]))
  }

  /** Index of the first character satisfying `p`, or `|s|` when there is none. */
  function IndexWhere(s: string, p: char -> bool): (i: nat)
    ensures i <= |s|
    ensures i < |s| ==> p(s[i])
    ensures forall k :: 0 <= k < i ==> !p(s[k])
  {
    if s == [] || p(s[0]) then 0 else 1 + IndexWhere(s[1..], p)
  }

  /** `s.find(c)`, with `|s|` standing for "not found". */
  function IndexOf(s: string, c: char): (i: nat)
    ensures i <= |s|
    ensures i < |s| ==> s[i] == c
    ensures forall k :: 0 <= k < i ==> s[k] != c
  {
    IndexWhere(s, x => x == c)
  }

  /** The first `c` after a run without `c` is found right after the run. */
  lemma IndexOfAfterPlain(a: string, c: char, rest: string)
    requires c !in a
    ensures IndexOf(a + [c] + rest, c) == |a|
  {
    var s := a + [c] + rest;
    assert s[|a|] == c;
    assert forall k :: 0 <= k < |a| ==> s[k] == a[k];
  }

  /** The first character satisfying `p` after a run without one is found
      right after the run. */
  lemma IndexWhereAfter(a: string, b: char, rest: string, p: char -> bool)
    requires forall k :: 0 <= k < |a| ==> !p(a[k])
    requires p(b)
    ensures IndexWhere(a + [b] + rest, p) == |a|
  {
    var s := a + [b] + rest;
    assert s[|a|] == b;
    assert forall k :: 0 <= k < |a| ==> s[k] == a[k];
  }

  /** `s.rfind(c)`: the last index holding `c`, or -1. */
  function RFind(s: string, c: char): (r: int)
    ensures -1 <= r < |s|
    ensures r >= 0 ==> s[r] == c
    ensures forall k :: r < k < |s| ==> s[k] != c
  {
    if s == [] then -1
    else if s[|s| - 1] == c then |s| - 1
    else RFind(s[..|s| - 1], c)
  }

  /** `s.find(pat)`, with `|s|` standing for "not found". */
  function Find(s: string, pat: string): (i: nat)
    requires pat != []
    ensures i <= |s|
    ensures i < |s| ==> pat <= s[i..]
    ensures forall k :: 0 <= k < i ==> !(pat <= s[k..])
  {
    if s == [] || pat <= s then 0
    else
      var i := Find(s[1..], pat);
      assert forall k :: 1 <= k <= |s| ==> s[1..][k - 1..] == s[k..];
      1 + i
  }

  /** Whether `pat` starts at `k` is decided within a prefix that holds it. */
  lemma PatternInPrefix(u: string, t: string, pat: string, k: nat)
    requires u <= t && k + |pat| <= |u|
    ensures pat <= u[k..] <==> pat <= t[k..]
  {
    assert forall j :: 0 <= j < |pat| ==> u[k..][j] == t[k..][j];
  }

  /** `pat` is first found right after a prefix in which it cannot begin. */
  lemma FindAfterPlain(a: string, pat: string)
    requires pat != [] && pat[0] !in a
    ensures Find(a + pat, pat) == |a|
  {
    var s := a + pat;
    assert s[|a|..] == pat;
    forall k | 0 <= k < |a|
      ensures !(pat <= s[k..])
    {
      assert s[k..][0] == a[k];
    }
  }

  /** A pattern that does not occur in a text does not occur in its suffixes. */
  lemma FindAbsentSuffix(s: string, pat: string, k: nat)
    requires pat != [] && Find(s, pat) == |s| && k <= |s|
    ensures Find(s[k..], pat) == |s| - k
  {
    forall j | 0 <= j < |s| - k
      ensures !(pat <= s[k..][j..])
    {
      assert s[k..][j..] == s[k + j..];
    }
  }

  /** `s.split(sep)[0]`: everything before the first `sep`. */
  function SplitHead(s: string, sep: string): string
    requires sep != []
  {
    s[..Find(s, sep)]
  }

  /** Drops the leading characters satisfying `drop` (the shape of `lstrip`). */
  function TrimStart(s: string, drop: char -> bool): (r: string)
    ensures |r| <= |s| && r == s[|s| - |r|..]
    ensures forall k :: 0 <= k < |s| - |r| ==> drop(s[k])
    ensures r == [] || !drop(r[0])
    ensures s != [] && drop(s[0]) ==> |r| < |s|
  {
    if s != [] && drop(s[0]) then TrimStart(s[1..], drop) else s
  }

  /** A leading run of dropped characters is removed up to the first kept one. */
  lemma {:induction false} TrimStartRun(w: string, rest: string, drop: char -> bool)
    requires forall k :: 0 <= k < |w| ==> drop(w[k])
    requires rest == [] || !drop(rest[0])
    ensures TrimStart(w + rest, drop) == rest
    decreases |w|
  {
    if w == [] {
      assert w + rest == rest;
    } else {
      assert (w + rest)[0] == w[0];
      assert (w + rest)[1..] == w[1..] + rest;
      TrimStartRun(w[1..], rest, drop);
    }
  }

  /** Drops the trailing characters satisfying `drop` (the shape of `rstrip`). */
  function TrimEnd(s: string, drop: char -> bool): (r: string)
    ensures r <= s
    ensures forall k :: |r| <= k < |s| ==> drop(s[k])
    ensures r == [] || !drop(r[|r| - 1])
  {
    if s != [] && drop(s[|s| - 1]) then TrimEnd(s[..|s| - 1], drop) else s
  }

  /** `str.strip()`. */
  function Strip(s: string): (r: string)
    ensures |r| <= |s|
    ensures r == [] || (!IsSpace(r[0]) && !IsSpace(r[|r| - 1]))
  {
    TrimStart(TrimEnd(s, IsSpace), IsSpace)
  }

  /** `s.replace(pat, sub)`: every occurrence of `pat`, found left to right
      without overlap, is replaced by `sub`. */
  function Replace(s: string, pat: string, sub: string): string
    requires pat != []
    decreases |s|
  {
    if |s| < |pat| then s
    else if pat <= s then sub + Replace(s[|pat|..], pat, sub)
    else [s[0]] + Replace(s[1..], pat, sub)
  }

  /** A first character that cannot begin `pat` is copied. */
  lemma ReplaceSkipsFirst(s: string, pat: string, sub: string)
    requires pat != [] && s != [] && s[0] != pat[0]
    ensures Replace(s, pat, sub) == [s[0]] + Replace(s[1..], pat, sub)
  {
    if |s| < |pat| {
      assert [s[0]] + s[1..] == s;
    }
  }

  /** A prefix in which `pat` cannot begin passes through `Replace` untouched. */
  lemma {:induction false} ReplaceAfterPlain(a: string, t: string, pat: string, sub: string)
    requires pat != [] && pat[0] !in a
    ensures Replace(a + t, pat, sub) == a + Replace(t, pat, sub)
    decreases |a|
  {
    if a == [] {
      assert a + t == t;
    } else {
      var s := a + t;
      assert s[0] == a[0] && s[1..] == a[1..] + t;
      ReplaceSkipsFirst(s, pat, sub);
      ReplaceAfterPlain(a[1..], t, pat, sub);
      var rest := Replace(t, pat, sub);
      assert Replace(s, pat, sub) == [a[0]] + (a[1..] + rest);
      assert [a[0]] + (a[1..] + rest) == ([a[0]] + a[1..]) + rest;
      assert [a[0]] + a[1..] == a;
    }
  }

  /** A template made of plain text and then the placeholder becomes the text
      followed by the substitute. */
  lemma FillTrailingPlaceholder(a: string, pat: string, sub: string)
    requires pat != [] && pat[0] !in a
    ensures Replace(a + pat, pat, sub) == a + sub
  {
    ReplaceAfterPlain(a, pat, pat, sub);
    assert pat[|pat|..] == [];
  }

  /** A text in which `pat` cannot begin is left alone by `Replace`. */
  lemma ReplaceAbsent(a: string, pat: string, sub: string)
    requires pat != [] && pat[0] !in a
    ensures Replace(a, pat, sub) == a
  {
    ReplaceAfterPlain(a, [], pat, sub);
    assert a + [] == a;
  }

  /** Splitting off the first element commutes with appending. */
  lemma ConsAppend<T>(a: seq<T>, x: seq<T>)
    requires a != []
    ensures a + x == [a[0]] + (a[1..] + x)
  {
    assert a == [a[0]] + a[1..];
  }

  /** `s` with every character satisfying `drop` removed. */
  function Erase(s: string, drop: char -> bool): (r: string)
    ensures |r| <= |s|
  {
    if s == [] then [] else (if drop(s[0]) then [] else [s[0]]) + Erase(s[1..], drop)
  }

  /** Nothing that `drop` holds of is left. */
  lemma {:induction false} EraseRemoves(s: string, drop: char -> bool)
    ensures forall k :: 0 <= k < |Erase(s, drop)| ==> !drop(Erase(s, drop)[k])
  {
    if s != [] {
      EraseRemoves(s[1..], drop);
    }
  }

  lemma {:induction false} EraseAppend(a: string, b: string, drop: char -> bool)
    ensures Erase(a + b, drop) == Erase(a, drop) + Erase(b, drop)
  {
    if a == [] {
      assert a + b == b;
    } else {
      assert (a + b)[0] == a[0];
      assert (a + b)[1..] == a[1..] + b;
      EraseAppend(a[1..], b, drop);
    }
  }

  /** Erasing from a text whose first `i` characters are all kept and whose
      characters from `i` up to `next` are all erased. */
  lemma EraseLineAndGap(s: string, i: nat, next: nat, drop: char -> bool)
    requires i <= next <= |s|
    requires Erase(s[..i], drop) == s[..i] && Erase(s[i..next], drop) == []
    ensures Erase(s, drop) == s[..i] + Erase(s[next..], drop)
  {
    EraseSplit(s, next, drop);
    EraseSplit(s[..next], i, drop);
    assert s[..next][..i] == s[..i];
    assert s[..next][i..] == s[i..next];
    assert s[..i] + [] == s[..i];
  }

  /** Erasing works on the two sides of any cut separately. */
  lemma EraseSplit(s: string, i: nat, drop: char -> bool)
    requires i <= |s|
    ensures Erase(s, drop) == Erase(s[..i], drop) + Erase(s[i..], drop)
  {
    assert s == s[..i] + s[i..];
    EraseAppend(s[..i], s[i..], drop);
  }

  /** Erasing from a prefix with nothing to erase keeps it whole. */
  lemma EraseSliceNone(s: string, hi: nat, drop: char -> bool)
    requires hi <= |s| && forall k :: 0 <= k < hi ==> !drop(s[k])
    ensures Erase(s[..hi], drop) == s[..hi]
  {
    var t := s[..hi];
    forall k | 0 <= k < |t|
      ensures !drop(t[k])
    {
      assert t[k] == s[k];
    }
    EraseNone(t, drop);
  }

  /** Erasing from a slice made only of erased characters leaves nothing. */
  lemma EraseSliceAll(s: string, lo: nat, hi: nat, drop: char -> bool)
    requires lo <= hi <= |s| && forall k :: lo <= k < hi ==> drop(s[k])
    ensures Erase(s[lo..hi], drop) == []
  {
    var t := s[lo..hi];
    forall k | 0 <= k < |t|
      ensures drop(t[k])
    {
      assert t[k] == s[lo + k];
    }
    EraseAll(t, drop);
  }

  /** Erasing from a span whose two delimiters are erased. */
  lemma EraseSpan(s: string, k: nat, drop: char -> bool)
    requires 0 < k < |s| - 1 && drop(s[0]) && drop(s[k + 1])
    ensures Erase(s, drop) == Erase(s[1..k + 1], drop) + Erase(s[k + 2..], drop)
  {
    var inner, closed, rest := s[1..k + 1], s[k + 1..], s[k + 2..];
    assert Erase(s, drop) == Erase(s[1..], drop);
    assert s[1..] == inner + closed;
    EraseAppend(inner, closed, drop);
    assert closed[1..] == rest;
    assert Erase(closed, drop) == Erase(rest, drop);
  }

  lemma {:induction false} EraseMembership(s: string, drop: char -> bool, c: char)
    requires !drop(c)
    ensures c in Erase(s, drop) <==> c in s
  {
    if s != [] {
      EraseMembership(s[1..], drop, c);
      assert s == [s[0]] + s[1..];
    }
  }

  /** Erasing characters that do not occur changes nothing. */
  lemma {:induction false} EraseNone(s: string, drop: char -> bool)
    requires forall k :: 0 <= k < |s| ==> !drop(s[k])
    ensures Erase(s, drop) == s
  {
    if s != [] {
      EraseNone(s[1..], drop);
    }
  }

  /** Erasing characters that all satisfy `drop` leaves nothing. */
  lemma {:induction false} EraseAll(s: string, drop: char -> bool)
    requires forall k :: 0 <= k < |s| ==> drop(s[k])
    ensures Erase(s, drop) == []
  {
    if s != [] {
      EraseAll(s[1..], drop);
    }
  }

  /** `a` can be obtained from `b` by deleting elements. */
  predicate IsSubsequence<T(==)>(a: seq<T>, b: seq<T>)
    decreases |b|
  {
    if b == [] then a == []
    else (a != [] && a[0] == b[0] && IsSubsequence(a[1..], b[1..])) || IsSubsequence(a, b[1..])
  }

  lemma SubsequenceCons<T>(c: T, a: seq<T>, b: seq<T>)
    requires IsSubsequence(a, b)
    ensures IsSubsequence([c] + a, [c] + b)
  {
    assert ([c] + a)[1..] == a && ([c] + b)[1..] == b;
  }

  lemma {:induction false} SubsequenceEmpty<T>(b: seq<T>)
    ensures IsSubsequence([], b)
  {
    if b != [] {
      SubsequenceEmpty(b[1..]);
    }
  }

  lemma {:induction false} SubsequenceRefl<T>(a: seq<T>)
    ensures IsSubsequence(a, a)
  {
    if a != [] {
      SubsequenceRefl(a[1..]);
    }
  }

  /** Deleting a prefix of the larger string keeps a subsequence a subsequence. */
  lemma {:induction false} SubsequenceSkip<T>(a: seq<T>, b: seq<T>, k: nat)
    requires k <= |b| && IsSubsequence(a, b[k..])
    ensures IsSubsequence(a, b)
    decreases k
  {
    if k > 0 {
      assert b[1..][k - 1..] == b[k..];
      SubsequenceSkip(a, b[1..], k - 1);
    }
  }

  lemma {:induction false} SubsequenceAppend<T>(a: seq<T>, b: seq<T>, c: seq<T>, d: seq<T>)
    requires IsSubsequence(a, b) && IsSubsequence(c, d)
    ensures IsSubsequence(a + c, b + d)
    decreases |b|
  {
    if b == [] {
      assert a + c == c && b + d == d;
    } else {
      assert (b + d)[0] == b[0] && (b + d)[1..] == b[1..] + d;
      if a != [] && a[0] == b[0] && IsSubsequence(a[1..], b[1..]) {
        SubsequenceAppend(a[1..], b[1..], c, d);
        assert (a + c)[0] == a[0] && (a + c)[1..] == a[1..] + c;
      } else {
        SubsequenceAppend(a, b[1..], c, d);
      }
    }
  }

  /** Keeping one slice of `s` and a subsequence of a later suffix gives a
      subsequence of `s`. */
  lemma SubsequenceKeepSlice<T>(s: seq<T>, a: nat, b: nat, c: nat, x: seq<T>)
    requires a <= b <= c <= |s| && IsSubsequence(x, s[c..])
    ensures IsSubsequence(s[a..b] + x, s)
  {
    var mid := s[a..b];
    SubsequenceRefl(mid);
    SubsequenceEmpty(s[b..c]);
    SubsequenceAppend(mid, mid, [], s[b..c]);
    assert mid + [] == mid;
    assert mid + s[b..c] == s[a..c];
    SubsequenceAppend(mid, s[a..c], x, s[c..]);
    assert s[a..c] + s[c..] == s[a..];
    SubsequenceSkip(mid + x, s, a);
  }
}
