/**
 * The parts of Python's `str` and `os.path` that the image-update command relies on,
 * written out over `seq<char>`: substring search (`a in b`), `str.replace`,
 * `str.strip`, `str.lower`, `str.endswith`, `str.split(':')[0]` and
 * `os.path.splitext`.
 */
module PyStrings {

  // ---------------------------------------------------------------------------
  // Substring search: Python's `a in b` on strings
  // ---------------------------------------------------------------------------

  /** `a` occurs in `b` starting at index `i`. */
  predicate OccursAt(a: string, b: string, i: int)
  {
    0 <= i && i + |a| <= |b| && b[i..i + |a|] == a
  }

  /** Python's `a in b`: `a` is a contiguous slice of `b` (the empty string is in every string). */
  predicate IsSubstring(a: string, b: string)
  {
    exists i | 0 <= i <= |b| - |a| :: OccursAt(a, b, i)
  }

  /** An occurrence in a prefix of `b` is an occurrence in `b`. */
  lemma OccursInPrefix(a: string, p: string, b: string, i: int)
    requires OccursAt(a, p, i) && |p| <= |b| && b[..|p|] == p
    ensures OccursAt(a, b, i)
  {
    assert b[i..i + |a|] == p[i..i + |a|];
  }

  /** Occurrences in `b[1..]` are occurrences in `b`, one index further. */
  lemma OccursInTail(a: string, b: string, i: int)
    requires |b| > 0 && i >= 0
    ensures OccursAt(a, b[1..], i) <==> OccursAt(a, b, i + 1)
  {
    if 0 <= i && i + |a| <= |b| - 1 {
      assert b[1..][i..i + |a|] == b[i + 1..i + 1 + |a|];
    }
  }

  /** `a in b` is `b.startswith(a)` or `a in b[1:]`: the search Python performs from the left. */
  lemma {:induction false} SubstringUnfold(a: string, b: string)
    requires |b| > 0
    ensures IsSubstring(a, b) <==> a <= b || IsSubstring(a, b[1..])
  {
    if a <= b {
      assert OccursAt(a, b, 0);
    } else if IsSubstring(a, b[1..]) {
      var i :| 0 <= i <= |b| - 1 - |a| && OccursAt(a, b[1..], i);
      OccursInTail(a, b, i);
    } else if IsSubstring(a, b) {
      var i :| 0 <= i <= |b| - |a| && OccursAt(a, b, i);
      assert i != 0;
      OccursInTail(a, b, i - 1);
    }
  }

  /** A string containing a character that `b` lacks is not in `b`. */
  lemma NotSubstringMissingChar(a: string, b: string, c: char)
    requires c in a && c !in b
    ensures !IsSubstring(a, b)
  {
  }

  /** Every string contains itself: equality implies containment. */
  lemma SubstringReflexive(a: string)
    ensures IsSubstring(a, a)
  {
    assert OccursAt(a, a, 0);
  }

  // ---------------------------------------------------------------------------
  // `str.replace(old, new)` (every occurrence) and `str.replace(old, new, 1)`
  // ---------------------------------------------------------------------------

  /**
   * Python's `s.replace(pat, repl)` for a non-empty pattern: one left-to-right pass
   * that replaces every non-overlapping occurrence.
   */
  function ReplaceAll(s: string, pat: string, repl: string): (r: string)
    requires |pat| > 0
    ensures !IsSubstring(pat, s) ==> r == s
    ensures |repl| <= |pat| ==> |r| <= |s|
    ensures |repl| < |pat| && IsSubstring(pat, s) ==> |r| < |s|
    decreases |s|
  {
    if |s| < |pat| then s
    else if s[..|pat|] == pat then
      assert OccursAt(pat, s, 0);
      repl + ReplaceAll(s[|pat|..], pat, repl)
    else
      SubstringUnfold(pat, s);
      [s[0]] + ReplaceAll(s[1..], pat, repl)
  }

  /** Index of the first occurrence of `a` in `b`, as Python's `b.find(a)` (-1 when absent). */
  function Find(a: string, b: string): (r: int)
    ensures r >= -1
    ensures r >= 0 ==> OccursAt(a, b, r)
    ensures r >= 0 ==> forall j :: 0 <= j < r ==> !OccursAt(a, b, j)
    ensures r == -1 <==> !IsSubstring(a, b)
    decreases |b|
  {
    if a <= b then
      assert OccursAt(a, b, 0);
      0
    else if |b| == 0 then -1
    else
      var k := Find(a, b[1..]);
      SubstringUnfold(a, b);
      if k == -1 then -1
      else
        OccursInTail(a, b, k);
        assert forall j :: 0 <= j < k + 1 ==> !OccursAt(a, b, j) by {
          forall j | 0 <= j < k + 1 ensures !OccursAt(a, b, j) {
            if j > 0 { OccursInTail(a, b, j - 1); }
          }
        }
        k + 1
  }

  /** Where the pattern does not start the text, `replace` keeps the first character. */
  lemma ReplaceAllKeepsHead(s: string, pat: string, repl: string)
    requires 0 < |pat| <= |s| && s[..|pat|] != pat
    ensures ReplaceAll(s, pat, repl) == [s[0]] + ReplaceAll(s[1..], pat, repl)
  {
  }

  /** Where the pattern starts the text, `replace` replaces it and goes on after it. */
  lemma ReplaceAllAtStart(s: string, pat: string, repl: string)
    requires 0 < |pat| <= |s| && s[..|pat|] == pat
    ensures ReplaceAll(s, pat, repl) == repl + ReplaceAll(s[|pat|..], pat, repl)
  {
  }

  /** Putting the first character back in front of a split of the tail. */
  lemma PrependToSplit(s: string, k: nat, mid: string, tail: string)
    requires 0 < |s| && k < |s|
    ensures [s[0]] + (s[1..][..k] + mid + tail) == s[..k + 1] + mid + tail
  {
    assert [s[0]] + s[1..][..k] == s[..k + 1];
  }

  /** `replace` keeps a prefix in which no occurrence of the pattern starts. */
  lemma {:induction false} ReplaceAllKeepsFreePrefix(s: string, pat: string, repl: string, n: nat)
    requires |pat| > 0 && n <= |s|
    requires forall j :: 0 <= j < n ==> !OccursAt(pat, s, j)
    ensures ReplaceAll(s, pat, repl) == s[..n] + ReplaceAll(s[n..], pat, repl)
    decreases n
  {
    if n == 0 {
      assert s[..0] + ReplaceAll(s[0..], pat, repl) == ReplaceAll(s, pat, repl);
    } else {
      var rest := s[1..];
      forall j | 0 <= j < n - 1 ensures !OccursAt(pat, rest, j) {
        OccursInTail(pat, s, j);
      }
      ReplaceAllKeepsFreePrefix(rest, pat, repl, n - 1);
      assert rest[n - 1..] == s[n..];
      if |s| < |pat| {
        assert ReplaceAll(s[n..], pat, repl) == s[n..];
        assert s[..n] + s[n..] == s;
      } else {
        assert !OccursAt(pat, s, 0);
        ReplaceAllKeepsHead(s, pat, repl);
        PrependToSplit(s, n - 1, [], ReplaceAll(s[n..], pat, repl));
        assert rest[..n - 1] + [] == rest[..n - 1];
        assert s[..n] + [] == s[..n];
      }
    }
  }

  /** With no occurrence of the pattern, `replace` returns the text unchanged. */
  lemma ReplaceAllWithoutOccurrence(s: string, pat: string, repl: string)
    requires |pat| > 0 && !IsSubstring(pat, s)
    ensures ReplaceAll(s, pat, repl) == s
  {
  }

  /** At an occurrence with none before it, the text before it is kept and the occurrence replaced. */
  lemma {:induction false} ReplaceAllFromFirstOccurrence(s: string, pat: string, repl: string, i: nat)
    requires |pat| > 0 && OccursAt(pat, s, i)
    requires forall j :: 0 <= j < i ==> !OccursAt(pat, s, j)
    ensures ReplaceAll(s, pat, repl) == s[..i] + repl + ReplaceAll(s[i + |pat|..], pat, repl)
  {
    ReplaceAllKeepsFreePrefix(s, pat, repl, i);
    var t := s[i..];
    assert t[..|pat|] == pat;
    ReplaceAllAtStart(t, pat, repl);
    assert t[|pat|..] == s[i + |pat|..];
    var tail := ReplaceAll(s[i + |pat|..], pat, repl);
    calc {
      ReplaceAll(s, pat, repl);
      s[..i] + ReplaceAll(t, pat, repl);
      s[..i] + (repl + tail);
      s[..i] + repl + tail;
    }
  }

  /**
   * The pass of `replace` seen from the first occurrence `Find` reports: the text before it
   * is kept, the occurrence is replaced, and the pass goes on after it; with no occurrence
   * the text is unchanged.
   */
  lemma {:induction false} ReplaceAllAtFirstOccurrence(s: string, pat: string, repl: string, i: int)
    requires |pat| > 0 && i == Find(pat, s)
    ensures ReplaceAll(s, pat, repl)
            == if i < 0 then s else s[..i] + repl + ReplaceAll(s[i + |pat|..], pat, repl)
  {
    if i < 0 {
      ReplaceAllWithoutOccurrence(s, pat, repl);
    } else {
      ReplaceAllFromFirstOccurrence(s, pat, repl, i);
    }
  }

  /** Python's `s.replace(pat, repl, 1)`: only the first occurrence is replaced. */
  function ReplaceFirst(s: string, pat: string, repl: string): (r: string)
    ensures !IsSubstring(pat, s) ==> r == s
    ensures IsSubstring(pat, s) ==>
              exists i :: OccursAt(pat, s, i) && (forall j :: 0 <= j < i ==> !OccursAt(pat, s, j))
                          && r == s[..i] + repl + s[i + |pat|..]
  {
    var i := Find(pat, s);
    if i < 0 then s else s[..i] + repl + s[i + |pat|..]
  }

  // ---------------------------------------------------------------------------
  // `str.strip()`
  // ---------------------------------------------------------------------------

  /** Python's `str.isspace()` for one character: the whitespace `str.strip()` removes. */
  predicate IsSpace(c: char)
  {
    var n := c as int;
    (0x09 <= n <= 0x0D) || (0x1C <= n <= 0x20) || n == 0x85 || n == 0xA0 || n == 0x1680
    || (0x2000 <= n <= 0x200A) || n == 0x2028 || n == 0x2029 || n == 0x202F || n == 0x205F
    || n == 0x3000
  }

  /** How many whitespace characters `s` starts with. */
  function LeadingSpaces(s: string): (n: nat)
    ensures n <= |s|
    ensures forall k :: 0 <= k < n ==> IsSpace(s[k])
    ensures n == |s| || !IsSpace(s[n])
    decreases |s|
  {
    if |s| > 0 && IsSpace(s[0]) then 1 + LeadingSpaces(s[1..]) else 0
  }

  /**
   * Python's `s.strip()`: whitespace removed from both ends, nothing else touched;
   * `StripIsInnerSlice` states which slice of `s` is kept.
   */
  function Strip(s: string): (r: string)
    ensures |r| <= |s|
    ensures r == [] || (!IsSpace(r[0]) && !IsSpace(r[|r| - 1]))
    decreases |s|
  {
    if |s| > 0 && IsSpace(s[0]) then Strip(s[1..])
    else if |s| > 0 && IsSpace(s[|s| - 1]) then Strip(s[..|s| - 1])
    else s
  }

  /**
   * `strip` keeps the slice of `s` that starts after its leading whitespace, and
   * everything after that slice is whitespace.
   */
  predicate StripsToInnerSlice(s: string)
  {
    && OccursAt(Strip(s), s, LeadingSpaces(s))
    && forall k :: LeadingSpaces(s) + |Strip(s)| <= k < |s| ==> IsSpace(s[k])
  }

  /** Dropping a leading space keeps the slice `strip` chooses. */
  lemma StripSliceAfterLeadingSpace(s: string)
    requires |s| > 0 && IsSpace(s[0]) && StripsToInnerSlice(s[1..])
    ensures StripsToInnerSlice(s)
  {
    var t := s[1..];
    var r := Strip(s);
    assert r == Strip(t) && LeadingSpaces(s) == LeadingSpaces(t) + 1;
    OccursInTail(r, s, LeadingSpaces(t));
    assert forall k :: LeadingSpaces(s) + |r| <= k < |s| ==> s[k] == t[k - 1];
  }

  /** Dropping a trailing space, after a non-space first character, keeps the slice `strip` chooses. */
  lemma StripSliceBeforeTrailingSpace(s: string)
    requires |s| > 0 && !IsSpace(s[0]) && IsSpace(s[|s| - 1]) && StripsToInnerSlice(s[..|s| - 1])
    ensures StripsToInnerSlice(s)
  {
    var p := s[..|s| - 1];
    var r := Strip(s);
    assert r == Strip(p) && p[0] == s[0];
    assert LeadingSpaces(s) == 0 == LeadingSpaces(p);
    OccursInPrefix(r, p, s, 0);
    assert forall k :: |r| <= k < |s| - 1 ==> s[k] == p[k];
  }

  /** `Strip(s)` is the slice of `s` after its leading whitespace, followed in `s` by whitespace only. */
  lemma {:induction false} StripIsInnerSlice(s: string)
    ensures OccursAt(Strip(s), s, LeadingSpaces(s))
    ensures forall k :: LeadingSpaces(s) + |Strip(s)| <= k < |s| ==> IsSpace(s[k])
    decreases |s|
  {
    if |s| > 0 && IsSpace(s[0]) {
      StripIsInnerSlice(s[1..]);
      StripSliceAfterLeadingSpace(s);
    } else if |s| > 0 && IsSpace(s[|s| - 1]) {
      StripIsInnerSlice(s[..|s| - 1]);
      StripSliceBeforeTrailingSpace(s);
    } else {
      assert Strip(s) == s && LeadingSpaces(s) == 0;
      assert s[0..|s|] == s;
    }
  }

  /** A string that neither starts nor ends with whitespace is left as it is. */
  lemma StripKeepsTrimmed(s: string)
    requires |s| > 0 && !IsSpace(s[0]) && !IsSpace(s[|s| - 1])
    ensures Strip(s) == s
  {
  }

  // ---------------------------------------------------------------------------
  // `str.lower()` and `str.endswith()`
  // ---------------------------------------------------------------------------

  function LowerChar(c: char): char
  {
    if 'A' <= c <= 'Z' then (c as int + 32) as char else c
  }

  /**
   * `str.lower()` on ASCII letters: the same length, every upper-case letter replaced
   * by its lower-case letter (none is left), and every other character kept as it is.
   */
  function Lower(s: string): (r: string)
    ensures |r| == |s|
    ensures forall k :: 0 <= k < |r| ==> !('A' <= r[k] <= 'Z')
    ensures forall k {:trigger r[k]} :: 0 <= k < |s| && 'A' <= s[k] <= 'Z' ==> r[k] == (s[k] as int + 32) as char
    ensures forall k {:trigger r[k]} :: 0 <= k < |s| && !('A' <= s[k] <= 'Z') ==> r[k] == s[k]
  {
    seq(|s|, k requires 0 <= k < |s| => LowerChar(s[k]))
  }

  /** Python's `s.endswith(suffix)`. */
  predicate EndsWith(s: string, suffix: string)
  {
    |suffix| <= |s| && s[|s| - |suffix|..] == suffix
  }

  // ---------------------------------------------------------------------------
  // `str.split(':')[0]`
  // ---------------------------------------------------------------------------

  /**
   * Python's `s.find(c)` for one character, with `|s|` standing for "absent": the
   * length of `split(c)[0]`. It is kept beside `Find` because `split` needs a `nat`
   * slice bound and a per-character search, not a pattern search with -1 for "absent".
   */
  function FirstIndexOf(s: string, c: char): (n: nat)
    ensures n <= |s|
    ensures forall k :: 0 <= k < n ==> s[k] != c
    ensures n == |s| || s[n] == c
    decreases |s|
  {
    if s == [] || s[0] == c then 0 else 1 + FirstIndexOf(s[1..], c)
  }

  /** Python's `s.split(c)[0]`: the text before the first `c`, or all of `s`. */
  function BeforeFirst(s: string, c: char): (r: string)
    ensures r <= s && c !in r
    ensures r == s || s[|r|] == c
  {
    s[..FirstIndexOf(s, c)]
  }

  /** Whatever follows the first separator does not affect `split(c)[0]`. */
  lemma {:induction false} BeforeFirstOfJoin(p: string, c: char, rest: string)
    requires c !in p
    ensures BeforeFirst(p + [c] + rest, c) == p
  {
    var s := p + [c] + rest;
    var r := BeforeFirst(s, c);
    assert s[|p|] == c && s[..|p|] == p;
    assert |r| == |p|;
  }

  // ---------------------------------------------------------------------------
  // `os.path.splitext` (POSIX)
  // ---------------------------------------------------------------------------

  /** Python's `s.rfind(c)`: the last index of `c`, or -1. */
  function LastIndexOf(s: string, c: char): (r: int)
    ensures -1 <= r < |s|
    ensures r >= 0 ==> s[r] == c
    ensures forall k :: r < k < |s| ==> s[k] != c
    decreases |s|
  {
    if s == [] then -1
    else if s[|s| - 1] == c then |s| - 1
    else LastIndexOf(s[..|s| - 1], c)
  }

  predicate AllDots(s: string)
  {
    forall k :: 0 <= k < |s| ==> s[k] == '.'
  }

  /** An extension as `splitext` returns it: a dot, then neither dots nor slashes. */
  predicate IsExtension(e: string)
  {
    |e| > 0 && e[0] == '.' && forall k :: 1 <= k < |e| ==> e[k] != '.' && e[k] != '/'
  }

  /** The last path component of `root` holds a character other than a dot. */
  predicate HasNamedBase(root: string)
  {
    exists k :: 0 <= k < |root| && root[k] != '.' && NoSlashFrom(root, k)
  }

  predicate NoSlashFrom(s: string, k: int)
  {
    forall m :: 0 <= m < |s| && k <= m ==> s[m] != '/'
  }

  /** A non-dot character between the last slash and a later dot names the base before that dot. */
  lemma NamedBaseBeforeDot(p: string, sep: int, dot: int)
    requires -1 <= sep < dot < |p|
    requires forall k :: sep < k < |p| ==> p[k] != '/'
    requires !AllDots(p[sep + 1..dot])
    ensures HasNamedBase(p[..dot])
  {
    var k :| 0 <= k < dot - sep - 1 && p[sep + 1..dot][k] != '.';
    assert p[..dot][sep + 1 + k] != '.' && NoSlashFrom(p[..dot], sep + 1 + k);
  }

  /** What follows the last dot, when no slash follows it, is an extension. */
  lemma ExtensionAfterLastDot(p: string, dot: int)
    requires 0 <= dot < |p| && p[dot] == '.'
    requires forall k :: dot < k < |p| ==> p[k] != '.' && p[k] != '/'
    ensures IsExtension(p[dot..])
  {
    var e := p[dot..];
    forall k | 1 <= k < |e| ensures e[k] != '.' && e[k] != '/' {
      assert e[k] == p[dot + k];
    }
  }

  /** Splitting at the last dot, when it is past the last slash and a non-dot precedes it. */
  lemma SplitAtLastDot(p: string)
    requires LastIndexOf(p, '.') > LastIndexOf(p, '/')
    requires !AllDots(p[LastIndexOf(p, '/') + 1..LastIndexOf(p, '.')])
    ensures var dot := LastIndexOf(p, '.');
            p[..dot] + p[dot..] == p && IsExtension(p[dot..]) && HasNamedBase(p[..dot])
  {
    var sep := LastIndexOf(p, '/');
    var dot := LastIndexOf(p, '.');
    NamedBaseBeforeDot(p, sep, dot);
    ExtensionAfterLastDot(p, dot);
    assert p[..dot] + p[dot..] == p;
  }

  /**
   * Python's `posixpath.splitext(p)`: split at the last dot of the last path component,
   * unless everything before that dot in the component is dots (".bashrc" has no
   * extension). The extension keeps its dot; root + ext is always the input.
   */
  function Splitext(p: string): (r: (string, string))
    ensures r.0 + r.1 == p
    ensures r.1 == [] || (IsExtension(r.1) && HasNamedBase(r.0))
  {
    var sep := LastIndexOf(p, '/');
    var dot := LastIndexOf(p, '.');
    if dot > sep && !AllDots(p[sep + 1..dot]) then
      SplitAtLastDot(p);
      (p[..dot], p[dot..])
    else
      (p, [])
  }

  /** In a name ending with an extension, the last dot is the extension's. */
  lemma LastDotOfJoin(stem: string, ext: string)
    requires IsExtension(ext)
    ensures LastIndexOf(stem + ext, '.') == |stem|
  {
    var p := stem + ext;
    assert p[|stem|] == '.';
    forall m | |stem| < m < |p| ensures p[m] != '.' {
      assert p[m] == ext[m - |stem|];
    }
  }

  /** In a name ending with an extension, the last slash precedes any slash-free tail of the stem. */
  lemma LastSlashOfJoin(stem: string, ext: string, k: int)
    requires IsExtension(ext) && 0 <= k < |stem| && NoSlashFrom(stem, k)
    ensures LastIndexOf(stem + ext, '/') < k
  {
    var p := stem + ext;
    forall m | k <= m < |p| ensures p[m] != '/' {
      if m >= |stem| {
        assert p[m] == ext[m - |stem|];
      }
    }
  }

  /**
   * The converse of Splitext's contract: a name made of a named base and an
   * extension splits exactly there. With the contract this determines Splitext.
   */
  lemma SplitextOfStemAndExtension(stem: string, ext: string)
    requires HasNamedBase(stem) && IsExtension(ext)
    ensures Splitext(stem + ext) == (stem, ext)
  {
    var p := stem + ext;
    var k :| 0 <= k < |stem| && stem[k] != '.' && NoSlashFrom(stem, k);
    LastDotOfJoin(stem, ext);
    LastSlashOfJoin(stem, ext, k);
    var sep := LastIndexOf(p, '/');
    assert p[sep + 1..|stem|][k - sep - 1] == stem[k];
    assert p[..|stem|] == stem && p[|stem|..] == ext;
  }
}
