/** The parts of Python's `str` that the modelled code relies on, with the
    semantics CPython gives them: `isspace`/`strip`, `find` (-1 when absent),
    slicing with negative and out-of-range bounds, `split(sep)`, `split()`,
    `sep.join`, `replace(p, "")`, `f"{n}"` for a natural number and `int(s)`. */
module PyStr {
  import opened Python

  // ---------------------------------------------------------------------------
  // Whitespace and strip()

  /** `c.isspace()`: the characters CPython classes as whitespace. */
  predicate IsSpace(c: char) {
    ('\t' <= c <= '\r') || ('\U{1c}' <= c <= '\U{1f}') || c == ' '
    || c == '\U{85}' || c == '\U{a0}' || c == '\U{1680}'
    || ('\U{2000}' <= c <= '\U{200a}')
    || c == '\U{2028}' || c == '\U{2029}' || c == '\U{202f}' || c == '\U{205f}' || c == '\U{3000}'
  }

  predicate AllSpace(s: string) {
    forall k :: 0 <= k < |s| ==> IsSpace(s[k])
  }

  predicate NoSpace(s: string) {
    forall k :: 0 <= k < |s| ==> !IsSpace(s[k])
  }

  /** Neither end of s is whitespace: what `strip()` leaves. */
  predicate IsStripped(s: string) {
    s == [] || (!IsSpace(s[0]) && !IsSpace(s[|s| - 1]))
  }

  /** The number of whitespace characters that start s. */
  function LeadingSpaces(s: string): (n: nat)
    ensures n <= |s|
    ensures forall k :: 0 <= k < n ==> IsSpace(s[k])
    ensures n < |s| ==> !IsSpace(s[n])
  {
    if s != [] && IsSpace(s[0]) then
      LeadingSpaces(s[1..]) + 1
    else 0
  }

  /** The number of whitespace characters that end s. */
  function TrailingSpaces(s: string): (n: nat)
    ensures n <= |s|
    ensures forall k :: |s| - n <= k < |s| ==> IsSpace(s[k])
    ensures n < |s| ==> !IsSpace(s[|s| - n - 1])
  {
    if s != [] && IsSpace(s[|s| - 1]) then
      TrailingSpaces(s[..|s| - 1]) + 1
    else 0
  }

  /** `s.lstrip()`. */
  function LStrip(s: string): (r: string)
    ensures r != [] ==> !IsSpace(r[0])
  {
    s[LeadingSpaces(s)..]
  }

  /** `s.rstrip()`. */
  function RStrip(s: string): (r: string)
    ensures r != [] ==> !IsSpace(r[|r| - 1])
  {
    s[..|s| - TrailingSpaces(s)]
  }

  /** `s.strip()` with no argument. */
  function Strip(s: string): (r: string)
    ensures IsStripped(r)
    ensures |r| <= |s|
  {
    var t := LStrip(s);
    var r := RStrip(t);
    assert r != [] ==> r[0] == t[0];
    r
  }

  lemma {:induction false} LStripPadded(pre: string, t: string)
    requires AllSpace(pre)
    requires t == [] || !IsSpace(t[0])
    ensures LStrip(pre + t) == t
    decreases |pre|
  {
    if pre != [] {
      assert (pre + t)[1..] == pre[1..] + t;
      LStripPadded(pre[1..], t);
    }
  }

  lemma {:induction false} RStripPadded(t: string, suf: string)
    requires AllSpace(suf)
    requires t == [] || !IsSpace(t[|t| - 1])
    ensures RStrip(t + suf) == t
    decreases |suf|
  {
    if suf != [] {
      var n := |t + suf|;
      assert (t + suf)[..n - 1] == t + suf[..|suf| - 1];
      RStripPadded(t, suf[..|suf| - 1]);
    }
  }

  /** `strip()` removes exactly the whitespace margins: padding a stripped
      string with whitespace on both sides and stripping gives it back. */
  lemma StripPadded(pre: string, m: string, suf: string)
    requires AllSpace(pre) && AllSpace(suf) && IsStripped(m)
    ensures Strip(pre + m + suf) == m
  {
    if m == [] {
      assert pre + m + suf == (pre + suf) + [];
      assert AllSpace(pre + suf);
      LStripPadded(pre + suf, []);
    } else {
      assert pre + m + suf == pre + (m + suf);
      LStripPadded(pre, m + suf);
      RStripPadded(m, suf);
    }
  }

  /** `strip()` is idempotent. */
  lemma StripIdempotent(s: string)
    ensures Strip(Strip(s)) == Strip(s)
  {
    var m := Strip(s);
    assert [] + m + [] == m;
    StripPadded([], m, []);
  }

  /** A stripped text is its own strip. */
  lemma StrippedIsFixed(s: string)
    requires IsStripped(s)
    ensures Strip(s) == s
  {
    assert [] + s + [] == s;
    StripPadded([], s, []);
  }

  // ---------------------------------------------------------------------------
  // Substring search: `p in s` and `s.find(p)`

  predicate OccursAt(s: string, p: string, i: int) {
    0 <= i && i + |p| <= |s| && s[i..i + |p|] == p
  }

  /** Python's `p in s`. */
  predicate Contains(s: string, p: string) {
    exists i :: 0 <= i <= |s| && OccursAt(s, p, i)
  }

  function FindFrom(s: string, p: string, i: nat): (r: int)
    requires i <= |s|
    ensures r == -1 || (i <= r && OccursAt(s, p, r))
    ensures forall k :: i <= k && (r == -1 || k < r) ==> !OccursAt(s, p, k)
    decreases |s| - i
  {
    if i + |p| > |s| then -1
    else if s[i..i + |p|] == p then i
    else FindFrom(s, p, i + 1)
  }

  /** `s.find(p)`: the lowest index at which p occurs in s, or -1. */
  function Find(s: string, p: string): (r: int)
    ensures r == -1 <==> !Contains(s, p)
    ensures r != -1 ==> OccursAt(s, p, r) && forall k :: 0 <= k < r ==> !OccursAt(s, p, k)
  {
    FindFrom(s, p, 0)
  }

  /** If p occurs at i and its first character does not appear before i,
      then i is the first occurrence. */
  lemma FindFirstChar(s: string, p: string, i: int)
    requires p != [] && OccursAt(s, p, i)
    requires forall k :: 0 <= k < i ==> s[k] != p[0]
    ensures Find(s, p) == i
  {
    forall k | 0 <= k < i
      ensures !OccursAt(s, p, k)
    {
      if k + |p| <= |s| {
        assert s[k..k + |p|][0] == s[k];
      }
    }
  }

  /** A pattern with a character that s lacks is not found. */
  lemma FindMissingChar(s: string, p: string, j: int)
    requires 0 <= j < |p|
    requires forall k :: 0 <= k < |s| ==> s[k] != p[j]
    ensures Find(s, p) == -1
  {
    forall k | 0 <= k <= |s|
      ensures !OccursAt(s, p, k)
    {
      if k + |p| <= |s| {
        assert s[k..k + |p|][j] == s[k + j];
      }
    }
  }

  /** p placed right after a prefix that lacks p's first character is
      found exactly there. */
  lemma FindAfterPrefix(a: string, p: string, b: string)
    requires p != []
    requires forall k :: 0 <= k < |a| ==> a[k] != p[0]
    ensures Find(a + p + b, p) == |a|
  {
    var s := a + p + b;
    assert s[|a|..|a| + |p|] == p;
    FindFirstChar(s, p, |a|);
  }

  lemma CharOfOccurrence(s: string, p: string, i: int, d: int)
    requires OccursAt(s, p, i) && 0 <= d < |p|
    ensures s[i + d] == p[d]
  {
    assert s[i..i + |p|][d] == s[i + d];
  }

  /** One mismatching character rules out an occurrence. */
  lemma MismatchAt(s: string, p: string, k: int, d: int)
    requires 0 <= k && 0 <= d < |p| && k + d < |s| && s[k + d] != p[d]
    ensures !OccursAt(s, p, k)
  {
    if OccursAt(s, p, k) {
      CharOfOccurrence(s, p, k, d);
    }
  }

  lemma OccursInPrefix(s: string, p: string, n: int, k: int)
    requires 0 <= n <= |s| && OccursAt(s[..n], p, k)
    ensures OccursAt(s, p, k)
  {
    assert s[..n][k..k + |p|] == s[k..k + |p|];
  }

  // ---------------------------------------------------------------------------
  // Slicing

  /** How Python normalises one bound of `s[start:stop]` for a length n:
      a negative bound counts from the end, and the result is clamped to [0, n]. */
  function ClampIndex(i: int, n: nat): (r: nat)
    ensures r <= n
    ensures 0 <= i <= n ==> r == i
    ensures i < 0 && 0 <= i + n ==> r == i + n
  {
    if i < 0 then (if i + n < 0 then 0 else i + n)
    else if i > n then n
    else i
  }

  /** `s[start:stop]` on a str or a list, where `stop == None` stands for an
      omitted (or `None`) end. */
  function Slice<T>(s: seq<T>, start: int, stop: Option<int>): (r: seq<T>)
    ensures |r| <= |s|
    ensures 0 <= start && stop.Some? && start <= stop.value <= |s| ==> r == s[start..stop.value]
    ensures 0 <= start <= |s| && stop.None? ==> r == s[start..]
    ensures 0 <= start < |s| && stop == Some(-1) ==> r == s[start..|s| - 1]
  {
    var a := ClampIndex(start, |s|);
    var b := if stop.Some? then ClampIndex(stop.value, |s|) else |s|;
    if a < b then s[a..b] else []
  }

  // ---------------------------------------------------------------------------
  // Decimal formatting: f"{n}" for n >= 0

  predicate IsDigit(c: char) {
    '0' <= c <= '9'
  }

  function DigitChar(d: nat): (c: char)
    requires d < 10
    ensures IsDigit(c) && c as int - '0' as int == d
  {
    ('0' as int + d) as char
  }

  /** `str(n)` for a natural number n. */
  function Decimal(n: nat): (r: string)
    ensures |r| > 0 && forall k :: 0 <= k < |r| ==> IsDigit(r[k])
    ensures r[0] != '0' || n == 0
    ensures |r| == 1 <==> n < 10
  {
    if n < 10 then [DigitChar(n)] else Decimal(n / 10) + [DigitChar(n % 10)]
  }

  // ---------------------------------------------------------------------------
  // join and split

  /** `sep.join(pieces)`. */
  function JoinWith(pieces: seq<string>, sep: string): string {
    if |pieces| == 0 then []
    else if |pieces| == 1 then pieces[0]
    else pieces[0] + sep + JoinWith(pieces[1..], sep)
  }

  /** Joining two non-empty lists is joining each and putting one
      separator between them. */
  lemma {:induction false} JoinWithAppend(x: seq<string>, y: seq<string>, sep: string)
    requires x != [] && y != []
    ensures JoinWith(x + y, sep) == JoinWith(x, sep) + sep + JoinWith(y, sep)
    decreases |x|
  {
    if |x| == 1 {
      assert (x + y)[1..] == y;
    } else {
      JoinWithAppend(x[1..], y, sep);
      assert (x + y)[1..] == x[1..] + y;
    }
  }

  /** `"".join(pieces)`. */
  function Concat(pieces: seq<string>): string {
    if pieces == [] then [] else pieces[0] + Concat(pieces[1..])
  }

  /** `s.split(sep)` for a non-empty separator: cut at every occurrence of
      sep, found left to right without overlap. No piece contains sep. */
  function SplitOn(s: string, sep: string): (r: seq<string>)
    requires sep != []
    ensures |r| >= 1
    ensures forall k :: 0 <= k < |r| ==> !Contains(r[k], sep)
    decreases |s|
  {
    var i := Find(s, sep);
    if i < 0 then [s]
    else
      var rest := SplitOn(s[i + |sep|..], sep);
      assert !Contains(s[..i], sep) by {
        forall k | OccursAt(s[..i], sep, k) ensures false {
          OccursInPrefix(s, sep, i, k);
        }
      }
      [s[..i]] + rest
  }

  /** Joining the pieces of a split with the separator gives the string back. */
  lemma {:induction false} SplitOnJoin(s: string, sep: string)
    requires sep != []
    ensures JoinWith(SplitOn(s, sep), sep) == s
    decreases |s|
  {
    var i := Find(s, sep);
    if i >= 0 {
      var rest := SplitOn(s[i + |sep|..], sep);
      SplitOnJoin(s[i + |sep|..], sep);
      assert s == s[..i] + sep + s[i + |sep|..];
      assert ([s[..i]] + rest)[1..] == rest;
    }
  }

  /** Splitting cuts at the first occurrence of the separator and goes on
      with the rest. */
  lemma SplitOnStep(s: string, sep: string)
    requires sep != [] && Find(s, sep) >= 0
    ensures var i := Find(s, sep);
      SplitOn(s, sep) == [s[..i]] + SplitOn(s[i + |sep|..], sep)
  {
  }

  /** `s.split(sep)[-1]`: the text after the last occurrence of sep. */
  function SplitLast(s: string, sep: string): (r: string)
    requires sep != []
    ensures !Contains(r, sep)
  {
    var pieces := SplitOn(s, sep);
    pieces[|pieces| - 1]
  }

  /** The last piece of s is the last piece of what follows the first sep. */
  lemma SplitLastStep(s: string, sep: string)
    requires sep != [] && Find(s, sep) >= 0
    ensures SplitLast(s, sep) == SplitLast(s[Find(s, sep) + |sep|..], sep)
  {
    var i := Find(s, sep);
    var rest := SplitOn(s[i + |sep|..], sep);
    SplitOnStep(s, sep);
    assert ([s[..i]] + rest)[|rest|] == rest[|rest| - 1];
  }

  /** A string without the separator splits into itself alone. */
  lemma SplitOnAbsent(s: string, sep: string)
    requires sep != [] && !Contains(s, sep)
    ensures SplitOn(s, sep) == [s]
  {
  }

  /** `s.replace(p, "")`: delete every occurrence of p, found left to right
      without overlap. For p == "" Python inserts "" between characters,
      which leaves s unchanged. */
  function RemoveAll(s: string, p: string): (r: string)
    ensures |r| <= |s|
    ensures !Contains(s, p) ==> r == s
    ensures p != [] && Contains(s, p) ==> |r| <= |s| - |p|
    decreases |s|
  {
    if p == [] then s
    else
      var i := Find(s, p);
      if i < 0 then s else s[..i] + RemoveAll(s[i + |p|..], p)
  }

  /** A text with exactly one occurrence of p loses just that occurrence. */
  lemma RemoveSingle(a: string, p: string, b: string)
    requires p != []
    requires forall k :: 0 <= k < |a| ==> !OccursAt(a + p + b, p, k)
    requires !Contains(b, p)
    ensures RemoveAll(a + p + b, p) == a + b
  {
    var s := a + p + b;
    assert s[|a|..|a| + |p|] == p;
    assert OccursAt(s, p, |a|);
    assert s[..|a|] == a && s[|a| + |p|..] == b;
  }

  /** `s.replace(p, "") == "".join(s.split(p))`: removal cuts at the same
      occurrences that split does. */
  lemma {:induction false} RemoveAllIsSplitJoin(s: string, p: string)
    requires p != []
    ensures RemoveAll(s, p) == Concat(SplitOn(s, p))
    decreases |s|
  {
    var i := Find(s, p);
    if i >= 0 {
      RemoveAllIsSplitJoin(s[i + |p|..], p);
      var rest := SplitOn(s[i + |p|..], p);
      assert SplitOn(s, p) == [s[..i]] + rest;
      assert ([s[..i]] + rest)[1..] == rest;
    }
  }

  /** What `s.replace(p, "")` leaves: the text between the occurrences of p. */
  lemma RemoveAllPieces(s: string, p: string)
    requires p != []
    ensures exists pieces: seq<string> ::
      JoinWith(pieces, p) == s && Concat(pieces) == RemoveAll(s, p)
      && forall k :: 0 <= k < |pieces| ==> !Contains(pieces[k], p)
  {
    RemoveAllIsSplitJoin(s, p);
    SplitOnJoin(s, p);
    var pieces := SplitOn(s, p);
    assert JoinWith(pieces, p) == s && Concat(pieces) == RemoveAll(s, p);
  }

  // ---------------------------------------------------------------------------
  // split() with no argument

  /** The non-whitespace characters of s, in order. */
  function NonSpace(s: string): string {
    if s == [] then [] else (if IsSpace(s[0]) then [] else [s[0]]) + NonSpace(s[1..])
  }

  lemma {:induction false} NonSpaceAppend(a: string, b: string)
    ensures NonSpace(a + b) == NonSpace(a) + NonSpace(b)
    decreases |a|
  {
    if a != [] {
      assert (a + b)[0] == a[0];
      assert (a + b)[1..] == a[1..] + b;
      NonSpaceAppend(a[1..], b);
      var h := if IsSpace(a[0]) then [] else [a[0]];
      assert NonSpace(a + b) == h + (NonSpace(a[1..]) + NonSpace(b));
      assert NonSpace(a) == h + NonSpace(a[1..]);
    } else {
      assert a + b == b;
    }
  }

  lemma {:induction false} NonSpaceOfSpace(a: string)
    requires AllSpace(a)
    ensures NonSpace(a) == []
    decreases |a|
  {
    if a != [] {
      NonSpaceOfSpace(a[1..]);
    }
  }

  lemma {:induction false} NonSpaceOfWord(a: string)
    requires NoSpace(a)
    ensures NonSpace(a) == a
    decreases |a|
  {
    if a != [] {
      NonSpaceOfWord(a[1..]);
    }
  }

  /** The length of the run of non-whitespace characters that starts t. */
  function WordLength(t: string): (n: nat)
    ensures n <= |t| && NoSpace(t[..n])
    ensures n < |t| ==> IsSpace(t[n])
    ensures t != [] && !IsSpace(t[0]) ==> n > 0
  {
    if t == [] || IsSpace(t[0]) then 0
    else
      var n := 1 + WordLength(t[1..]);
      assert t[..n] == [t[0]] + t[1..][..n - 1];
      n
  }

  /** Dropping the leading whitespace and then the first word keeps the
      non-whitespace characters of s, in order. */
  lemma NonSpaceOfFirstWord(s: string)
    ensures LStrip(s) == [] ==> NonSpace(s) == []
    ensures var t := LStrip(s); var w := WordLength(t);
      NonSpace(s) == t[..w] + NonSpace(t[w..])
  {
    var t := LStrip(s);
    var w := WordLength(t);
    assert s == s[..|s| - |t|] + t;
    NonSpaceAppend(s[..|s| - |t|], t);
    NonSpaceOfSpace(s[..|s| - |t|]);
    assert t == t[..w] + t[w..];
    NonSpaceAppend(t[..w], t[w..]);
    NonSpaceOfWord(t[..w]);
  }

  /** `s.split()`: the maximal runs of non-whitespace characters. Every word
      is non-empty and free of whitespace, and together they hold exactly
      the non-whitespace characters of s, in order. */
  function SplitWords(s: string): (r: seq<string>)
    ensures forall k :: 0 <= k < |r| ==> r[k] != [] && NoSpace(r[k])
    ensures Concat(r) == NonSpace(s)
    decreases |s|
  {
    var t := LStrip(s);
    NonSpaceOfFirstWord(s);
    if t == [] then []
    else
      var w := WordLength(t);
      var rest := SplitWords(t[w..]);
      WordsCons(t[..w], rest);
      [t[..w]] + rest
  }

  /** Putting a non-empty word in front keeps every word non-empty and free
      of whitespace, and puts its characters in front of the concatenation. */
  lemma WordsCons(word: string, rest: seq<string>)
    requires word != [] && NoSpace(word)
    requires forall k :: 0 <= k < |rest| ==> rest[k] != [] && NoSpace(rest[k])
    ensures forall k :: 0 <= k < |[word] + rest| ==> ([word] + rest)[k] != [] && NoSpace(([word] + rest)[k])
    ensures Concat([word] + rest) == word + Concat(rest)
  {
    assert ([word] + rest)[1..] == rest;
  }

  /** The whitespace runs around and between the words of `s.split()`:
      the leading run, then the run after each word. */
  function WordGaps(s: string): (g: seq<string>)
    ensures |g| >= 1
    decreases |s|
  {
    var t := LStrip(s);
    if t == [] then [s]
    else
      var w := WordLength(t);
      [s[..LeadingSpaces(s)]] + WordGaps(t[w..])
  }

  /** gaps[0] + words[0] + gaps[1] + ... + words[n-1] + gaps[n]. */
  function Interleave(gaps: seq<string>, words: seq<string>): string
    requires |gaps| == |words| + 1
    decreases |words|
  {
    if words == [] then gaps[0] else gaps[0] + words[0] + Interleave(gaps[1..], words[1..])
  }

  /** The layout of the words and runs of s: as many runs as words plus
      one, every run whitespace, every run between two words non-empty, and
      together they spell s. */
  predicate Layout(s: string, gaps: seq<string>, words: seq<string>) {
    && |gaps| == |words| + 1
    && (forall k :: 0 <= k < |gaps| ==> AllSpace(gaps[k]))
    && (forall k :: 0 < k < |words| ==> gaps[k] != [])
    && Interleave(gaps, words) == s
  }

  /** A whitespace run and a word put in front of a layout whose first run
      is non-empty (when a word follows it) give a layout again. */
  lemma LayoutCons(pre: string, word: string, u: string, gaps: seq<string>, words: seq<string>)
    requires AllSpace(pre) && Layout(u, gaps, words)
    requires words != [] ==> gaps[0] != []
    ensures Layout(pre + word + u, [pre] + gaps, [word] + words)
  {
    var g := [pre] + gaps;
    var w := [word] + words;
    assert g[1..] == gaps && w[1..] == words;
    forall k | 0 <= k < |g|
      ensures AllSpace(g[k])
    {
      if k > 0 {
        assert g[k] == gaps[k - 1];
      }
    }
    forall k | 0 < k < |w|
      ensures g[k] != []
    {
      assert g[k] == gaps[k - 1];
    }
  }

  /** One step of `split()`: the first word, then the words of the rest. */
  lemma SplitWordsStep(s: string, t: string, w: nat, u: string)
    requires t == LStrip(s) && t != [] && w == WordLength(t) && u == t[w..]
    ensures SplitWords(s) == [t[..w]] + SplitWords(u)
  {
  }

  /** One step of the runs: the leading run, then the runs of the rest. */
  lemma WordGapsStep(s: string, t: string, w: nat, u: string)
    requires t == LStrip(s) && t != [] && w == WordLength(t) && u == t[w..]
    ensures WordGaps(s) == [s[..LeadingSpaces(s)]] + WordGaps(u)
  {
  }

  /** s is its leading run, its first word and the rest. */
  lemma FirstWordSplit(s: string, t: string, w: nat, u: string)
    requires t == LStrip(s) && w <= |t| && u == t[w..]
    ensures AllSpace(s[..LeadingSpaces(s)])
    ensures s == s[..LeadingSpaces(s)] + t[..w] + u
  {
    var n := LeadingSpaces(s);
    assert s[..n] + s[n..] == s;
    assert t[..w] + t[w..] == t;
    assert s[..n] + t[..w] + u == s[..n] + (t[..w] + u);
  }

  /** After a word, a rest holding another word starts with whitespace. */
  lemma NextGapNonEmpty(t: string, w: nat, u: string)
    requires w == WordLength(t) && u == t[w..]
    ensures SplitWords(u) != [] ==> WordGaps(u)[0] != []
  {
    if SplitWords(u) != [] {
      assert LStrip(u) != [];
      assert u != [] && IsSpace(u[0]);
      assert LeadingSpaces(u) > 0;
    }
  }

  /** `s.split()` cuts s exactly at its whitespace runs: s is a whitespace
      run, the first word, a non-empty whitespace run, the second word, and
      so on, ending with a whitespace run. Since words hold no whitespace,
      this fixes every word boundary. */
  lemma {:induction false} SplitWordsLayout(s: string)
    ensures Layout(s, WordGaps(s), SplitWords(s))
    decreases |s|
  {
    var t := LStrip(s);
    if t == [] {
      assert s == s[..LeadingSpaces(s)];
      assert AllSpace(s);
    } else {
      var w := WordLength(t);
      var u := t[w..];
      SplitWordsLayout(u);
      SplitWordsStep(s, t, w, u);
      WordGapsStep(s, t, w, u);
      FirstWordSplit(s, t, w, u);
      NextGapNonEmpty(t, w, u);
      LayoutCons(s[..LeadingSpaces(s)], t[..w], u, WordGaps(u), SplitWords(u));
    }
  }

  // ---------------------------------------------------------------------------
  // int(s) for a str s

  /** The body of a base-10 integer literal as `int()` accepts it: ASCII
      digits, where an underscore may stand only between two digits. */
  predicate IsDigitGroups(s: string) {
    |s| > 0 && IsDigit(s[0]) && IsDigitTail(s[1..])
  }

  /** s matches ('_'? digit)*. */
  predicate IsDigitTail(s: string)
    decreases |s|
  {
    || s == []
    || (IsDigit(s[0]) && IsDigitTail(s[1..]))
    || (|s| >= 2 && s[0] == '_' && IsDigit(s[1]) && IsDigitTail(s[2..]))
  }

  lemma {:induction false} DigitsAreDigitTail(s: string)
    requires forall k :: 0 <= k < |s| ==> IsDigit(s[k])
    ensures IsDigitTail(s)
    decreases |s|
  {
    if s != [] {
      DigitsAreDigitTail(s[1..]);
    }
  }

  /** The number the digits of s spell, underscores skipped. */
  function DigitsValue(s: string): nat {
    if s == [] then 0
    else if IsDigit(s[|s| - 1]) then DigitsValue(s[..|s| - 1]) * 10 + (s[|s| - 1] as int - '0' as int)
    else DigitsValue(s[..|s| - 1])
  }

  /** `int(t)` for a t without surrounding whitespace: one optional sign,
      then digit groups; None stands for the ValueError raised otherwise. */
  function ParseStripped(t: string): Option<int> {
    if t != [] && (t[0] == '+' || t[0] == '-') then
      if IsDigitGroups(t[1..]) then
        var v: int := DigitsValue(t[1..]);
        Some(if t[0] == '-' then -v else v)
      else None
    else if IsDigitGroups(t) then Some(DigitsValue(t))
    else None
  }

  /** `int(s)`: surrounding whitespace is ignored. */
  function ParseInt(s: string): (r: Option<int>)
    ensures Strip(s) == [] ==> r == None
  {
    ParseStripped(Strip(s))
  }

  lemma {:induction false} DigitsValueOfDecimal(n: nat)
    ensures DigitsValue(Decimal(n)) == n
  {
    var d := Decimal(n);
    assert d[..|d| - 1] == (if n < 10 then [] else Decimal(n / 10));
    if n >= 10 {
      DigitsValueOfDecimal(n / 10);
    }
  }

  lemma DecimalIsStripped(n: nat)
    ensures Strip(Decimal(n)) == Decimal(n)
  {
    var d := Decimal(n);
    assert [] + d + [] == d;
    StripPadded([], d, []);
  }

  lemma DecimalIsDigitGroups(n: nat)
    ensures IsDigitGroups(Decimal(n))
  {
    DigitsAreDigitTail(Decimal(n)[1..]);
  }

  lemma ParseStrippedDigits(d: string)
    requires IsDigitGroups(d)
    ensures ParseStripped(d) == Some(DigitsValue(d))
    ensures ParseStripped("-" + d) == Some(-(DigitsValue(d) as int))
  {
    assert ("-" + d)[1..] == d;
  }

  /** `int(str(n)) == n`: parsing undoes formatting. */
  lemma ParseIntOfDecimal(n: nat)
    ensures ParseInt(Decimal(n)) == Some(n)
  {
    DecimalIsStripped(n);
    DecimalIsDigitGroups(n);
    ParseStrippedDigits(Decimal(n));
    DigitsValueOfDecimal(n);
  }
}
