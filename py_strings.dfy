/**
 * The few Python `str` methods the review bot relies on, with CPython's
 * semantics: `startswith`, `endswith` (also with a tuple of suffixes), and
 * `strip` with and without an argument. `s.strip(chars)` treats `chars` as a
 * SET of characters and removes the longest leading and trailing runs drawn
 * from it; it is not prefix or suffix removal.
 */
module PyStrings {

  /** The characters for which Python's `str.isspace()` holds; `str.strip()`
      with no argument removes leading and trailing runs of these. */
  const Whitespace: set<char> := {
    '\t', '\n', '\U{b}', '\U{c}', '\r', '\U{1c}', '\U{1d}', '\U{1e}', '\U{1f}', ' ',
    '\U{85}', '\U{a0}', '\U{1680}',
    '\U{2000}', '\U{2001}', '\U{2002}', '\U{2003}', '\U{2004}', '\U{2005}',
    '\U{2006}', '\U{2007}', '\U{2008}', '\U{2009}', '\U{200a}',
    '\U{2028}', '\U{2029}', '\U{202f}', '\U{205f}', '\U{3000}'
  }

  /** `s.startswith(prefix)` */
  predicate StartsWith(s: string, prefix: string) {
    |prefix| <= |s| && s[..|prefix|] == prefix
  }

  /** `s.endswith(suffix)` */
  predicate EndsWith(s: string, suffix: string) {
    |suffix| <= |s| && s[|s| - |suffix|..] == suffix
  }

  /** `s.endswith(suffixes)` for a tuple of suffixes: any of them. */
  predicate EndsWithAny(s: string, suffixes: seq<string>)
    decreases |suffixes|
  {
    suffixes != [] && (EndsWith(s, suffixes[0]) || EndsWithAny(s, suffixes[1..]))
  }

  /** `EndsWithAny` holds exactly when one of the suffixes ends `s`; an
      empty tuple matches nothing. */
  lemma {:induction false} EndsWithAnyExists(s: string, suffixes: seq<string>)
    ensures EndsWithAny(s, suffixes) <==> exists k | 0 <= k < |suffixes| :: EndsWith(s, suffixes[k])
    decreases |suffixes|
  {
    if suffixes != [] {
      EndsWithAnyExists(s, suffixes[1..]);
      if EndsWith(s, suffixes[0]) {
        assert EndsWith(s, suffixes[0]);
      } else if exists k | 0 <= k < |suffixes| :: EndsWith(s, suffixes[k]) {
        var k :| 0 <= k < |suffixes| && EndsWith(s, suffixes[k]);
        assert suffixes[1..][k - 1] == suffixes[k];
      }
    }
  }

  /** The left scan of `strip`: from `i`, the first index whose character is
      not in `cs`, or `|s|`. */
  function SkipLeft(s: string, cs: set<char>, i: nat): (e: nat)
    requires i <= |s|
    ensures i <= e <= |s|
    ensures forall k | i <= k < e :: s[k] in cs
    ensures e < |s| ==> s[e] !in cs
    decreases |s| - i
  {
    if i < |s| && s[i] in cs then SkipLeft(s, cs, i + 1) else i
  }

  /** The right scan of `strip`: from `j` down to `lo`, the end of the last
      character not in `cs`, or `lo`. */
  function SkipRight(s: string, cs: set<char>, lo: nat, j: nat): (e: nat)
    requires lo <= j <= |s|
    ensures lo <= e <= j
    ensures forall k | e <= k < j :: s[k] in cs
    ensures lo < e ==> s[e - 1] !in cs
    decreases j
  {
    if lo < j && s[j - 1] in cs then SkipRight(s, cs, lo, j - 1) else j
  }

  /** `s.strip(chars)`: never longer than `s`, and a non-empty result
      neither starts nor ends with a character of `cs`. */
  function Strip(s: string, cs: set<char>): (r: string)
    ensures |r| <= |s|
    ensures r != [] ==> r[0] !in cs && r[|r| - 1] !in cs
  {
    var i := SkipLeft(s, cs, 0);
    s[i..SkipRight(s, cs, i, |s|)]
  }

  /** `s.strip()` */
  function StripWs(s: string): string {
    Strip(s, Whitespace)
  }

  /** Reference definition of `s.strip(chars) == s[i..j]`: everything before
      `i` and from `j` on is drawn from `cs`, and the kept slice, when it is
      not empty, neither starts nor ends with a character of `cs`. */
  ghost predicate IsStripAt(s: string, cs: set<char>, i: int, j: int) {
    && 0 <= i <= j <= |s|
    && (forall k | 0 <= k < i :: s[k] in cs)
    && (forall k | j <= k < |s| :: s[k] in cs)
    && (i < j ==> s[i] !in cs && s[j - 1] !in cs)
  }

  /** `Strip` meets the reference definition. */
  lemma StripFound(s: string, cs: set<char>) returns (i: nat, j: nat)
    ensures IsStripAt(s, cs, i, j) && Strip(s, cs) == s[i..j]
  {
    i := SkipLeft(s, cs, 0);
    j := SkipRight(s, cs, i, |s|);
  }

  /** The reference definition determines the result: any slice meeting it is
      what `Strip` returns. */
  lemma StripUnique(s: string, cs: set<char>, i: int, j: int)
    requires IsStripAt(s, cs, i, j)
    ensures Strip(s, cs) == s[i..j]
  {
    var i', j' := StripFound(s, cs);
    if i < j {
      assert s[i] !in cs && s[j - 1] !in cs;
      assert i' < j';
      assert i' == i && j' == j;
    } else {
      assert i' == j';
    }
  }

  /** Stripping a slice of `s` keeps a slice of `s`, bounded by runs of the
      stripped characters. */
  lemma StripOfSlice(s: string, p: nat, q: nat, cs: set<char>) returns (i: nat, j: nat)
    requires p <= q <= |s|
    ensures p <= i <= j <= q && Strip(s[p..q], cs) == s[i..j]
    ensures forall k | p <= k < i :: s[k] in cs
    ensures forall k | j <= k < q :: s[k] in cs
    ensures i < j ==> s[i] !in cs && s[j - 1] !in cs
  {
    var i', j' := StripFound(s[p..q], cs);
    i, j := p + i', p + j';
    SliceOfSlice(s, p, q, i', j');
    RunOfSlice(s, p, q, 0, i', cs);
    RunOfSlice(s, p, q, j', q - p, cs);
    if i' < j' {
      assert s[i] == s[p..q][i'] && s[j - 1] == s[p..q][j' - 1];
    }
  }

  /** Edge runs drawn from the stripped set do not change the result:
      stripping `s` is stripping its middle `s[p..q]`. */
  lemma StripMiddle(s: string, cs: set<char>, p: nat, q: nat)
    requires p <= q <= |s|
    requires forall k | 0 <= k < p :: s[k] in cs
    requires forall k | q <= k < |s| :: s[k] in cs
    ensures Strip(s, cs) == Strip(s[p..q], cs)
  {
    var i, j := StripOfSlice(s, p, q, cs);
    StripUnique(s, cs, i, j);
  }

  /** A string made only of stripped characters strips to nothing. */
  lemma StripAllIn(s: string, cs: set<char>)
    requires forall k | 0 <= k < |s| :: s[k] in cs
    ensures Strip(s, cs) == []
  {
    StripUnique(s, cs, |s|, |s|);
  }

  /** Stripping again with a subset of the characters changes nothing. */
  lemma StripAgain(s: string, cs: set<char>, ds: set<char>)
    requires ds <= cs
    ensures Strip(Strip(s, cs), ds) == Strip(s, cs)
  {
    var i, j := StripFound(s, cs);
    var t := s[i..j];
    StripUnique(t, ds, 0, |t|);
  }

  /** A slice of a slice is a slice of the whole. */
  lemma SliceOfSlice<T>(s: seq<T>, p: nat, q: nat, i: nat, j: nat)
    requires p <= q <= |s| && i <= j <= q - p
    ensures s[p..q][i..j] == s[p + i..p + j]
  {
    forall k | 0 <= k < j - i ensures s[p..q][i..j][k] == s[p + i..p + j][k] {
      assert s[p..q][i + k] == s[p + i + k];
    }
  }

  /** A run inside a slice is a run inside the whole. */
  lemma RunOfSlice(s: string, p: nat, q: nat, lo: nat, hi: nat, cs: set<char>)
    requires p <= q <= |s| && lo <= hi <= q - p
    requires forall k | lo <= k < hi :: s[p..q][k] in cs
    ensures forall k | p + lo <= k < p + hi :: s[k] in cs
  {
    forall k | p + lo <= k < p + hi ensures s[k] in cs {
      assert s[k] == s[p..q][k - p];
    }
  }
}
