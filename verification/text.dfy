/** The ordinal string operations the rule parser is built from: `Trim`,
    `Contains`, `IndexOf`, `StartsWith`, and `Split` with and without a
    piece count. Every search is ordinal (code point by code point), as
    `string.Contains(string)` and `string.Split(string)` are. */
module Text {
  import opened Wrappers

  /** `Char.IsWhiteSpace`: the code points the runtime treats as white space. */
  predicate IsWhiteSpace(c: char) {
    var n := c as int;
    (0x09 <= n <= 0x0D) || n == 0x20 || n == 0x85 || n == 0xA0 || n == 0x1680
    || (0x2000 <= n <= 0x200A) || n == 0x2028 || n == 0x2029 || n == 0x202F
    || n == 0x205F || n == 0x3000
  }

  /** Drops the leading characters that satisfy `white`. */
  function TrimStart(s: string, white: char -> bool): (r: string)
    ensures |r| <= |s| && r == s[|s| - |r|..]
    ensures forall i :: 0 <= i < |s| - |r| ==> white(s[i])
    ensures r == [] || !white(r[0])
    decreases |s|
  {
    if s != [] && white(s[0]) then TrimStart(s[1..], white) else s
  }

  /** Drops the trailing characters that satisfy `white`. */
  function TrimEnd(s: string, white: char -> bool): (r: string)
    ensures |r| <= |s| && r == s[..|r|]
    ensures forall i :: |r| <= i < |s| ==> white(s[i])
    ensures r == [] || !white(r[|r| - 1])
    decreases |s|
  {
    if s != [] && white(s[|s| - 1]) then TrimEnd(s[..|s| - 1], white) else s
  }

  /** Removes `white` characters at both ends: the result is the infix of `s`
      between its white margins, and starts and ends with a non-white character. */
  function TrimWith(s: string, white: char -> bool): (r: string)
    ensures |r| <= |s|
    ensures r == [] || (!white(r[0]) && !white(r[|r| - 1]))
    ensures exists k :: WhiteMargins(s, r, k, white)
  {
    var t := TrimStart(s, white);
    var r := TrimEnd(t, white);
    var k := |s| - |t|;
    assert r == s[k..k + |r|];
    assert WhiteMargins(s, r, k, white);
    r
  }

  /** `r` is the infix of `s` at offset `k`, and everything of `s` outside it is white. */
  ghost predicate WhiteMargins(s: string, r: string, k: int, white: char -> bool) {
    && 0 <= k <= |s| - |r|
    && r == s[k..k + |r|]
    && (forall i :: 0 <= i < k ==> white(s[i]))
    && (forall i :: k + |r| <= i < |s| ==> white(s[i]))
  }

  /** `string.Trim()`. */
  function Trim(s: string): (r: string)
    ensures |r| <= |s|
    ensures r == [] || (!IsWhiteSpace(r[0]) && !IsWhiteSpace(r[|r| - 1]))
    ensures exists k :: WhiteMargins(s, r, k, IsWhiteSpace)
  {
    TrimWith(s, IsWhiteSpace)
  }

  /** `sep` occurs in `s` starting at index `i`. */
  predicate OccursAt(s: string, sep: string, i: int) {
    0 <= i && i + |sep| <= |s| && s[i..i + |sep|] == sep
  }

  /** The first index at or after `from` where `sep` occurs. */
  function FindFrom(s: string, sep: string, from: nat): (r: Option<nat>)
    requires from <= |s|
    ensures r.Some? ==> from <= r.value && OccursAt(s, sep, r.value)
    ensures r.Some? ==> forall j :: from <= j < r.value ==> !OccursAt(s, sep, j)
    ensures r.None? ==> forall j :: from <= j ==> !OccursAt(s, sep, j)
    decreases |s| - from
  {
    if from + |sep| > |s| then None
    else if s[from..from + |sep|] == sep then Some(from)
    else FindFrom(s, sep, from + 1)
  }

  /** `string.IndexOf(sep, StringComparison.Ordinal)`, as an option. */
  function IndexOf(s: string, sep: string): Option<nat> {
    FindFrom(s, sep, 0)
  }

  /** `string.Contains(string)`. */
  predicate Contains(s: string, sep: string) {
    IndexOf(s, sep).Some?
  }

  /** `string.StartsWith(string)`, compared ordinally. */
  predicate StartsWith(s: string, prefix: string) {
    prefix <= s
  }

  /** `string.EndsWith(string)`, compared ordinally. */
  predicate EndsWith(s: string, suffix: string) {
    |suffix| <= |s| && s[|s| - |suffix|..] == suffix
  }

  /** `s.Split(new[] { sep }, 2, StringSplitOptions.None)` for an `s` that
      contains `sep`: the text before and after its first occurrence. */
  function SplitOnce(s: string, sep: string): (r: (string, string))
    requires Contains(s, sep)
    ensures s == r.0 + sep + r.1
    ensures IndexOf(s, sep) == Some(|r.0|)
  {
    var i := IndexOf(s, sep).value;
    assert s == s[..i] + sep + s[i + |sep|..];
    (s[..i], s[i + |sep|..])
  }

  /** `s.Split(sep)`: the pieces between successive non-overlapping
      occurrences of `sep`, searched left to right. */
  function Split(s: string, sep: string): (parts: seq<string>)
    requires sep != []
    ensures |parts| >= 1
    decreases |s|
  {
    match IndexOf(s, sep)
    case None => [s]
    case Some(i) => [s[..i]] + Split(s[i + |sep|..], sep)
  }

  /** Inverse of `Split`: the pieces glued back together with `sep`. */
  function Join(parts: seq<string>, sep: string): string {
    if |parts| == 0 then []
    else if |parts| == 1 then parts[0]
    else parts[0] + sep + Join(parts[1..], sep)
  }

  /** `sep` cannot overlap a shifted copy of itself, so two occurrences in
      any text are at least `|sep|` apart. */
  predicate NoSelfOverlap(sep: string) {
    forall d :: 0 < d < |sep| ==> sep[d..] != sep[..|sep| - d]
  }

  /** `sep` occurs exactly once in `s`. */
  ghost predicate OccursOnce(s: string, sep: string) {
    exists i :: OccursAt(s, sep, i) && forall j :: OccursAt(s, sep, j) ==> j == i
  }

  // ---------------------------------------------------------------- lemmas

  /** An occurrence inside a suffix is an occurrence in the whole text. */
  lemma SuffixOccurs(s: string, sep: string, m: nat, k: int)
    requires m <= |s|
    ensures OccursAt(s[m..], sep, k) <==> (0 <= k && OccursAt(s, sep, m + k))
  {
    if 0 <= k && m + k + |sep| <= |s| {
      assert s[m..][k..k + |sep|] == s[m + k..m + k + |sep|];
    }
  }

  /** An occurrence inside a prefix is an occurrence in the whole text. */
  lemma PrefixOccurs(s: string, sep: string, m: nat, k: int)
    requires m <= |s|
    ensures OccursAt(s[..m], sep, k) <==> (OccursAt(s, sep, k) && k + |sep| <= m)
  {
    if 0 <= k && k + |sep| <= m {
      assert s[..m][k..k + |sep|] == s[k..k + |sep|];
    }
  }

  /** A text that lacks `sep` has no occurrence of it at any index. */
  lemma NotContainsNowhere(s: string, sep: string, j: int)
    requires !Contains(s, sep)
    ensures !OccursAt(s, sep, j)
  {
  }

  /** Any infix of a text that lacks `sep` lacks it too. */
  lemma {:induction false} InfixLacksSep(s: string, sep: string, a: nat, b: nat)
    requires a <= b <= |s|
    requires !Contains(s, sep)
    ensures !Contains(s[a..b], sep)
  {
    if Contains(s[a..b], sep) {
      var k := IndexOf(s[a..b], sep).value;
      assert s[a..b] == s[a..][..b - a];
      PrefixOccurs(s[a..], sep, b - a, k);
      SuffixOccurs(s, sep, a, k);
      NotContainsNowhere(s, sep, a + k);
      assert false;
    }
  }

  /** The text before the first occurrence of `sep` does not contain `sep`. */
  lemma PrefixBeforeFirstLacksSep(s: string, sep: string, i: nat)
    requires sep != []
    requires IndexOf(s, sep) == Some(i)
    ensures !Contains(s[..i], sep)
  {
    if Contains(s[..i], sep) {
      var k := IndexOf(s[..i], sep).value;
      PrefixOccurs(s, sep, i, k);
    }
  }

  /** `Join` undoes `Split`: no character of the text is lost or added. */
  lemma {:induction false} JoinSplit(s: string, sep: string)
    requires sep != []
    ensures Join(Split(s, sep), sep) == s
    decreases |s|
  {
    match IndexOf(s, sep)
    case None =>
    case Some(i) =>
      var rest := s[i + |sep|..];
      SplitStep(s, sep, i);
      JoinSplit(rest, sep);
      JoinCons(s[..i], Split(rest, sep), sep);
  }

  /** One step of `Split`: the piece before the first occurrence, then the
      split of the text after it. */
  lemma SplitStep(s: string, sep: string, i: nat)
    requires sep != [] && IndexOf(s, sep) == Some(i)
    ensures Split(s, sep) == [s[..i]] + Split(s[i + |sep|..], sep)
    ensures s == s[..i] + sep + s[i + |sep|..]
  {
    assert OccursAt(s, sep, i);
  }

  /** Joining a piece in front of a non-empty list puts one `sep` between. */
  lemma JoinCons(head: string, tail: seq<string>, sep: string)
    requires |tail| >= 1
    ensures Join([head] + tail, sep) == head + sep + Join(tail, sep)
  {
    assert ([head] + tail)[1..] == tail;
  }

  /** Two occurrences of a non-self-overlapping separator do not overlap. */
  lemma OccurrencesApart(s: string, sep: string, i: int, j: int)
    requires NoSelfOverlap(sep)
    requires OccursAt(s, sep, i) && OccursAt(s, sep, j) && i < j
    ensures i + |sep| <= j
  {
    if j < i + |sep| {
      ShiftedSelfMatch(s, sep, i, j);
    }
  }

  /** Two overlapping occurrences make a suffix of `sep` equal to a prefix of it. */
  lemma ShiftedSelfMatch(s: string, sep: string, i: int, j: int)
    requires OccursAt(s, sep, i) && OccursAt(s, sep, j) && i < j < i + |sep|
    ensures sep[j - i..] == sep[..|sep| - (j - i)]
  {
    var n, d := |sep|, j - i;
    assert sep[d..] == s[i..i + n][d..] == s[j..i + n];
    assert sep[..n - d] == s[j..j + n][..n - d] == s[j..i + n];
  }

  /** Splitting yields exactly two pieces precisely when a non-self-overlapping
      separator occurs exactly once. */
  lemma SplitInTwoIffOnce(s: string, sep: string)
    requires sep != [] && NoSelfOverlap(sep)
    ensures |Split(s, sep)| == 2 <==> OccursOnce(s, sep)
  {
    if |Split(s, sep)| == 2 {
      SplitInTwoOnlyIfOnce(s, sep);
    }
    if OccursOnce(s, sep) {
      OnceSplitsInTwo(s, sep);
    }
  }

  lemma SplitInTwoOnlyIfOnce(s: string, sep: string)
    requires sep != [] && NoSelfOverlap(sep)
    requires |Split(s, sep)| == 2
    ensures OccursOnce(s, sep)
  {
    var n := |sep|;
    SplitCount(s, sep);
    var i := IndexOf(s, sep).value;
    var rest := s[i + n..];
    SplitCount(rest, sep);
    assert IndexOf(rest, sep).None?;
    forall j | OccursAt(s, sep, j)
      ensures j == i
    {
      if j > i {
        OccurrencesApart(s, sep, i, j);
        SuffixOccurs(s, sep, i + n, j - (i + n));
      }
    }
    assert OccursAt(s, sep, i);
  }

  lemma OnceSplitsInTwo(s: string, sep: string)
    requires sep != []
    requires OccursOnce(s, sep)
    ensures |Split(s, sep)| == 2
  {
    OnceLeavesNoSecond(s, sep);
    SplitCount(s, sep);
    SplitCount(s[IndexOf(s, sep).value + |sep|..], sep);
  }

  /** After the only occurrence of `sep` there is no further one. */
  lemma OnceLeavesNoSecond(s: string, sep: string)
    requires sep != []
    requires OccursOnce(s, sep)
    ensures IndexOf(s, sep).Some?
    ensures IndexOf(s[IndexOf(s, sep).value + |sep|..], sep).None?
  {
    var i0 :| OccursAt(s, sep, i0) && forall j :: OccursAt(s, sep, j) ==> j == i0;
    var i := IndexOf(s, sep).value;
    var rest := s[i + |sep|..];
    if IndexOf(rest, sep).Some? {
      SuffixOccurs(s, sep, i + |sep|, IndexOf(rest, sep).value);
    }
  }

  /** How many pieces one step of `Split` produces. */
  lemma SplitCount(s: string, sep: string)
    requires sep != []
    ensures IndexOf(s, sep).None? ==> |Split(s, sep)| == 1
    ensures IndexOf(s, sep).Some? ==>
      |Split(s, sep)| == 1 + |Split(s[IndexOf(s, sep).value + |sep|..], sep)|
  {
  }

  /** A text that contains `sep` splits into at least two pieces, the first
      of them the text before the first occurrence. */
  lemma ContainsSplitsInTwoOrMore(s: string, sep: string)
    requires sep != [] && Contains(s, sep)
    ensures |Split(s, sep)| >= 2
    ensures Split(s, sep)[0] == SplitOnce(s, sep).0
  {
    SplitCount(s, sep);
  }

  /** No piece of a split contains the separator. */
  lemma {:induction false} SplitPiecesLackSep(s: string, sep: string)
    requires sep != []
    ensures forall k :: 0 <= k < |Split(s, sep)| ==> !Contains(Split(s, sep)[k], sep)
    decreases |s|
  {
    match IndexOf(s, sep)
    case None =>
    case Some(i) =>
      var rest := s[i + |sep|..];
      SplitPiecesLackSep(rest, sep);
      PrefixBeforeFirstLacksSep(s, sep, i);
      assert Split(s, sep) == [s[..i]] + Split(rest, sep);
  }

  /** A piece that lacks a non-self-overlapping `sep`, followed by `sep`, is
      the first piece of the split, and the rest is split on its own. */
  lemma SplitHead(before: string, sep: string, after: string)
    requires sep != [] && NoSelfOverlap(sep) && !Contains(before, sep)
    ensures Contains(before + sep + after, sep)
    ensures Split(before + sep + after, sep) == [before] + Split(after, sep)
  {
    var s := before + sep + after;
    FirstOccurrenceAfter(s, sep, before, after);
    SplitStep(s, sep, |before|);
    assert s[..|before|] == before && s[|before| + |sep|..] == after;
  }

  /** A text made of two pieces that lack a non-self-overlapping `sep`, glued
      with one `sep`, splits back into exactly those two pieces. */
  lemma SplitAtOnly(s: string, sep: string, before: string, after: string)
    requires sep != [] && NoSelfOverlap(sep)
    requires s == before + sep + after
    requires !Contains(before, sep) && !Contains(after, sep)
    ensures Split(s, sep) == [before, after]
  {
    FirstOccurrenceAfter(s, sep, before, after);
    assert s[..|before|] == before;
    assert s[|before| + |sep|..] == after;
    assert Split(after, sep) == [after];
  }

  /** The first occurrence of `sep` in `before + sep + after`, when `before`
      lacks it, is the one right after `before`. */
  lemma FirstOccurrenceAfter(s: string, sep: string, before: string, after: string)
    requires NoSelfOverlap(sep)
    requires s == before + sep + after
    requires !Contains(before, sep)
    ensures IndexOf(s, sep) == Some(|before|)
  {
    var n := |before|;
    assert s[n..n + |sep|] == sep;
    assert OccursAt(s, sep, n);
    forall j | 0 <= j < n
      ensures !OccursAt(s, sep, j)
    {
      NotContainsNowhere(before, sep, j);
      PrefixOccurs(s, sep, n, j);
      if j + |sep| > n {
        NoOverlapBefore(s, sep, j, n);
      }
    }
  }

  /** An occurrence cannot start less than `|sep|` before another one. */
  lemma NoOverlapBefore(s: string, sep: string, j: int, n: int)
    requires NoSelfOverlap(sep)
    requires OccursAt(s, sep, n) && 0 <= j < n < j + |sep|
    ensures !OccursAt(s, sep, j)
  {
    if OccursAt(s, sep, j) {
      OccurrencesApart(s, sep, j, n);
    }
  }

  /** A text that lacks one of the characters of `sep` does not contain `sep`. */
  lemma LacksMarkedChar(s: string, sep: string, k: nat)
    requires k < |sep| && sep[k] !in s
    ensures !Contains(s, sep)
  {
    forall j | 0 <= j && j + |sep| <= |s|
      ensures !OccursAt(s, sep, j)
    {
      assert s[j..j + |sep|][k] == s[j + k];
    }
  }

  /** If `before` lacks the character `sep[k]`, and `sep` has that character
      nowhere before position `k`, then the first occurrence of `sep` in
      `before + sep + after` is the one right after `before`. */
  lemma FirstOccurrenceMarked(s: string, sep: string, before: string, after: string, k: nat)
    requires s == before + sep + after
    requires k < |sep| && sep[k] !in before
    requires forall m :: 0 <= m < k ==> sep[m] != sep[k]
    ensures IndexOf(s, sep) == Some(|before|)
  {
    var n := |before|;
    assert s[n..n + |sep|] == sep;
    assert OccursAt(s, sep, n);
    forall j | 0 <= j < n && j + |sep| <= |s|
      ensures !OccursAt(s, sep, j)
    {
      assert s[j..j + |sep|][k] == s[j + k];
      if j + k < n {
        assert s[j + k] == before[j + k];
      } else {
        assert s[j + k] == sep[j + k - n];
      }
    }
  }

  /** Trimming white margins off a core that starts and ends with non-white
      characters leaves exactly the core. */
  lemma TrimPadded(left: string, core: string, right: string, white: char -> bool)
    requires core != [] && !white(core[0]) && !white(core[|core| - 1])
    requires forall i :: 0 <= i < |left| ==> white(left[i])
    requires forall i :: 0 <= i < |right| ==> white(right[i])
    ensures TrimWith(left + core + right, white) == core
  {
    var s := left + core + right;
    var r := TrimWith(s, white);
    var k :| WhiteMargins(s, r, k, white);
    var a, e := |left|, |left| + |core| - 1;
    assert s[a] == core[0] && s[e] == core[|core| - 1];
    assert k <= a < k + |r|;
    assert k <= e < k + |r|;
    assert s[k] == r[0] && s[k + |r| - 1] == r[|r| - 1];
    forall i | 0 <= i < a
      ensures white(s[i])
    {
      assert s[i] == left[i];
    }
    forall i | e < i < |s|
      ensures white(s[i])
    {
      assert s[i] == right[i - e - 1];
    }
    assert k == a;
    assert k + |r| - 1 == e;
    assert r == s[a..e + 1];
  }
}
