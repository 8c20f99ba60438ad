/** The Python `str` methods the ctypes backend's declaration parser and the
    wrapper lister rely on, with the semantics CPython gives them. */
module PyStr {
  import opened Common

  /** `c.isspace()` for a Python 3 `str` character: the characters `strip()` removes. */
  predicate IsSpace(c: char) {
    c == ' ' || ('\t' <= c <= '\r') || ('\U{1C}' <= c <= '\U{1F}')
    || c == '\U{85}' || c == '\U{A0}' || c == '\U{1680}'
    || ('\U{2000}' <= c <= '\U{200A}') || c == '\U{2028}' || c == '\U{2029}'
    || c == '\U{202F}' || c == '\U{205F}' || c == '\U{3000}'
  }

  /** Number of occurrences of `c` in `s` (`s.count(c)`). */
  function Count(s: string, c: char): nat
  {
    if s == [] then 0 else (if s[0] == c then 1 else 0) + Count(s[1..], c)
  }

  lemma {:induction false} CountConcat(a: string, b: string, c: char)
    ensures Count(a + b, c) == Count(a, c) + Count(b, c)
  {
    if a != [] {
      assert (a + b)[0] == a[0] && (a + b)[1..] == a[1..] + b;
      CountConcat(a[1..], b, c);
    } else {
      assert a + b == b;
    }
  }

  lemma {:induction false} CountZero(s: string, c: char)
    ensures Count(s, c) == 0 <==> c !in s
  {
    if s != [] {
      CountZero(s[1..], c);
      assert s == [s[0]] + s[1..];
    }
  }

  /** The end of `s[..j]` once trailing whitespace is dropped (`rstrip`). */
  function RightEnd(s: string, j: nat): (e: nat)
    requires j <= |s|
    ensures e <= j
  {
    if j == 0 || !IsSpace(s[j - 1]) then j else RightEnd(s, j - 1)
  }

  /** The start of `s[i..j]` once leading whitespace is dropped (`lstrip`). */
  function LeftEnd(s: string, i: nat, j: nat): (b: nat)
    requires i <= j <= |s|
    ensures i <= b <= j
    decreases j - i
  {
    if i == j || !IsSpace(s[i]) then i else LeftEnd(s, i + 1, j)
  }

  /** `rstrip` drops whitespace only, and stops at a non-space character. */
  lemma {:induction false} RightEndSpec(s: string, j: nat)
    requires j <= |s|
    ensures forall k :: RightEnd(s, j) <= k < j ==> IsSpace(s[k])
    ensures RightEnd(s, j) > 0 ==> !IsSpace(s[RightEnd(s, j) - 1])
  {
    if j > 0 && IsSpace(s[j - 1]) {
      RightEndSpec(s, j - 1);
    }
  }

  /** `lstrip` drops whitespace only, and stops at a non-space character. */
  lemma {:induction false} LeftEndSpec(s: string, i: nat, j: nat)
    requires i <= j <= |s|
    ensures forall k :: i <= k < LeftEnd(s, i, j) ==> IsSpace(s[k])
    ensures LeftEnd(s, i, j) < j ==> !IsSpace(s[LeftEnd(s, i, j)])
    decreases j - i
  {
    if i < j && IsSpace(s[i]) {
      LeftEndSpec(s, i + 1, j);
    }
  }

  /** `rstrip` stops at the last non-space character. */
  lemma {:induction false} RightEndAt(s: string, j: nat, e: nat)
    requires 0 < e <= j <= |s| && !IsSpace(s[e - 1])
    requires forall k :: e <= k < j ==> IsSpace(s[k])
    ensures RightEnd(s, j) == e
    decreases j
  {
    if j > e {
      RightEndAt(s, j - 1, e);
    }
  }

  /** `lstrip` stops at the first non-space character. */
  lemma {:induction false} LeftEndAt(s: string, i: nat, j: nat, b: nat)
    requires i <= b < j <= |s| && !IsSpace(s[b])
    requires forall k :: i <= k < b ==> IsSpace(s[k])
    ensures LeftEnd(s, i, j) == b
    decreases b - i
  {
    if i < b {
      LeftEndAt(s, i + 1, j, b);
    }
  }

  /** `s.strip()`: the text between leading and trailing whitespace. */
  function Strip(s: string): (r: string)
    ensures |r| <= |s|
  {
    var e := RightEnd(s, |s|);
    s[LeftEnd(s, 0, e)..e]
  }

  /** A text strips to nothing exactly when it is all whitespace. */
  lemma StripBlank(s: string)
    ensures Strip(s) == [] <==> forall k :: 0 <= k < |s| ==> IsSpace(s[k])
  {
    var e := RightEnd(s, |s|);
    RightEndSpec(s, |s|);
    LeftEndSpec(s, 0, e);
  }

  /** The stripped text neither starts nor ends with whitespace. */
  lemma StripTrimmed(s: string)
    ensures Strip(s) != [] ==> !IsSpace(Strip(s)[0]) && !IsSpace(Strip(s)[|Strip(s)| - 1])
  {
    var e := RightEnd(s, |s|);
    RightEndSpec(s, |s|);
    LeftEndSpec(s, 0, e);
  }

  /** Stripping adds no character. */
  lemma StripAbsent(s: string, c: char)
    requires c !in s
    ensures c !in Strip(s)
  {
    var e := RightEnd(s, |s|);
    var b := LeftEnd(s, 0, e);
    forall k | 0 <= k < |Strip(s)|
      ensures Strip(s)[k] != c
    {
      assert Strip(s)[k] == s[b + k];
    }
  }

  lemma {:induction false} CountAllSpace(s: string, c: char)
    requires !IsSpace(c)
    requires forall i :: 0 <= i < |s| ==> IsSpace(s[i])
    ensures Count(s, c) == 0
  {
    if s != [] {
      CountAllSpace(s[1..], c);
    }
  }

  /** Stripping removes whitespace only: every other character keeps its count. */
  lemma StripKeepsCount(s: string, c: char)
    requires !IsSpace(c)
    ensures Count(Strip(s), c) == Count(s, c)
  {
    var e := RightEnd(s, |s|);
    RightEndSpec(s, |s|);
    LeftEndSpec(s, 0, e);
    CountOuterSpaces(s, LeftEnd(s, 0, e), e, c);
  }

  /** Dropping whitespace on both sides keeps the count of a non-space character. */
  lemma CountOuterSpaces(s: string, b: nat, e: nat, c: char)
    requires !IsSpace(c) && b <= e <= |s|
    requires forall k :: 0 <= k < b ==> IsSpace(s[k])
    requires forall k :: e <= k < |s| ==> IsSpace(s[k])
    ensures Count(s[b..e], c) == Count(s, c)
  {
    var pre, mid, post := s[..b], s[b..e], s[e..];
    assert s == pre + (mid + post);
    CountConcat(pre, mid + post, c);
    CountConcat(mid, post, c);
    CountAllSpace(pre, c);
    CountAllSpace(post, c);
  }

  /** The last position below `j` holding `c`. */
  function LastBelow(s: string, c: char, j: nat): (i: nat)
    requires j <= |s| && exists k :: 0 <= k < j && s[k] == c
    ensures i < j && s[i] == c
    decreases j
  {
    if s[j - 1] == c then j - 1 else LastBelow(s, c, j - 1)
  }

  /** No `c` lies between the last one below `j` and `j`. */
  lemma {:induction false} LastBelowSpec(s: string, c: char, j: nat)
    requires j <= |s| && exists k :: 0 <= k < j && s[k] == c
    ensures forall k :: LastBelow(s, c, j) < k < j ==> s[k] != c
    decreases j
  {
    if s[j - 1] != c {
      LastBelowSpec(s, c, j - 1);
    }
  }

  /** `s.rindex(c)`: the last position holding `c`. */
  function LastIndex(s: string, c: char): (i: nat)
    requires c in s
    ensures i < |s| && s[i] == c
  {
    LastBelow(s, c, |s|)
  }

  /** No `c` follows the one `rindex` finds. */
  lemma LastIndexLast(s: string, c: char)
    requires c in s
    ensures forall k :: LastIndex(s, c) < k < |s| ==> s[k] != c
  {
    LastBelowSpec(s, c, |s|);
  }

  /** A non-empty text without whitespace at either end. */
  predicate Trimmed(s: string) {
    s != [] && !IsSpace(s[0]) && !IsSpace(s[|s| - 1])
  }

  /** A text without whitespace at either end strips to itself. */
  lemma StripUnchanged(s: string)
    requires Trimmed(s)
    ensures Strip(s) == s
  {
    assert RightEnd(s, |s|) == |s|;
    assert LeftEnd(s, 0, |s|) == 0;
  }

  /** Stripping keeps exactly the text between the surrounding whitespace. */
  lemma StripBetween(s: string, i: nat, j: nat)
    requires i < j <= |s| && !IsSpace(s[i]) && !IsSpace(s[j - 1])
    requires forall k :: 0 <= k < i ==> IsSpace(s[k])
    requires forall k :: j <= k < |s| ==> IsSpace(s[k])
    ensures Strip(s) == s[i..j]
  {
    RightEndAt(s, |s|, j);
    LeftEndAt(s, 0, j, i);
  }

  /** `s.rindex(c)` is the position of a `c` with none after it. */
  lemma LastIndexAt(s: string, c: char, i: nat)
    requires i < |s| && s[i] == c
    requires forall k :: i < k < |s| ==> s[k] != c
    ensures LastIndex(s, c) == i
  {
    LastIndexLast(s, c);
  }

  /** `left, right = s.split(c, 1)`; `None` when the unpacking fails (no `c`). */
  function SplitOnce(s: string, c: char): (r: Option<(string, string)>)
    ensures r.Some? <==> c in s
  {
    if c in s then
      var i := IndexOf(s, c);
      Some((s[..i], s[i + 1..]))
    else None
  }

  /** The two halves around the first `c` make up the text again. */
  lemma SplitOnceParts(s: string, c: char)
    requires c in s
    ensures SplitOnce(s, c).value.0 + [c] + SplitOnce(s, c).value.1 == s
    ensures c !in SplitOnce(s, c).value.0
  {
    var i := IndexOf(s, c);
    assert s == s[..i] + [c] + s[i + 1..];
  }

  /** `left, right = s.rsplit(c, 1)`; `None` when the unpacking fails (no `c`). */
  function RSplitOnce(s: string, c: char): (r: Option<(string, string)>)
    ensures r.Some? <==> c in s
  {
    if c in s then
      var i := LastIndex(s, c);
      Some((s[..i], s[i + 1..]))
    else None
  }

  /** The two halves around the last `c` make up the text again. */
  lemma RSplitOnceParts(s: string, c: char)
    requires c in s
    ensures RSplitOnce(s, c).value.0 + [c] + RSplitOnce(s, c).value.1 == s
    ensures c !in RSplitOnce(s, c).value.1
  {
    var i := LastIndex(s, c);
    assert s == s[..i] + [c] + s[i + 1..];
    LastIndexLast(s, c);
    var after := s[i + 1..];
    forall k | 0 <= k < |after|
      ensures after[k] != c
    {
      assert after[k] == s[i + 1 + k];
    }
  }

  /** Splitting once at the first `c`, located at `i`. */
  lemma SplitOnceAt(s: string, c: char, i: nat)
    requires i < |s| && s[i] == c && c !in s[..i]
    ensures SplitOnce(s, c) == Some((s[..i], s[i + 1..]))
  {
    forall j | 0 <= j < i
      ensures s[j] != c
    {
      assert s[j] == s[..i][j];
    }
    IndexOfAt(s, c, i);
  }

  /** Splitting once at the last `c`, located at `i`. */
  lemma RSplitOnceAt(s: string, c: char, i: nat)
    requires i < |s| && s[i] == c
    requires forall k :: i < k < |s| ==> s[k] != c
    ensures RSplitOnce(s, c) == Some((s[..i], s[i + 1..]))
  {
    LastIndexAt(s, c, i);
  }

  /** `s.split(sep)` with an explicit one-character separator: never empty. */
  function Split(s: string, sep: char): (parts: seq<string>)
    ensures |parts| >= 1
    decreases |s|
  {
    match SplitOnce(s, sep)
    case None => [s]
    case Some((left, right)) => [left] + Split(right, sep)
  }

  /** `sep.join(parts)`. */
  function Join(parts: seq<string>, sep: char): string
    requires |parts| >= 1
  {
    if |parts| == 1 then parts[0] else parts[0] + [sep] + Join(parts[1..], sep)
  }

  /** Joining pieces that hold no separator and splitting again gives back
      the pieces. */
  lemma {:induction false} SplitJoin(parts: seq<string>, sep: char)
    requires |parts| >= 1
    requires forall i :: 0 <= i < |parts| ==> sep !in parts[i]
    ensures Split(Join(parts, sep), sep) == parts
    decreases |parts|
  {
    if |parts| > 1 {
      var rest := Join(parts[1..], sep);
      var s := parts[0] + [sep] + rest;
      assert s[|parts[0]|] == sep && s[..|parts[0]|] == parts[0] && s[|parts[0]| + 1..] == rest;
      SplitOnceAt(s, sep, |parts[0]|);
      SplitJoin(parts[1..], sep);
      assert parts == [parts[0]] + parts[1..];
    }
  }

  /** Splitting loses nothing: joining the pieces gives back the text. */
  lemma {:induction false} JoinSplit(s: string, sep: char)
    ensures Join(Split(s, sep), sep) == s
    decreases |s|
  {
    match SplitOnce(s, sep)
    case None =>
    case Some((left, right)) =>
      SplitOnceParts(s, sep);
      JoinSplit(right, sep);
      assert Split(s, sep)[1..] == Split(right, sep);
  }

  /** `s.split(sep, maxsplit)`: at most `maxsplit` cuts, from the left. */
  function SplitMax(s: string, sep: char, maxsplit: nat): (parts: seq<string>)
    ensures 1 <= |parts| <= maxsplit + 1
    ensures var last := parts[|parts| - 1]; |last| <= |s| && last == s[|s| - |last|..]
    decreases maxsplit
  {
    if maxsplit == 0 then [s]
    else
      match SplitOnce(s, sep)
      case None => [s]
      case Some((left, right)) => [left] + SplitMax(right, sep, maxsplit - 1)
  }

  /** `pat in s` for strings. */
  predicate Contains(s: string, pat: string)
    decreases |s|
  {
    |pat| <= |s| && (s[..|pat|] == pat || Contains(s[1..], pat))
  }

  /** Text holding a pattern holds every character of the pattern. */
  lemma {:induction false} ContainsChar(s: string, pat: string, j: nat)
    requires j < |pat| && Contains(s, pat)
    ensures pat[j] in s
    decreases |s|
  {
    if s[..|pat|] == pat {
      assert s[j] == pat[j];
    } else {
      ContainsChar(s[1..], pat, j);
      assert s[1..] == s[1..][..];
    }
  }

  /** `s.replace(pat, '')`: scan from the left, drop each occurrence of `pat`
      and resume right after it (occurrences never overlap, one pass only). */
  function RemoveAll(s: string, pat: string): (r: string)
    requires pat != []
    ensures |r| <= |s|
    decreases |s|
  {
    if |s| < |pat| then s
    else if s[..|pat|] == pat then RemoveAll(s[|pat|..], pat)
    else [s[0]] + RemoveAll(s[1..], pat)
  }

  /** Text that does not contain the pattern comes back unchanged. */
  lemma {:induction false} RemoveAllAbsent(s: string, pat: string)
    requires pat != [] && !Contains(s, pat)
    ensures RemoveAll(s, pat) == s
    decreases |s|
  {
    if |s| >= |pat| {
      RemoveAllAbsent(s[1..], pat);
      assert s == [s[0]] + s[1..];
    }
  }

  /** `pat` occurs in `s` starting at index `i`. */
  predicate OccursAt(s: string, pat: string, i: nat) {
    i + |pat| <= |s| && s[i..i + |pat|] == pat
  }

  /** `pat in s` holds exactly when the pattern occurs at some index. */
  lemma {:induction false} ContainsOccurs(s: string, pat: string)
    ensures Contains(s, pat) <==> exists i: nat :: OccursAt(s, pat, i)
    decreases |s|
  {
    if |pat| <= |s| {
      if s[..|pat|] == pat {
        assert OccursAt(s, pat, 0);
      } else {
        ContainsOccurs(s[1..], pat);
        if Contains(s[1..], pat) {
          var i: nat :| OccursAt(s[1..], pat, i);
          assert s[1..][i..i + |pat|] == s[i + 1..i + 1 + |pat|];
          assert OccursAt(s, pat, i + 1);
        }
        if exists i: nat :: OccursAt(s, pat, i) {
          var i: nat :| OccursAt(s, pat, i);
          assert i != 0;
          assert s[1..][i - 1..i - 1 + |pat|] == s[i..i + |pat|];
          assert OccursAt(s[1..], pat, i - 1);
        }
      }
    }
  }

  /** `replace` finds the leftmost occurrence, keeps the text before it,
      drops the occurrence and goes on with the text after it. Together with
      `RemoveAllAbsent` this determines the result for every text. */
  lemma {:induction false} RemoveAllLeftmost(s: string, pat: string, i: nat)
    requires pat != [] && OccursAt(s, pat, i)
    requires forall j: nat :: j < i ==> !OccursAt(s, pat, j)
    ensures RemoveAll(s, pat) == s[..i] + RemoveAll(s[i + |pat|..], pat)
    decreases i
  {
    if i == 0 {
      RemoveAllAtStart(s, pat);
    } else {
      OccursShifted(s, pat, i);
      RemoveAllLeftmost(s[1..], pat, i - 1);
      LeftmostShift(s, pat, i);
    }
  }

  /** One step of `RemoveAllLeftmost`: a kept first character joins the text
      kept before the occurrence. */
  lemma LeftmostShift(s: string, pat: string, i: nat)
    requires pat != [] && 0 < i && i + |pat| <= |s| && s[..|pat|] != pat
    requires RemoveAll(s[1..], pat) == s[1..][..i - 1] + RemoveAll(s[1..][i - 1 + |pat|..], pat)
    ensures RemoveAll(s, pat) == s[..i] + RemoveAll(s[i + |pat|..], pat)
  {
    var t := s[1..];
    var rest := RemoveAll(s[i + |pat|..], pat);
    RemoveAllKeeps(s, pat);
    SlicesShift(s, pat, i);
    ConsShift(s, i, rest);
  }

  /** An occurrence at the start is dropped and the scan resumes after it. */
  lemma RemoveAllAtStart(s: string, pat: string)
    requires pat != [] && OccursAt(s, pat, 0)
    ensures RemoveAll(s, pat) == s[..0] + RemoveAll(s[|pat|..], pat)
  {
    assert s[..|pat|] == pat;
    assert s[..0] + RemoveAll(s[|pat|..], pat) == RemoveAll(s[|pat|..], pat);
  }

  /** The text after an occurrence is the same seen from `s` or from `s[1..]`. */
  lemma SlicesShift(s: string, pat: string, i: nat)
    requires pat != [] && 0 < i && i + |pat| <= |s|
    ensures RemoveAll(s[1..][i - 1 + |pat|..], pat) == RemoveAll(s[i + |pat|..], pat)
  {
    assert s[1..][i - 1 + |pat|..] == s[i + |pat|..];
  }

  /** Putting the first character back in front of a prefix of the rest. */
  lemma ConsShift(s: string, i: nat, rest: string)
    requires 0 < i <= |s|
    ensures [s[0]] + (s[1..][..i - 1] + rest) == s[..i] + rest
  {
    assert s[..i] == [s[0]] + s[1..][..i - 1];
  }

  /** The leftmost occurrence, seen from `s[1..]`, is one position earlier. */
  lemma OccursShifted(s: string, pat: string, i: nat)
    requires 0 < i && OccursAt(s, pat, i)
    requires forall j: nat :: j < i ==> !OccursAt(s, pat, j)
    ensures OccursAt(s[1..], pat, i - 1)
    ensures forall j: nat :: j < i - 1 ==> !OccursAt(s[1..], pat, j)
    ensures s[..|pat|] != pat
  {
    assert !OccursAt(s, pat, 0);
    var t := s[1..];
    assert t[i - 1..i - 1 + |pat|] == s[i..i + |pat|];
    forall j: nat | j < i - 1
      ensures !OccursAt(t, pat, j)
    {
      assert !OccursAt(s, pat, j + 1);
      if j + |pat| <= |t| {
        assert t[j..j + |pat|] == s[j + 1..j + 1 + |pat|];
      }
    }
  }

  /** Where the pattern does not start, the first character is kept. */
  lemma RemoveAllKeeps(s: string, pat: string)
    requires pat != [] && |pat| <= |s| && s[..|pat|] != pat
    ensures RemoveAll(s, pat) == [s[0]] + RemoveAll(s[1..], pat)
  {
  }

  /** Where the pattern starts, it is dropped and the scan resumes after it. */
  lemma RemoveAllDrops(s: string, pat: string)
    requires pat != [] && StartsWith(s, pat)
    ensures RemoveAll(s, pat) == RemoveAll(s[|pat|..], pat)
  {
  }

  /** The pass is single: removing `"const "` from `"conconst st "` leaves `"const "`. */
  lemma RemoveAllSinglePass(s: string, p: string)
    requires s == "conconst st " && p == "const "
    ensures RemoveAll(s, p) == p
  {
    var t := s[9..];
    assert |t| < |p|;
    var u := s[3..];
    assert u[..6] == p && u[6..] == t;
    RemoveAllDrops(u, p);
    assert s[2..][..6][5] != p[5] && s[2..][1..] == u;
    RemoveAllKeeps(s[2..], p);
    assert s[1..][..6][4] != p[4] && s[1..][1..] == s[2..];
    RemoveAllKeeps(s[1..], p);
    assert s[..6][3] != p[3];
    RemoveAllKeeps(s, p);
    SinglePassRest(s, p);
  }

  lemma SinglePassRest(s: string, p: string)
    requires s == "conconst st " && p == "const "
    ensures [s[0]] + ([s[1]] + ([s[2]] + s[9..])) == p
  {
    var r := [s[0]] + ([s[1]] + ([s[2]] + s[9..]));
    assert |r| == |p|;
    forall i | 0 <= i < |r|
      ensures r[i] == p[i]
    {
      if i < 3 {
        assert r[i] == s[i];
      } else {
        assert r[i] == s[i + 6];
      }
    }
  }
}
