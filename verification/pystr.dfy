/** The Python `str` built-ins the script relies on: `isspace`, `strip`,
    `find`, `split(sep)`, `sep.join(parts)` and the slice `s[:n]`.
    A Dafny string is a sequence of Unicode scalar values. A Python `str`
    is a sequence of code points and may also hold lone surrogates, which
    these strings cannot; see the `UrlParse.Quote` line under "Left out"
    in the README. */
module PyStr {

  datatype Option<T> = None | Some(value: T)

  /** The code points for which Python's `str.isspace` holds: those whose
      bidirectional class is WS, B or S, or whose category is Zs. */
  const Whitespace: set<char> := {
    '\t', '\n', '\U{000B}', '\U{000C}', '\r',
    '\U{001C}', '\U{001D}', '\U{001E}', '\U{001F}',
    ' ', '\U{0085}', '\U{00A0}', '\U{1680}',
    '\U{2000}', '\U{2001}', '\U{2002}', '\U{2003}', '\U{2004}', '\U{2005}',
    '\U{2006}', '\U{2007}', '\U{2008}', '\U{2009}', '\U{200A}',
    '\U{2028}', '\U{2029}', '\U{202F}', '\U{205F}', '\U{3000}'
  }

  predicate IsSpace(c: char) {
    c in Whitespace
  }

  /** `lo..hi` is a range of indices of `s`, all holding whitespace. */
  predicate SpaceBetween(s: string, lo: int, hi: int) {
    0 <= lo <= hi <= |s| && forall k :: lo <= k < hi ==> IsSpace(s[k])
  }

  /** Neither the first nor the last character is whitespace. */
  predicate Stripped(s: string) {
    s == [] || (!IsSpace(s[0]) && !IsSpace(s[|s| - 1]))
  }

  /** `t` is `s` with its leading and trailing whitespace cut off: a
      contiguous piece `s[i..j]`, everything outside it whitespace, and
      nothing at its ends whitespace. */
  ghost predicate IsStripOf(t: string, s: string) {
    exists i, j :: StripsAt(t, s, i, j)
  }

  /** `t` is the piece `s[i..j]`, and it is a strip of `s`. */
  predicate StripsAt(t: string, s: string, i: int, j: int) {
    SpaceBetween(s, 0, i) && SpaceBetween(s, j, |s|) && i <= j
      && t == s[i..j] && Stripped(t)
  }

  /** The number of whitespace characters `s` begins with. */
  function LeadingSpace(s: string): (n: nat)
    ensures SpaceBetween(s, 0, n)
    ensures n == |s| || !IsSpace(s[n])
  {
    if |s| > 0 && IsSpace(s[0]) then
      var m := LeadingSpace(s[1..]);
      forall k | 1 <= k < 1 + m ensures IsSpace(s[k]) {
        assert s[k] == s[1..][k - 1];
      }
      1 + m
    else 0
  }

  /** The number of whitespace characters `s` ends with. */
  function TrailingSpace(s: string): (n: nat)
    ensures n <= |s| && SpaceBetween(s, |s| - n, |s|)
    ensures n == |s| || !IsSpace(s[|s| - n - 1])
  {
    if |s| > 0 && IsSpace(s[|s| - 1]) then
      var m := TrailingSpace(s[..|s| - 1]);
      forall k | |s| - 1 - m <= k < |s| - 1 ensures IsSpace(s[k]) {
        assert s[k] == s[..|s| - 1][k];
      }
      assert m < |s| - 1 ==> s[|s| - m - 2] == s[..|s| - 1][|s| - 1 - m - 1];
      m + 1
    else 0
  }

  /** Python's `str.lstrip()`. */
  function LStrip(s: string): (r: string)
    ensures |r| <= |s| && r == s[|s| - |r|..]
    ensures SpaceBetween(s, 0, |s| - |r|)
    ensures r == [] || !IsSpace(r[0])
  {
    s[LeadingSpace(s)..]
  }

  /** Python's `str.rstrip()`. */
  function RStrip(s: string): (r: string)
    ensures |r| <= |s| && r == s[..|r|]
    ensures SpaceBetween(s, |r|, |s|)
    ensures r == [] || !IsSpace(r[|r| - 1])
  {
    s[..|s| - TrailingSpace(s)]
  }

  /** Python's `str.strip()` with no argument. */
  function Strip(s: string): (r: string)
    ensures IsStripOf(r, s)
  {
    var l := LStrip(s);
    var r := RStrip(l);
    var i := |s| - |l|;
    forall k | i + |r| <= k < |s| ensures IsSpace(s[k]) {
      assert s[k] == l[k - i];
    }
    assert |r| > 0 ==> r[0] == l[0];
    assert StripsAt(r, s, i, i + |r|);
    r
  }

  /** `lstrip()` stops at the first character that is not whitespace. */
  lemma LStripAt(s: string, i: nat)
    requires SpaceBetween(s, 0, i)
    requires i == |s| || !IsSpace(s[i])
    ensures LStrip(s) == s[i..]
  {
    assert LeadingSpace(s) == i;
  }

  /** `rstrip()` stops at the last character that is not whitespace. */
  lemma RStripAt(s: string, j: nat)
    requires SpaceBetween(s, j, |s|)
    requires j == 0 || !IsSpace(s[j - 1])
    ensures RStrip(s) == s[..j]
  {
    assert TrailingSpace(s) == |s| - j;
  }

  /** Cutting whitespace-only ends off `s`, leaving a piece with
      non-whitespace ends, is what `strip()` does. */
  lemma StripAt(s: string, i: nat, j: nat)
    requires i <= j <= |s| && StripsAt(s[i..j], s, i, j)
    ensures Strip(s) == s[i..j]
  {
    if i == j {
      assert SpaceBetween(s, 0, |s|) by {
        forall k | 0 <= k < |s| ensures IsSpace(s[k]) {
          assert k < i || j <= k;
        }
      }
      LStripAt(s, |s|);
    } else {
      var l := s[i..];
      assert LStrip(s) == l by {
        assert s[i] == s[i..j][0];
        LStripAt(s, i);
      }
      assert RStrip(l) == s[i..j] by {
        forall k | j - i <= k < |l| ensures IsSpace(l[k]) {
          assert l[k] == s[i + k];
        }
        assert l[j - i - 1] == s[i..j][j - i - 1];
        RStripAt(l, j - i);
      }
    }
  }

  /** Every strip of `s` is `Strip(s)`. */
  lemma StripUnique(s: string, t: string)
    requires IsStripOf(t, s)
    ensures t == Strip(s)
  {
    var i: nat, j: nat :| StripsAt(t, s, i, j);
    StripAt(s, i, j);
  }

  /** `t` is a strip of `s` exactly when it is `Strip(s)`. */
  lemma StripCharacterization(s: string, t: string)
    ensures IsStripOf(t, s) <==> t == Strip(s)
  {
    if IsStripOf(t, s) { StripUnique(s, t); }
  }

  /** The result of `strip()` has no whitespace at either end. */
  lemma StripIsStripped(s: string)
    ensures Stripped(Strip(s))
  {
  }

  /** A string with no whitespace at its ends is its own strip. */
  lemma StrippedFixed(s: string)
    requires Stripped(s)
    ensures Strip(s) == s
  {
    assert StripsAt(s[0..|s|], s, 0, |s|);
    StripAt(s, 0, |s|);
  }

  /** `strip()` is idempotent. */
  lemma StripIdempotent(s: string)
    ensures Strip(Strip(s)) == Strip(s)
  {
    StrippedFixed(Strip(s));
  }

  /** `strip()` returns a contiguous piece of its argument, so any character
      absent from the argument is absent from the result. */
  lemma StripKeepsOut(s: string, c: char)
    requires c !in s
    ensures c !in Strip(s)
  {
  }

  /** `pat` occurs in `s` starting at index `k`. */
  predicate OccursAt(s: string, pat: string, k: int) {
    0 <= k && k + |pat| <= |s| && s[k..k + |pat|] == pat
  }

  /** The first occurrence of a non-empty `pat` at or after `from`. */
  function FindFrom(s: string, pat: string, from: nat): (r: Option<nat>)
    requires |pat| > 0
    ensures r.Some? ==> from <= r.value && OccursAt(s, pat, r.value)
    ensures r.Some? ==> forall k :: from <= k < r.value ==> !OccursAt(s, pat, k)
    ensures r.None? ==> forall k :: from <= k ==> !OccursAt(s, pat, k)
    decreases |s| - from
  {
    if from + |pat| > |s| then None
    else if s[from..from + |pat|] == pat then Some(from)
    else FindFrom(s, pat, from + 1)
  }

  /** Python's `str.find(pat)` for a non-empty `pat`, with `None` for -1.
      (Python also accepts an empty `pat`, for which it returns 0.) */
  function Find(s: string, pat: string): (r: Option<nat>)
    requires |pat| > 0
    ensures r.Some? ==> OccursAt(s, pat, r.value)
    ensures r.Some? ==> forall k :: 0 <= k < r.value ==> !OccursAt(s, pat, k)
    ensures r.None? ==> forall k :: !OccursAt(s, pat, k)
  {
    FindFrom(s, pat, 0)
  }

  /** Python's `str.split(sep)` for a non-empty separator (Python raises
      `ValueError` on an empty one): the pieces between successive
      leftmost, non-overlapping occurrences of `sep`. */
  function Split(s: string, sep: string): (r: seq<string>)
    requires |sep| > 0
    ensures |r| >= 1
    decreases |s|
  {
    match Find(s, sep)
    case None => [s]
    case Some(i) => [s[..i]] + Split(s[i + |sep|..], sep)
  }

  lemma AppendAssoc<T>(a: seq<T>, b: seq<T>, c: seq<T>)
    ensures a + (b + c) == (a + b) + c
  {
  }

  /** Python's `sep.join(parts)`. */
  function Join(parts: seq<string>, sep: string): (r: string)
    ensures |parts| > 0 ==> parts[0] <= r
  {
    if |parts| == 0 then ""
    else if |parts| == 1 then parts[0]
    else parts[0] + sep + Join(parts[1..], sep)
  }

  /** Joining the pieces of a split with the same separator gives back the
      original string. */
  lemma {:induction false} JoinSplit(s: string, sep: string)
    requires |sep| > 0
    ensures Join(Split(s, sep), sep) == s
    decreases |s|
  {
    match Find(s, sep)
    case None =>
    case Some(i) =>
      var rest := s[i + |sep|..];
      var tail := Split(rest, sep);
      JoinSplit(rest, sep);
      assert Split(s, sep) == [s[..i]] + tail;
      assert ([s[..i]] + tail)[1..] == tail;
      assert Join(Split(s, sep), sep) == s[..i] + sep + Join(tail, sep);
      assert s == s[..i] + sep + rest;
  }

  /** A string with no occurrence of `sep` splits into itself alone. */
  lemma SplitNoSeparator(s: string, sep: string)
    requires |sep| > 0
    requires forall k :: 0 <= k < |s| ==> !OccursAt(s, sep, k)
    ensures Split(s, sep) == [s]
  {
    match Find(s, sep)
    case None =>
    case Some(i) =>
      assert false;
  }

  /** When the first occurrence of `sep` in `pre + sep + rest` is the one
      right after `pre`, the split peels `pre` off the front. */
  lemma SplitFirst(pre: string, sep: string, rest: string)
    requires |sep| > 0
    requires forall k :: 0 <= k < |pre| ==> !OccursAt(pre + sep + rest, sep, k)
    ensures Split(pre + sep + rest, sep) == [pre] + Split(rest, sep)
  {
    var s := pre + sep + rest;
    assert OccursAt(s, sep, |pre|) by {
      assert s[|pre|..|pre| + |sep|] == sep;
    }
    assert s[..|pre|] == pre;
    assert s[|pre| + |sep|..] == rest;
  }

  /** The second piece of a split is what lies between the first and the
      second separator. */
  lemma SplitSecond(s: string, pre: string, sep: string, seg: string, post: string)
    requires |sep| > 0
    requires s == pre + sep + seg + sep + post
    requires forall k :: 0 <= k < |pre| ==> !OccursAt(s, sep, k)
    requires forall k :: 0 <= k < |seg| ==> !OccursAt(seg + sep + post, sep, k)
    ensures |Split(s, sep)| >= 2 && Split(s, sep)[1] == seg
  {
    var rest := seg + sep + post;
    assert Split(s, sep) == [pre] + Split(rest, sep) by {
      AppendAssoc(pre + sep, seg + sep, post);
      AppendAssoc(pre + sep, seg, sep);
      SplitFirst(pre, sep, rest);
    }
    SplitFirst(seg, sep, post);
  }

  /** With a one-character separator, a piece free of it followed by the
      separator comes off the front of the split. */
  lemma SplitCons(p: string, c: char, rest: string)
    requires c !in p
    ensures Split(p + [c] + rest, [c]) == [p] + Split(rest, [c])
  {
    forall k | 0 <= k < |p| ensures !OccursAt(p + [c] + rest, [c], k) {
      assert (p + [c] + rest)[k..k + 1] == [p[k]];
    }
    SplitFirst(p, [c], rest);
  }

  /** `SplitCons` with the remainder given in two pieces. */
  lemma SplitConsThen(p: string, c: char, mid: string, rest: string)
    requires c !in p
    ensures Split(p + [c] + mid + rest, [c]) == [p] + Split(mid + rest, [c])
  {
    assert p + [c] + mid + rest == p + [c] + (mid + rest);
    SplitCons(p, c, mid + rest);
  }

  /** For at least one part, with a one-character separator absent from
      every part, splitting undoes joining. (No parts join to "", which
      splits into [""]. With a longer separator it need not: "aa" joins
      ["a", ""] into "aaa", which splits into ["", "a"].) */
  lemma {:induction false} SplitJoin(parts: seq<string>, c: char)
    requires |parts| >= 1
    requires forall i :: 0 <= i < |parts| ==> c !in parts[i]
    ensures Split(Join(parts, [c]), [c]) == parts
  {
    var p := parts[0];
    if |parts| == 1 {
      forall k ensures !OccursAt(p, [c], k) {
        if 0 <= k < |p| { assert p[k..k + 1] == [p[k]]; }
      }
    } else {
      SplitCons(p, c, Join(parts[1..], [c]));
      SplitJoin(parts[1..], c);
      assert parts == [p] + parts[1..];
    }
  }

  /** No piece of a split on a one-character separator contains it. */
  lemma {:induction false} SplitPiecesFree(s: string, c: char)
    ensures forall i :: 0 <= i < |Split(s, [c])| ==> c !in Split(s, [c])[i]
    decreases |s|
  {
    var r := Split(s, [c]);
    match Find(s, [c])
    case None =>
      if c in s {
        var k :| 0 <= k < |s| && s[k] == c;
        assert OccursAt(s, [c], k) by { assert s[k..k + 1] == [c]; }
      }
    case Some(i) =>
      SplitPiecesFree(s[i + 1..], c);
      if c in s[..i] {
        var k :| 0 <= k < i && s[..i][k] == c;
        assert OccursAt(s, [c], k) by { assert s[k..k + 1] == [c]; }
      }
      assert r == [s[..i]] + Split(s[i + 1..], [c]);
  }

  /** Python's `s[:n]` for a non-negative `n`. */
  function Head(s: string, n: nat): (r: string)
    ensures |r| == if |s| <= n then |s| else n
    ensures r <= s
  {
    if |s| <= n then s else s[..n]
  }
}
