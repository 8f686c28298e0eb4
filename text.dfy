/**
 * The handful of Python string operations the application's logic relies on,
 * written out with Python's semantics: `str.strip()` without arguments,
 * `str.split(sep)`, `sep.join(parts)`, `str.replace(old, new)`,
 * `str.endswith`, `str.startswith` and the `<=` comparison of two `str`
 * values (code-point lexicographic order).
 */
module Text {

  /** Python's `str.isspace()` for one code point: the characters that
      `strip()` removes when it is called without arguments. */
  predicate IsSpace(c: char) {
    || ('\t' <= c <= '\r')               // TAB, LF, VT, FF, CR
    || ('\U{1c}' <= c <= '\U{1f}')       // file, group, record and unit separators
    || c == ' '
    || c == '\U{85}' || c == '\U{a0}' || c == '\U{1680}'
    || ('\U{2000}' <= c <= '\U{200a}')
    || c == '\U{2028}' || c == '\U{2029}' || c == '\U{202f}' || c == '\U{205f}'
    || c == '\U{3000}'
  }

  predicate AllSpace(s: string) {
    forall k :: 0 <= k < |s| ==> IsSpace(s[k])
  }

  /** Neither end of `s` is whitespace: what `strip()` returns. */
  predicate IsStripped(s: string) {
    s == [] || (!IsSpace(s[0]) && !IsSpace(s[|s| - 1]))
  }

  /** Number of whitespace characters at the start of `s`. */
  function LeadingSpace(s: string): (n: nat)
    ensures n <= |s|
    ensures AllSpace(s[..n])
    ensures n < |s| ==> !IsSpace(s[n])
  {
    if |s| > 0 && IsSpace(s[0]) then 1 + LeadingSpace(s[1..]) else 0
  }

  /** Number of whitespace characters at the end of `s`. */
  function TrailingSpace(s: string): (n: nat)
    ensures n <= |s|
    ensures AllSpace(s[|s| - n..])
    ensures n < |s| ==> !IsSpace(s[|s| - n - 1])
  {
    if |s| > 0 && IsSpace(s[|s| - 1]) then 1 + TrailingSpace(s[..|s| - 1]) else 0
  }

  /** Python's `s.strip()`: the piece of `s` left once whitespace is cut away
      at both ends. */
  function Strip(s: string): (r: string)
    ensures IsStripped(r)
    ensures exists i :: 0 <= i <= |s| - |r| && r == s[i..i + |r|]
                        && AllSpace(s[..i]) && AllSpace(s[i + |r|..])
  {
    var i := LeadingSpace(s);
    var t := s[i..];
    var n := TrailingSpace(t);
    var r := t[..|t| - n];
    assert r == s[i..i + |r|];
    assert s[i + |r|..] == t[|t| - n..];
    assert |r| > 0 ==> r[0] == s[i] && r[|r| - 1] == t[|t| - n - 1];
    r
  }

  lemma AllSpaceJoin(s: string, i: nat)
    requires i <= |s|
    ensures AllSpace(s[..i]) && AllSpace(s[i..]) ==> AllSpace(s)
  {
    assert forall k :: 0 <= k < i ==> s[..i][k] == s[k];
    assert forall k :: i <= k < |s| ==> s[i..][k - i] == s[k];
  }

  lemma AllSpacePrefix(s: string, i: nat)
    requires i <= |s| && AllSpace(s[..i])
    ensures forall k | 0 <= k < i :: IsSpace(s[k])
  {
    assert forall k | 0 <= k < i :: s[..i][k] == s[k];
  }

  lemma AllSpaceSuffix(s: string, m: nat)
    requires m <= |s| && AllSpace(s[|s| - m..])
    ensures forall k | |s| - m <= k < |s| :: IsSpace(s[k])
  {
    assert forall k | |s| - m <= k < |s| :: s[|s| - m..][k - (|s| - m)] == s[k];
  }

  /** `LeadingSpace` is the only count its contract allows. */
  lemma LeadingSpaceIs(s: string, i: nat)
    requires i <= |s| && AllSpace(s[..i]) && (i < |s| ==> !IsSpace(s[i]))
    ensures LeadingSpace(s) == i
  {
    AllSpacePrefix(s, i);
    AllSpacePrefix(s, LeadingSpace(s));
  }

  /** `TrailingSpace` is the only count its contract allows. */
  lemma TrailingSpaceIs(s: string, m: nat)
    requires m <= |s| && AllSpace(s[|s| - m..]) && (m < |s| ==> !IsSpace(s[|s| - m - 1]))
    ensures TrailingSpace(s) == m
  {
    AllSpaceSuffix(s, m);
    AllSpaceSuffix(s, TrailingSpace(s));
  }

  /** The contract of `Strip` pins its result down: any piece of `s` that is
      stripped and has only whitespace around it is `Strip(s)`. */
  lemma StripUnique(s: string, i: nat, j: nat)
    requires i <= j <= |s|
    requires AllSpace(s[..i]) && AllSpace(s[j..]) && IsStripped(s[i..j])
    ensures Strip(s) == s[i..j]
  {
    if i < j {
      LeadingSpaceIs(s, i);
      var t := s[i..];
      assert t[j - i..] == s[j..];
      TrailingSpaceIs(t, |s| - j);
      assert t[..j - i] == s[i..j];
    } else {
      AllSpaceJoin(s, i);
      assert s[..|s|] == s;
      LeadingSpaceIs(s, |s|);
    }
  }

  /** Stripping twice is stripping once. */
  lemma StripIdempotent(s: string)
    ensures Strip(Strip(s)) == Strip(s)
  {
    var r := Strip(s);
    assert r[..0] == [] && r[|r|..] == [] && r[0..|r|] == r;
    StripUnique(r, 0, |r|);
  }

  /** `Strip(s)` is empty exactly when `s` is all whitespace. */
  lemma StripEmptyIff(s: string)
    ensures Strip(s) == [] <==> AllSpace(s)
  {
    StripEmptyAllSpace(s);
    if AllSpace(s) {
      assert s[..|s|] == s && s[|s|..] == [];
      StripUnique(s, |s|, |s|);
    }
  }

  lemma StripEmptyAllSpace(s: string)
    ensures Strip(s) == [] ==> AllSpace(s)
  {
    var r := Strip(s);
    if r == [] {
      var i :| 0 <= i <= |s| && r == s[i..i] && AllSpace(s[..i]) && AllSpace(s[i + |r|..]);
      assert s[i + |r|..] == s[i..];
      AllSpaceJoin(s, i);
    }
  }

  /** `sep` occurs in `s` at position `k`. */
  predicate OccursAt(s: string, sep: string, k: int) {
    0 <= k <= |s| - |sep| && s[k..k + |sep|] == sep
  }

  /** `sep` occurs in `s`: Python's `sep in s`. */
  ghost predicate Contains(s: string, sep: string) {
    exists k :: OccursAt(s, sep, k)
  }

  predicate StartsWith(s: string, prefix: string) {
    |prefix| <= |s| && s[..|prefix|] == prefix
  }

  /** Python's `s.endswith(suffix)`. */
  predicate EndsWith(s: string, suffix: string) {
    |suffix| <= |s| && s[|s| - |suffix|..] == suffix
  }

  /** Python's `s.split(sep)` for a non-empty `sep`: cut at every occurrence,
      scanning left to right and never letting two occurrences overlap. There
      is always at least one piece; the empty string gives `[""]`. */
  function Split(s: string, sep: string): (pieces: seq<string>)
    requires |sep| > 0
    ensures |pieces| >= 1
    decreases |s|
  {
    if |s| < |sep| then [s]
    else if s[..|sep|] == sep then [""] + Split(s[|sep|..], sep)
    else
      var rest := Split(s[1..], sep);
      [[s[0]] + rest[0]] + rest[1..]
  }

  /** Python's `sep.join(pieces)`. */
  function Join(pieces: seq<string>, sep: string): string {
    if |pieces| == 0 then ""
    else if |pieces| == 1 then pieces[0]
    else pieces[0] + sep + Join(pieces[1..], sep)
  }

  lemma JoinPrepend(c: char, pieces: seq<string>, sep: string)
    requires |pieces| >= 1
    ensures Join([[c] + pieces[0]] + pieces[1..], sep) == [c] + Join(pieces, sep)
  {
    var p := [[c] + pieces[0]] + pieces[1..];
    assert p[1..] == pieces[1..];
  }

  /** Splitting loses nothing: joining the pieces with the separator gives
      the original string back. */
  lemma {:induction false} SplitJoin(s: string, sep: string)
    requires |sep| > 0
    ensures Join(Split(s, sep), sep) == s
    decreases |s|
  {
    if |s| < |sep| {
    } else if s[..|sep|] == sep {
      var rest := Split(s[|sep|..], sep);
      SplitJoin(s[|sep|..], sep);
      assert Split(s, sep) == [""] + rest;
      assert ([""] + rest)[1..] == rest;
      assert Join([""] + rest, sep) == "" + sep + Join(rest, sep);
      assert s == sep + s[|sep|..];
    } else {
      var rest := Split(s[1..], sep);
      SplitJoin(s[1..], sep);
      assert Split(s, sep) == [[s[0]] + rest[0]] + rest[1..];
      JoinPrepend(s[0], rest, sep);
      assert s == [s[0]] + s[1..];
    }
  }

  lemma JoinStartsWithFirst(pieces: seq<string>, sep: string)
    requires |pieces| >= 1
    ensures StartsWith(Join(pieces, sep), pieces[0])
  {
  }

  /** No piece of a split contains the separator. */
  lemma {:induction false} SplitPiecesHaveNoSeparator(s: string, sep: string)
    requires |sep| > 0
    ensures forall p :: p in Split(s, sep) ==> !Contains(p, sep)
    decreases |s|
  {
    if |s| < |sep| {
    } else if s[..|sep|] == sep {
      SplitPiecesHaveNoSeparator(s[|sep|..], sep);
    } else {
      var rest := Split(s[1..], sep);
      SplitPiecesHaveNoSeparator(s[1..], sep);
      SplitJoin(s[1..], sep);
      JoinStartsWithFirst(rest, sep);
      FirstPieceNoSeparator(s, rest[0], sep);
      assert Split(s, sep) == [[s[0]] + rest[0]] + rest[1..];
    }
  }

  /** A separator found neither at the front of `[c] + u` nor anywhere in
      `u` is not in `[c] + u`. */
  lemma ConsNoOccurrence(c: char, u: string, sep: string)
    requires !OccursAt([c] + u, sep, 0) && !Contains(u, sep)
    ensures !Contains([c] + u, sep)
  {
    var t := [c] + u;
    forall k | k != 0
      ensures !OccursAt(t, sep, k)
    {
      assert 0 < k <= |t| - |sep| ==> t[k..k + |sep|] == u[k - 1..k - 1 + |sep|];
      assert !OccursAt(u, sep, k - 1);
    }
  }

  /** A string that does not start with the separator, followed by a first
      piece without it, gives a longer first piece without it. */
  lemma FirstPieceNoSeparator(s: string, first: string, sep: string)
    requires |sep| > 0 && |s| >= |sep| && s[..|sep|] != sep
    requires StartsWith(s[1..], first) && !Contains(first, sep)
    ensures !Contains([s[0]] + first, sep)
  {
    var head := [s[0]] + first;
    assert head == s[..|head|];
    assert |sep| <= |head| ==> head[0..|sep|] == s[..|sep|];
    ConsNoOccurrence(s[0], first, sep);
  }

  /** Every cut is at the leftmost occurrence still available: no occurrence
      of `sep` starts inside a piece and runs on into the separator that
      follows it. */
  ghost predicate LeftmostCuts(pieces: seq<string>, sep: string)
    requires |sep| > 0
  {
    forall i :: 0 <= i < |pieces| - 1 ==> !Contains(pieces[i] + sep[..|sep| - 1], sep)
  }

  /** A string that does not start with the separator, followed by a first
      piece cut at the leftmost occurrence, gives a longer first piece cut at
      the leftmost occurrence. */
  lemma FirstCutLeftmost(s: string, first: string, sep: string)
    requires |sep| > 0 && |s| >= |sep| && s[..|sep|] != sep
    requires StartsWith(s[1..], first + sep)
    requires !Contains(first + sep[..|sep| - 1], sep)
    ensures !Contains([s[0]] + first + sep[..|sep| - 1], sep)
  {
    var u := first + sep[..|sep| - 1];
    var t := [s[0]] + u;
    assert [s[0]] + first + sep[..|sep| - 1] == t;
    assert u == (first + sep)[..|u|];
    assert t == s[..|t|];
    assert |sep| <= |t| ==> t[0..|sep|] == s[..|sep|];
    ConsNoOccurrence(s[0], u, sep);
  }

  /** Python's split scans left to right: every cut is at the leftmost
      occurrence of the separator not yet consumed. */
  lemma {:induction false} SplitLeftmost(s: string, sep: string)
    requires |sep| > 0
    ensures LeftmostCuts(Split(s, sep), sep)
    decreases |s|
  {
    if |s| < |sep| {
    } else if s[..|sep|] == sep {
      var rest := Split(s[|sep|..], sep);
      SplitLeftmost(s[|sep|..], sep);
      var pieces := [""] + rest;
      assert Split(s, sep) == pieces;
      forall i | 0 <= i < |pieces| - 1
        ensures !Contains(pieces[i] + sep[..|sep| - 1], sep)
      {
        if i > 0 {
          assert pieces[i] == rest[i - 1];
        } else {
          assert |pieces[i] + sep[..|sep| - 1]| < |sep|;
        }
      }
    } else {
      var rest := Split(s[1..], sep);
      SplitLeftmost(s[1..], sep);
      var pieces := [[s[0]] + rest[0]] + rest[1..];
      assert Split(s, sep) == pieces;
      forall i | 0 <= i < |pieces| - 1
        ensures !Contains(pieces[i] + sep[..|sep| - 1], sep)
      {
        if i > 0 {
          assert pieces[i] == rest[i];
        } else {
          SplitJoin(s[1..], sep);
          assert Join(rest, sep) == rest[0] + sep + Join(rest[1..], sep);
          assert StartsWith(s[1..], rest[0] + sep);
          FirstCutLeftmost(s, rest[0], sep);
        }
      }
    }
  }

  /** A string without the separator is a single piece. */
  lemma {:induction false} SplitNoSeparator(s: string, sep: string)
    requires |sep| > 0 && !Contains(s, sep)
    ensures Split(s, sep) == [s]
    decreases |s|
  {
    if |s| >= |sep| {
      assert !OccursAt(s, sep, 0);
      assert s[0..|sep|] == s[..|sep|];
      forall k
        ensures !OccursAt(s[1..], sep, k)
      {
        assert 0 <= k <= |s| - 1 - |sep| ==> s[1..][k..k + |sep|] == s[k + 1..k + 1 + |sep|];
        assert !OccursAt(s, sep, k + 1);
      }
      SplitNoSeparator(s[1..], sep);
      assert [s[0]] + s[1..] == s;
    }
  }

  /** Cutting at an occurrence with none earlier gives the part before it as
      the first piece and splits the rest. */
  lemma {:induction false} SplitAtCut(a: string, b: string, sep: string)
    requires |sep| > 0 && !Contains(a + sep[..|sep| - 1], sep)
    ensures Split(a + sep + b, sep) == [a] + Split(b, sep)
    decreases |a|
  {
    var s := a + sep + b;
    var u := a + sep[..|sep| - 1];
    if a == [] {
      assert s[..|sep|] == sep;
      assert s[|sep|..] == b;
    } else {
      assert !OccursAt(u, sep, 0);
      assert u[0..|sep|] == s[..|sep|];
      var tail := a[1..];
      var v := tail + sep[..|sep| - 1];
      forall k
        ensures !OccursAt(v, sep, k)
      {
        assert 0 <= k <= |v| - |sep| ==> v[k..k + |sep|] == u[k + 1..k + 1 + |sep|];
        assert !OccursAt(u, sep, k + 1);
      }
      SplitAtCut(tail, b, sep);
      assert s[1..] == tail + sep + b;
      assert [a[0]] + tail == a;
    }
  }

  /** The split is the only way to cut `s` into pieces that join back to it,
      hold no separator and are cut at leftmost occurrences. */
  lemma {:induction false} SplitUnique(s: string, sep: string, pieces: seq<string>)
    requires |sep| > 0 && |pieces| >= 1
    requires Join(pieces, sep) == s
    requires forall p :: p in pieces ==> !Contains(p, sep)
    requires LeftmostCuts(pieces, sep)
    ensures pieces == Split(s, sep)
    decreases |pieces|
  {
    if |pieces| == 1 {
      SplitNoSeparator(s, sep);
    } else {
      var more := pieces[1..];
      forall i | 0 <= i < |more| - 1
        ensures !Contains(more[i] + sep[..|sep| - 1], sep)
      {
        assert more[i] == pieces[i + 1];
      }
      SplitUnique(Join(more, sep), sep, more);
      assert !Contains(pieces[0] + sep[..|sep| - 1], sep);
      SplitAtCut(pieces[0], Join(more, sep), sep);
      assert pieces == [pieces[0]] + more;
    }
  }

  /** Python's `s.replace(old, new)` for a non-empty `target`: every occurrence,
      found left to right without overlap, is replaced. */
  function Replace(s: string, target: string, replacement: string): string
    requires |target| > 0
    decreases |s|
  {
    if |s| < |target| then s
    else if s[..|target|] == target then replacement + Replace(s[|target|..], target, replacement)
    else [s[0]] + Replace(s[1..], target, replacement)
  }

  /** `replace` cuts where `split` cuts: it is the pieces of the split joined
      with the replacement. */
  lemma {:induction false} ReplaceIsSplitJoin(s: string, target: string, replacement: string)
    requires |target| > 0
    ensures Replace(s, target, replacement) == Join(Split(s, target), replacement)
    decreases |s|
  {
    if |s| < |target| {
    } else if s[..|target|] == target {
      var rest := Split(s[|target|..], target);
      ReplaceIsSplitJoin(s[|target|..], target, replacement);
      assert ([""] + rest)[1..] == rest;
    } else {
      var rest := Split(s[1..], target);
      ReplaceIsSplitJoin(s[1..], target, replacement);
      JoinPrepend(s[0], rest, replacement);
    }
  }

  /** A string without `target` has none in its tail either. */
  lemma ShiftedAbsent(s: string, target: string)
    requires |s| > 0 && !Contains(s, target)
    ensures !Contains(s[1..], target)
  {
    forall k | OccursAt(s[1..], target, k)
      ensures OccursAt(s, target, k + 1)
    {
      assert s[1..][k..k + |target|] == s[k + 1..k + 1 + |target|];
    }
  }

  /** A string in which `target` does not occur is left as it is. */
  lemma {:induction false} ReplaceAbsent(s: string, target: string, replacement: string)
    requires |target| > 0
    requires !Contains(s, target)
    ensures Replace(s, target, replacement) == s
    decreases |s|
  {
    if |s| < |target| {
    } else {
      assert !OccursAt(s, target, 0);
      assert s[0..|target|] == s[..|target|];
      ShiftedAbsent(s, target);
      ReplaceAbsent(s[1..], target, replacement);
      assert s == [s[0]] + s[1..];
    }
  }

  /** Python's `a <= b` on two `str` values: code-point lexicographic order,
      a proper prefix coming first. */
  predicate LessOrEqual(a: string, b: string)
    decreases |a|
  {
    |a| == 0 || (|b| > 0 && (a[0] < b[0] || (a[0] == b[0] && LessOrEqual(a[1..], b[1..]))))
  }

  lemma {:induction false} LessOrEqualReflexive(a: string)
    ensures LessOrEqual(a, a)
    decreases |a|
  {
    if |a| > 0 { LessOrEqualReflexive(a[1..]); }
  }

  lemma {:induction false} LessOrEqualTotal(a: string, b: string)
    ensures LessOrEqual(a, b) || LessOrEqual(b, a)
    decreases |a|
  {
    if |a| > 0 && |b| > 0 && a[0] == b[0] { LessOrEqualTotal(a[1..], b[1..]); }
  }

  lemma {:induction false} LessOrEqualAntisymmetric(a: string, b: string)
    requires LessOrEqual(a, b) && LessOrEqual(b, a)
    ensures a == b
    decreases |a|
  {
    if |a| > 0 {
      LessOrEqualAntisymmetric(a[1..], b[1..]);
      assert a == [a[0]] + a[1..] && b == [b[0]] + b[1..];
    }
  }

  lemma {:induction false} LessOrEqualTransitive(a: string, b: string, c: string)
    requires LessOrEqual(a, b) && LessOrEqual(b, c)
    ensures LessOrEqual(a, c)
    decreases |a|
  {
    if |a| > 0 && a[0] == b[0] && b[0] == c[0] {
      LessOrEqualTransitive(a[1..], b[1..], c[1..]);
    }
  }

  /** The empty string is the least string. */
  lemma AtMostEmptyIsEmpty(a: string)
    requires LessOrEqual(a, "")
    ensures a == ""
  {
  }
}
