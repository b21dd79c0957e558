/**
 * The string operations the core relies on, with Python's `str` semantics:
 * `split(sep)` (left to right, non-overlapping), joining the pieces back and
 * `strip()` with no argument. `Find`, the first occurrence at or after a
 * position, is the scan `split` makes and the search for the first tag.
 */
module Text {

  /** `p` occurs in `s` starting at index `i`. */
  predicate OccursAt(s: string, p: string, i: int) {
    0 <= i && i + |p| <= |s| && s[i..i + |p|] == p
  }

  /** `p in s` */
  predicate Contains(s: string, p: string) {
    exists i | 0 <= i <= |s| :: OccursAt(s, p, i)
  }

  /** The first occurrence of `p` at or after `start`, or -1, as `s.find(p, start)` gives it. */
  function Find(s: string, p: string, start: nat): (r: int)
    ensures r == -1 || start <= r
    ensures r >= 0 ==> r + |p| <= |s| && OccursAt(s, p, r)
    decreases |s| - start
  {
    if start + |p| > |s| then -1
    else if s[start..start + |p|] == p then start
    else Find(s, p, start + 1)
  }

  /** `Find` gives the first occurrence: none starts between `start` and it. */
  lemma {:induction false} FindFirst(s: string, p: string, start: nat)
    ensures var r := Find(s, p, start);
      forall j :: start <= j && (r < 0 || j < r) ==> !OccursAt(s, p, j)
    decreases |s| - start
  {
    if start + |p| <= |s| && s[start..start + |p|] != p {
      FindFirst(s, p, start + 1);
    }
  }

  /** An occurrence inside a slice is an occurrence in the whole string. */
  lemma OccursInSlice(s: string, p: string, a: nat, b: nat, k: int)
    requires a <= b <= |s|
    requires OccursAt(s[a..b], p, k)
    ensures OccursAt(s, p, a + k)
  {
    assert k + |p| <= b - a;
    forall t | 0 <= t < |p|
      ensures s[a + k..a + k + |p|][t] == p[t]
    {
      assert s[a..b][k..k + |p|][t] == p[t];
    }
  }

  /** A string with no occurrence of `p` has none in any of its slices. */
  lemma NoneInSlice(s: string, p: string, a: nat, b: nat)
    requires a <= b <= |s|
    requires !Contains(s, p)
    ensures !Contains(s[a..b], p)
  {
    if Contains(s[a..b], p) {
      var k :| OccursAt(s[a..b], p, k);
      OccursInSlice(s, p, a, b, k);
    }
  }

  /** `Find` is pinned down by an occurrence with none before it. */
  lemma FindIs(s: string, p: string, start: nat, i: nat)
    requires start <= i && OccursAt(s, p, i)
    requires forall j :: start <= j < i ==> !OccursAt(s, p, j)
    ensures Find(s, p, start) == i
  {
    FindFirst(s, p, start);
  }

  /** The pieces of `s[start..]` split at `sep`, scanning left to right. */
  function SplitFrom(s: string, sep: string, start: nat): (parts: seq<string>)
    requires sep != [] && start <= |s|
    ensures |parts| >= 1
    ensures forall k :: 0 <= k < |parts| ==> !Contains(parts[k], sep)
    decreases |s| - start
  {
    FindFirst(s, sep, start);
    var i := Find(s, sep, start);
    if i < 0 then
      assert !Contains(s[start..], sep) by {
        if Contains(s[start..], sep) {
          assert s[start..] == s[start..|s|];
          var k :| OccursAt(s[start..], sep, k);
          OccursInSlice(s, sep, start, |s|, k);
        }
      }
      [s[start..]]
    else
      assert !Contains(s[start..i], sep) by {
        if Contains(s[start..i], sep) {
          var k :| OccursAt(s[start..i], sep, k);
          OccursInSlice(s, sep, start, i, k);
        }
      }
      [s[start..i]] + SplitFrom(s, sep, i + |sep|)
  }

  /** No occurrence of `p` starts where `p`'s first character is absent. */
  lemma NoOccurrenceWithoutHead(s: string, p: string, a: nat, b: nat)
    requires p != [] && a <= b <= |s|
    requires forall k :: a <= k < b ==> s[k] != p[0]
    ensures forall j :: a <= j < b ==> !OccursAt(s, p, j)
  {
    forall j | a <= j < b
      ensures !OccursAt(s, p, j)
    {
      if j + |p| <= |s| {
        assert s[j..j + |p|][0] == s[j] != p[0];
      }
    }
  }

  /** `s.split(sep)` for a non-empty separator; no piece contains `sep`. */
  function Split(s: string, sep: string): (parts: seq<string>)
    requires sep != []
    ensures |parts| >= 1
    ensures forall k :: 0 <= k < |parts| ==> !Contains(parts[k], sep)
  {
    SplitFrom(s, sep, 0)
  }

  /** Splitting leaves the string whole exactly when the separator is absent. */
  lemma SplitWhole(s: string, sep: string)
    requires sep != []
    ensures Split(s, sep) == [s] <==> !Contains(s, sep)
  {
    FindFirst(s, sep, 0);
    var i := Find(s, sep, 0);
    if i >= 0 {
      assert |Split(s, sep)| >= 2;
    } else {
      assert s[0..] == s;
    }
  }

  /** The first piece is what precedes the first occurrence, or the whole string. */
  lemma FirstPiece(s: string, sep: string)
    requires sep != []
    ensures var i := Find(s, sep, 0);
      Split(s, sep)[0] == if i < 0 then s else s[..i]
  {
    assert s[0..] == s;
  }

  /** `sep.join(parts)` */
  function Join(parts: seq<string>, sep: string): string
    requires |parts| >= 1
  {
    if |parts| == 1 then parts[0] else parts[0] + sep + Join(parts[1..], sep)
  }

  /** `xs[-1]` */
  function Last<T>(xs: seq<T>): T
    requires |xs| >= 1
  {
    xs[|xs| - 1]
  }

  /** One step of `SplitFrom` at the first separator `i`: the piece before it, then the rest. */
  lemma SplitStep(s: string, sep: string, start: nat, i: int)
    requires sep != [] && start <= |s| && i == Find(s, sep, start) && i >= 0
    ensures start <= i && i + |sep| <= |s| && s[i..i + |sep|] == sep
    ensures SplitFrom(s, sep, start) == [s[start..i]] + SplitFrom(s, sep, i + |sep|)
  {
  }

  /** When the pieces after the first separator join back to the rest, all the pieces join back to `s[start..]`. */
  lemma JoinSplitStep(s: string, sep: string, start: nat, i: int)
    requires sep != [] && start <= |s| && i == Find(s, sep, start) && i >= 0
    requires JoinsBack(s, sep, i + |sep|)
    ensures JoinsBack(s, sep, start)
  {
    SplitStep(s, sep, start, i);
    JoinCons(s[start..i], SplitFrom(s, sep, i + |sep|), sep);
    Reassemble(s, sep, start, i);
  }

  /** Without a separator from `start` on, the one piece is `s[start..]` itself. */
  lemma JoinSplitNone(s: string, sep: string, start: nat)
    requires sep != [] && start <= |s| && Find(s, sep, start) < 0
    ensures JoinsBack(s, sep, start)
  {
    assert SplitFrom(s, sep, start) == [s[start..]];
  }

  /** The pieces of `s[start..]` join back to it. */
  predicate JoinsBack(s: string, sep: string, start: nat)
    requires sep != [] && start <= |s|
  {
    Join(SplitFrom(s, sep, start), sep) == s[start..]
  }

  lemma {:induction false} JoinSplitFrom(s: string, sep: string, start: nat)
    requires sep != [] && start <= |s|
    ensures JoinsBack(s, sep, start)
    decreases |s| - start
  {
    var i := Find(s, sep, start);
    if i >= 0 {
      JoinSplitFrom(s, sep, i + |sep|);
      JoinSplitStep(s, sep, start, i);
    } else {
      JoinSplitNone(s, sep, start);
    }
  }

  /** Putting an element in front keeps the last one. */
  lemma LastOfCons<T>(x: T, xs: seq<T>)
    requires |xs| >= 1
    ensures Last([x] + xs) == Last(xs)
  {
  }

  /** Joining a piece in front of others puts `sep` between it and their join. */
  lemma JoinCons(x: string, tail: seq<string>, sep: string)
    requires |tail| >= 1
    ensures Join([x] + tail, sep) == x + sep + Join(tail, sep)
  {
    assert ([x] + tail)[1..] == tail;
  }

  /** The slice before an occurrence of `sep`, `sep` and the slice after it make up `s[start..]`. */
  lemma Reassemble(s: string, sep: string, start: nat, i: nat)
    requires start <= i && i + |sep| <= |s| && s[i..i + |sep|] == sep
    ensures s[start..i] + sep + s[i + |sep|..] == s[start..]
  {
    assert s[start..] == s[start..i] + s[i..i + |sep|] + s[i + |sep|..];
  }

  /** Splitting and joining with the same separator gives the string back. */
  lemma JoinSplit(s: string, sep: string)
    requires sep != []
    ensures Join(Split(s, sep), sep) == s
  {
    JoinSplitFrom(s, sep, 0);
    assert s[0..] == s;
  }

  /** Joining two or more pieces puts the last one after all the others and a separator. */
  lemma {:induction false} JoinLast(parts: seq<string>, sep: string)
    requires |parts| >= 2
    ensures Join(parts, sep) == Join(parts[..|parts| - 1], sep) + sep + Last(parts)
    decreases |parts|
  {
    if |parts| == 2 {
      assert parts[..1] == [parts[0]];
    } else {
      var tail := parts[1..];
      JoinLast(tail, sep);
      var init := parts[..|parts| - 1];
      assert init[1..] == tail[..|tail| - 1];
      assert Join(init, sep) == parts[0] + sep + Join(tail[..|tail| - 1], sep);
    }
  }

  /**
   * `s.split(sep)[-1]` is a suffix of `s` free of `sep`; it is all of `s`
   * or it is preceded by `sep`.
   */
  lemma LastPieceIsSuffix(s: string, sep: string)
    requires sep != []
    ensures var l := Last(Split(s, sep));
      |l| <= |s| && l == s[|s| - |l|..] && !Contains(l, sep) &&
      (l == s || OccursAt(s, sep, |s| - |l| - |sep|))
  {
    var parts := Split(s, sep);
    var l := Last(parts);
    JoinSplit(s, sep);
    if |parts| >= 2 {
      JoinLast(parts, sep);
      var a := Join(parts[..|parts| - 1], sep);
      assert s == a + sep + l;
      assert s[|a|..|a| + |sep|] == sep;
      assert s[|a| + |sep|..] == l;
    }
  }

  /** `p` starts with a character that does not occur again in it, as `<tag>` does. */
  predicate UniqueHead(p: string) {
    |p| > 0 && forall k :: 0 < k < |p| ==> p[k] != p[0]
  }

  /** Two occurrences of a unique-headed pattern never overlap. */
  lemma NoOverlap(s: string, p: string, j: nat, m: nat)
    requires UniqueHead(p) && j < m
    ensures OccursAt(s, p, j) && OccursAt(s, p, m) ==> j + |p| <= m
  {
    if m < j + |p| {
      var d := m - j;
      assert p[d] != p[0];
      assert OccursAt(s, p, m) ==> s[m..m + |p|][0] == s[m];
      assert OccursAt(s, p, j) ==> s[j..j + |p|][d] == s[m];
    }
  }

  /** The last piece of the split from `start` is `s[k..]`. */
  predicate LastPieceIs(s: string, sep: string, start: nat, k: nat)
    requires sep != [] && start <= |s| && k <= |s|
  {
    Last(SplitFrom(s, sep, start)) == s[k..]
  }

  /** A separator found first at `i` does not change the last piece. */
  lemma LastPieceStep(s: string, sep: string, start: nat, i: int, k: nat)
    requires sep != [] && start <= |s| && k <= |s| && i == Find(s, sep, start) && i >= 0
    requires LastPieceIs(s, sep, i + |sep|, k)
    ensures LastPieceIs(s, sep, start, k)
  {
    SplitStep(s, sep, start, i);
    LastOfCons(s[start..i], SplitFrom(s, sep, i + |sep|));
  }

  /** Without a separator from `k` on, the last piece is `s[k..]`. */
  lemma LastPieceNone(s: string, sep: string, k: nat)
    requires sep != [] && k <= |s| && Find(s, sep, k) < 0
    ensures LastPieceIs(s, sep, k, k)
  {
    assert SplitFrom(s, sep, k) == [s[k..]];
  }

  /**
   * When a unique-headed `sep` last occurs at `m`, the last piece of the
   * split is what follows that occurrence.
   */
  lemma {:induction false} LastPieceAt(s: string, sep: string, start: nat, m: nat)
    requires UniqueHead(sep) && start <= m && OccursAt(s, sep, m)
    requires forall j :: m < j ==> !OccursAt(s, sep, j)
    ensures LastPieceIs(s, sep, start, m + |sep|)
    decreases |s| - start
  {
    FindFirst(s, sep, start);
    var i := Find(s, sep, start);
    assert start <= i <= m;
    if i == m {
      LastPieceNone(s, sep, m + |sep|);
    } else {
      NoOverlap(s, sep, i, m);
      LastPieceAt(s, sep, i + |sep|, m);
    }
    LastPieceStep(s, sep, start, i, m + |sep|);
  }

  /**
   * When `p` has a unique head and does not occur in `a`, its first occurrence
   * in `a + p + b` is the one right after `a`.
   */
  lemma FirstOccurrenceAfter(a: string, p: string, b: string)
    requires UniqueHead(p) && !Contains(a, p)
    ensures Find(a + p + b, p, 0) == |a|
  {
    var s := a + p + b;
    assert OccursAt(s, p, |a|) by { assert s[|a|..|a| + |p|] == p; }
    forall j | 0 <= j < |a|
      ensures !OccursAt(s, p, j)
    {
      NoOverlap(s, p, j, |a|);
      if j + |p| <= |a| {
        assert s[j..j + |p|] == a[j..j + |p|];
        assert !OccursAt(a, p, j);
      }
    }
    FindIs(s, p, 0, |a|);
  }

  /**
   * With `p` of unique head and `b` free of `p`, the last piece of
   * `(a + p + b).split(p)` is `b`, whatever `a` holds.
   */
  lemma LastPieceAfter(a: string, p: string, b: string)
    requires UniqueHead(p) && !Contains(b, p)
    ensures Last(Split(a + p + b, p)) == b
  {
    var s := a + p + b;
    var m := |a|;
    assert OccursAt(s, p, m) by { assert s[m..m + |p|] == p; }
    forall j | m < j
      ensures !OccursAt(s, p, j)
    {
      NoOverlap(s, p, m, j);
      if m + |p| <= j && j + |p| <= |s| {
        assert s[j..j + |p|] == b[j - m - |p|..j - m];
        assert !OccursAt(b, p, j - m - |p|);
      }
    }
    LastPieceAt(s, p, 0, m);
    assert s[m + |p|..] == b;
  }

  /** Whitespace as Python's `str.isspace` defines it. */
  predicate IsSpace(c: char) {
    ('\t' <= c <= '\r') || ('\U{1C}' <= c <= '\U{1F}') || c == ' ' ||
    c == '\U{85}' || c == '\U{A0}' || c == '\U{1680}' ||
    ('\U{2000}' <= c <= '\U{200A}') || c == '\U{2028}' || c == '\U{2029}' ||
    c == '\U{202F}' || c == '\U{205F}' || c == '\U{3000}'
  }

  predicate AllSpace(s: string) {
    forall k :: 0 <= k < |s| ==> IsSpace(s[k])
  }

  lemma SpaceThen(c: char, t: string)
    requires IsSpace(c) && AllSpace(t)
    ensures AllSpace([c] + t)
  {
    assert forall k :: 0 < k < |t| + 1 ==> ([c] + t)[k] == t[k - 1];
  }

  lemma SpaceBefore(t: string, c: char)
    requires AllSpace(t) && IsSpace(c)
    ensures AllSpace(t + [c])
  {
    assert forall k :: 0 <= k < |t| ==> (t + [c])[k] == t[k];
  }

  /** `s.lstrip()` */
  function LStrip(s: string): (r: string)
    ensures |r| <= |s| && r == s[|s| - |r|..]
    ensures AllSpace(s[..|s| - |r|])
    ensures r == [] || !IsSpace(r[0])
  {
    if s != [] && IsSpace(s[0]) then
      var r := LStrip(s[1..]);
      assert s[..|s| - |r|] == [s[0]] + s[1..][..|s| - 1 - |r|];
      SpaceThen(s[0], s[1..][..|s| - 1 - |r|]);
      r
    else
      s
  }

  /** `s.rstrip()` */
  function RStrip(s: string): (r: string)
    ensures |r| <= |s| && r == s[..|r|]
    ensures AllSpace(s[|r|..])
    ensures r == [] || !IsSpace(r[|r| - 1])
  {
    if s != [] && IsSpace(s[|s| - 1]) then
      var r := RStrip(s[..|s| - 1]);
      assert s[|r|..] == s[..|s| - 1][|r|..] + [s[|s| - 1]];
      SpaceBefore(s[..|s| - 1][|r|..], s[|s| - 1]);
      r
    else
      s
  }

  /** `r` is the slice of `s` from `i`, with only whitespace before and after it. */
  predicate SpaceAround(s: string, r: string, i: int) {
    0 <= i && i + |r| <= |s| && r == s[i..i + |r|] && AllSpace(s[..i]) && AllSpace(s[i + |r|..])
  }

  /**
   * `s.strip()`: `s` with leading and trailing whitespace cut; what is left
   * is a slice of `s` with only whitespace around it, neither starts nor
   * ends with whitespace, and a string that already does neither is left
   * as it is.
   */
  function Strip(s: string): (r: string)
    ensures |r| <= |s|
    ensures exists i :: SpaceAround(s, r, i)
    ensures r == [] || (!IsSpace(r[0]) && !IsSpace(r[|r| - 1]))
    ensures (s == [] || (!IsSpace(s[0]) && !IsSpace(s[|s| - 1]))) ==> r == s
  {
    StripCut(s, LStrip(s), RStrip(LStrip(s)));
    RStrip(LStrip(s))
  }

  /**
   * Cutting leading whitespace from `s` to give `l`, then trailing
   * whitespace from `l` to give `r`, leaves a slice of `s` with only
   * whitespace around it.
   */
  lemma StripCut(s: string, l: string, r: string)
    requires |l| <= |s| && l == s[|s| - |l|..] && AllSpace(s[..|s| - |l|])
    requires |r| <= |l| && r == l[..|r|] && AllSpace(l[|r|..])
    ensures SpaceAround(s, r, |s| - |l|)
  {
    PrefixOfSuffix(s, l, r);
  }

  /** A prefix of a suffix of `s` is the slice of `s` between them. */
  lemma PrefixOfSuffix(s: string, l: string, r: string)
    requires |l| <= |s| && l == s[|s| - |l|..]
    requires |r| <= |l| && r == l[..|r|]
    ensures var i := |s| - |l|;
      r == s[i..i + |r|] && s[i + |r|..] == l[|r|..]
  {
  }

  /** Stripping is idempotent. */
  lemma StripStrip(s: string)
    ensures Strip(Strip(s)) == Strip(s)
  {
    var r := Strip(s);
    assert LStrip(r) == r;
    assert RStrip(r) == r;
  }

  /** A slice of a string free of `p` is free of `p`; in particular its strip. */
  lemma StripKeepsAbsence(s: string, p: string)
    requires !Contains(s, p)
    ensures !Contains(Strip(s), p)
  {
    var l := LStrip(s);
    NoneInSlice(s, p, |s| - |l|, |s|);
    assert l == s[|s| - |l|..|s|];
    NoneInSlice(l, p, 0, |RStrip(l)|);
  }
}
