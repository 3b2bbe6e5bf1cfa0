/**
 * The few Python string operations the parsers are built from, on `string`
 * (`seq<char>`): `str.strip`, `str.split(sep)`, `sep.join(parts)`,
 * `str.replace(target, '')` and `target in s`.
 */
module Text {
  import opened Wrappers

  /** Python's `str.isspace()` for one character: the characters `str.strip()` removes. */
  predicate IsSpace(c: char) {
    || c == ' '
    || ('\t' <= c <= '\r')
    || ('\U{1C}' <= c <= '\U{1F}')
    || c == '\U{85}' || c == '\U{A0}' || c == '\U{1680}'
    || ('\U{2000}' <= c <= '\U{200A}')
    || c == '\U{2028}' || c == '\U{2029}' || c == '\U{202F}' || c == '\U{205F}' || c == '\U{3000}'
  }

  predicate IsQuote(c: char) {
    c == '"'
  }

  ghost predicate All(s: string, drop: char -> bool) {
    forall k :: 0 <= k < |s| ==> drop(s[k])
  }

  /** `r` is `s` with a run of `drop` characters cut from each end, and `r` has none left at either end. */
  ghost predicate TrimmedAt(s: string, r: string, i: nat, drop: char -> bool) {
    && i + |r| <= |s|
    && s[i..i + |r|] == r
    && All(s[..i], drop)
    && All(s[i + |r|..], drop)
  }

  /** Python's `s.strip(chars)`, where `drop` says which characters are in `chars`. */
  function StripBy(s: string, drop: char -> bool): (r: string)
    ensures |r| <= |s|
    ensures r == [] || (!drop(r[0]) && !drop(r[|r| - 1]))
    decreases |s|
  {
    if |s| == 0 then s
    else if drop(s[0]) then StripBy(s[1..], drop)
    else if drop(s[|s| - 1]) then StripBy(s[..|s| - 1], drop)
    else s
  }

  /** Python's `s.strip()`. */
  function Strip(s: string): string {
    StripBy(s, IsSpace)
  }

  /** Python's `s.strip('"')`. */
  function StripQuotes(s: string): string {
    StripBy(s, IsQuote)
  }

  lemma TrimmedShiftLeft(s: string, r: string, i: nat, drop: char -> bool)
    requires |s| > 0 && drop(s[0]) && TrimmedAt(s[1..], r, i, drop)
    ensures TrimmedAt(s, r, i + 1, drop)
  {
    assert s[1..][i..i + |r|] == s[i + 1..i + 1 + |r|];
    assert s[i + 1 + |r|..] == s[1..][i + |r|..];
    var pre := s[..i + 1];
    forall k | 0 <= k < |pre| ensures drop(pre[k]) {
      if k > 0 {
        assert pre[k] == s[1..][..i][k - 1];
      }
    }
  }

  lemma TrimmedShiftRight(s: string, r: string, i: nat, drop: char -> bool)
    requires |s| > 0 && drop(s[|s| - 1]) && TrimmedAt(s[..|s| - 1], r, i, drop)
    ensures TrimmedAt(s, r, i, drop)
  {
    var t := s[..|s| - 1];
    assert t[i..i + |r|] == s[i..i + |r|];
    assert s[..i] == t[..i];
    var post := s[i + |r|..];
    forall k | 0 <= k < |post| ensures drop(post[k]) {
      if k < |t| - (i + |r|) {
        assert post[k] == t[i + |r|..][k];
      }
    }
  }

  /** What strip removes is exactly a leading and a trailing run of dropped characters. */
  lemma {:induction false} StripByTrims(s: string, drop: char -> bool)
    ensures exists i: nat :: TrimmedAt(s, StripBy(s, drop), i, drop)
    decreases |s|
  {
    var r := StripBy(s, drop);
    if |s| == 0 {
      assert TrimmedAt(s, r, 0, drop);
    } else if drop(s[0]) {
      StripByTrims(s[1..], drop);
      var i: nat :| TrimmedAt(s[1..], r, i, drop);
      TrimmedShiftLeft(s, r, i, drop);
    } else if drop(s[|s| - 1]) {
      StripByTrims(s[..|s| - 1], drop);
      var i: nat :| TrimmedAt(s[..|s| - 1], r, i, drop);
      TrimmedShiftRight(s, r, i, drop);
    } else {
      assert s[0..0 + |r|] == s;
      assert TrimmedAt(s, r, 0, drop);
    }
  }

  /** Conversely, stripping a padded string gives back exactly the unpadded core. */
  lemma {:induction false} StripByPadded(a: string, b: string, c: string, drop: char -> bool)
    requires All(a, drop) && All(c, drop)
    requires b == [] || (!drop(b[0]) && !drop(b[|b| - 1]))
    ensures StripBy(a + b + c, drop) == b
    decreases |a| + |c|
  {
    var s := a + b + c;
    if |a| > 0 {
      assert s[0] == a[0] && drop(a[0]);
      assert s[1..] == a[1..] + b + c;
      StripByPadded(a[1..], b, c, drop);
      assert StripBy(s, drop) == StripBy(s[1..], drop);
    } else if |b| == 0 && |c| > 0 {
      assert s == c && s[1..] == [] + [] + c[1..];
      assert drop(c[0]);
      StripByPadded([], [], c[1..], drop);
      assert StripBy(s, drop) == StripBy(s[1..], drop);
    } else if |c| > 0 {
      assert s[0] == b[0];
      assert s[|s| - 1] == c[|c| - 1] && drop(c[|c| - 1]);
      assert s[..|s| - 1] == a + b + c[..|c| - 1];
      StripByPadded(a, b, c[..|c| - 1], drop);
      assert StripBy(s, drop) == StripBy(s[..|s| - 1], drop);
    } else {
      assert s == b;
    }
  }

  /** Stripping twice strips nothing more. */
  lemma StripByIdempotent(s: string, drop: char -> bool)
    ensures StripBy(StripBy(s, drop), drop) == StripBy(s, drop)
  {
    StripByPadded([], StripBy(s, drop), [], drop);
    assert [] + StripBy(s, drop) + [] == StripBy(s, drop);
  }

  // ---------------------------------------------------------------- substrings

  predicate OccursAt(s: string, pat: string, i: nat) {
    i + |pat| <= |s| && s[i..i + |pat|] == pat
  }

  /** Python's `pat in s`. */
  predicate Contains(s: string, pat: string) {
    exists i: nat :: i <= |s| && OccursAt(s, pat, i)
  }

  /** For a one-character pattern, occurrence is plain membership. */
  lemma ContainsChar(s: string, c: char)
    ensures Contains(s, [c]) <==> c in s
  {
    if c in s {
      var k :| 0 <= k < |s| && s[k] == c;
      assert s[k..k + 1] == [c];
      assert OccursAt(s, [c], k);
    }
    if Contains(s, [c]) {
      var k: nat :| k <= |s| && OccursAt(s, [c], k);
      assert s[k] == s[k..k + 1][0] == c;
    }
  }

  /** The leftmost occurrence of `pat` in `s` at or after `from`, as `str.find` looks for it. */
  function Find(s: string, pat: string, from: nat): (r: Option<nat>)
    requires from <= |s|
    ensures r.Some? ==> from <= r.value && OccursAt(s, pat, r.value)
    ensures r.Some? ==> forall k: nat :: from <= k < r.value ==> !OccursAt(s, pat, k)
    ensures r.None? <==> forall k: nat :: from <= k <= |s| ==> !OccursAt(s, pat, k)
    decreases |s| - from
  {
    if OccursAt(s, pat, from) then Some(from)
    else if from == |s| then None
    else Find(s, pat, from + 1)
  }

  /** The first occurrence, once known, is what `Find` reports. */
  lemma FindFirst(s: string, pat: string, m: nat)
    requires OccursAt(s, pat, m)
    requires forall k: nat :: k < m ==> !OccursAt(s, pat, k)
    ensures Find(s, pat, 0) == Some(m)
  {
  }

  lemma NoOccurrenceInPrefix(s: string, pat: string, m: nat)
    requires |pat| > 0 && m <= |s|
    requires forall k: nat :: k < m ==> !OccursAt(s, pat, k)
    ensures !Contains(s[..m], pat)
  {
    forall j: nat | j <= m && OccursAt(s[..m], pat, j)
      ensures false
    {
      assert s[..m][j..j + |pat|] == s[j..j + |pat|];
      assert OccursAt(s, pat, j);
    }
  }

  /** A concatenation taken apart at the seam. */
  lemma SplitConcat(a: string, b: string)
    ensures (a + b)[..|a|] == a && (a + b)[|a|..] == b
  {
  }

  /** Python's `sep.join(parts)`. */
  function Join(parts: seq<string>, sep: string): string {
    if |parts| == 0 then ""
    else if |parts| == 1 then parts[0]
    else parts[0] + sep + Join(parts[1..], sep)
  }

  /** Python's `s.split(sep)` for a non-empty separator: the pieces between the
      occurrences of `sep`, found left to right without overlap. */
  function Split(s: string, sep: string): (parts: seq<string>)
    requires |sep| > 0
    ensures |parts| >= 1
    ensures Join(parts, sep) == s
    ensures forall k :: 0 <= k < |parts| ==> !Contains(parts[k], sep)
    decreases |s|
  {
    match Find(s, sep, 0)
    case None =>
      assert forall k: nat :: k <= |s| ==> !OccursAt(s, sep, k);
      [s]
    case Some(m) =>
      NoOccurrenceInPrefix(s, sep, m);
      var rest := Split(s[m + |sep|..], sep);
      assert s == s[..m] + sep + s[m + |sep|..] by {
        assert s[m..m + |sep|] == sep;
      }
      assert ([s[..m]] + rest)[1..] == rest;
      [s[..m]] + rest
  }

  /** With a one-character separator, splitting undoes joining. */
  lemma {:induction false} SplitJoin(parts: seq<string>, sep: string)
    requires |sep| == 1 && |parts| >= 1
    requires forall k :: 0 <= k < |parts| ==> !Contains(parts[k], sep)
    ensures Split(Join(parts, sep), sep) == parts
    decreases |parts|
  {
    var a := parts[0];
    if |parts| == 1 {
      assert Find(a, sep, 0).None? by {
        forall k: nat | k <= |a| ensures !OccursAt(a, sep, k) {
          assert !(k <= |a| && OccursAt(a, sep, k));
        }
      }
    } else {
      var rest := Join(parts[1..], sep);
      var s := a + sep + rest;
      assert s == Join(parts, sep);
      FindAfterFirst(a, sep, rest);
      assert s[|a| + 1..] == rest;
      SplitJoin(parts[1..], sep);
      assert parts == [a] + parts[1..];
    }
  }

  /** A one-character separator right after a piece without it is the first occurrence. */
  lemma FindAfterFirst(a: string, sep: string, rest: string)
    requires |sep| == 1 && !Contains(a, sep)
    ensures Find(a + sep + rest, sep, 0) == Some(|a|)
  {
    var s := a + sep + rest;
    forall k: nat | k < |a| ensures !OccursAt(s, sep, k) {
      assert !OccursAt(a, sep, k);
      assert s[k..k + 1] == a[k..k + 1];
    }
    assert s[|a|..|a| + 1] == sep;
    FindFirst(s, sep, |a|);
  }

  /** Python's `s.replace(old, '')`: find the leftmost occurrence, delete it,
      and carry on after it, so every non-overlapping occurrence found left to
      right goes. */
  function RemoveAll(s: string, target: string): (r: string)
    requires |target| > 0
    // with nothing to delete the text is unchanged; otherwise it gets shorter
    ensures !Contains(s, target) ==> r == s
    ensures Contains(s, target) <==> |r| < |s|
    decreases |s|
  {
    match Find(s, target, 0)
    case None => s
    case Some(m) => s[..m] + RemoveAll(s[m + |target|..], target)
  }

  /** The same text as `''.join(s.split(old))`, the other way Python spells it. */
  lemma {:induction false} RemoveAllIsJoinSplit(s: string, target: string)
    requires |target| > 0
    ensures RemoveAll(s, target) == Join(Split(s, target), "")
    decreases |s|
  {
    match Find(s, target, 0)
    case None =>
    case Some(m) =>
      var rest := s[m + |target|..];
      RemoveAllIsJoinSplit(rest, target);
      SplitAtFirst(s, target, m);
      JoinFront(s[..m], Split(rest, target));
  }

  /** `replace` deletes the leftmost occurrence and carries on after it: when
      the first occurrence of `target` starts right after `a`, the result is
      `a` followed by the result for what comes after that occurrence. */
  lemma RemoveAllFirst(a: string, target: string, b: string)
    requires |target| > 0
    requires forall k: nat :: k < |a| ==> !OccursAt(a + target + b, target, k)
    ensures RemoveAll(a + target + b, target) == a + RemoveAll(b, target)
  {
    var s := a + target + b;
    assert s[|a|..|a| + |target|] == target;
    FindFirst(s, target, |a|);
    assert s[..|a|] == a && s[|a| + |target|..] == b;
  }

  /** A target occurring once, with its first character nowhere else, is cut
      out exactly once. */
  lemma RemoveOne(a: string, t: string, b: string)
    requires |t| > 0 && t[0] !in a && t[0] !in b
    ensures RemoveAll(a + t + b, t) == a + b
  {
    var s := a + t + b;
    forall k: nat | k < |a| ensures !OccursAt(s, t, k) {
      if k + |t| <= |s| {
        assert s[k..k + |t|][0] == a[k];
      }
    }
    RemoveAllFirst(a, t, b);
    forall k: nat | k <= |b| ensures !OccursAt(b, t, k) {
      if k + |t| <= |b| {
        assert b[k..k + |t|][0] == b[k];
      }
    }
  }

  /** Splitting at a known first occurrence. */
  lemma SplitAtFirst(s: string, target: string, m: nat)
    requires |target| > 0 && Find(s, target, 0) == Some(m)
    ensures m + |target| <= |s|
    ensures Split(s, target) == [s[..m]] + Split(s[m + |target|..], target)
  {
  }

  /** Gluing a piece in front of at least one other piece, with nothing between them. */
  lemma JoinFront(a: string, rest: seq<string>)
    requires |rest| >= 1
    ensures Join([a] + rest, "") == a + Join(rest, "")
  {
    var parts := [a] + rest;
    assert |parts| > 1 && parts[0] == a && parts[1..] == rest;
    calc {
      Join(parts, "");
      parts[0] + "" + Join(parts[1..], "");
      { assert a + "" == a; }
      a + Join(rest, "");
    }
  }
}
