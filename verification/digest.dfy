/**
 * The `key=value` scanner both Authorization paths use: Python's
 * `re.findall(r'(\w+)=("[^"]+"|[\w/]+)', s)` followed by `value.strip('"')`,
 * written out as the scan the regex engine performs, with `\w` read as the
 * ASCII class `[A-Za-z0-9_]`.
 */
module DigestParams {
  import opened Wrappers
  import opened Text
  import opened Dicts

  /** `\w` */
  predicate IsWordChar(c: char) {
    ('a' <= c <= 'z') || ('A' <= c <= 'Z') || ('0' <= c <= '9') || c == '_'
  }

  /** `[\w/]` */
  predicate IsBareChar(c: char) {
    IsWordChar(c) || c == '/'
  }

  /** `[^"]` */
  predicate NotQuote(c: char) {
    c != '"'
  }

  /** Length of the longest prefix of `s` whose characters all satisfy `p`. */
  function RunLength(s: string, p: char -> bool): (n: nat)
    ensures n <= |s|
    ensures forall k :: 0 <= k < n ==> p(s[k])
    ensures n == |s| || !p(s[n])
  {
    if |s| == 0 || !p(s[0]) then 0 else 1 + RunLength(s[1..], p)
  }

  /** A run length is determined by where the run stops. */
  lemma RunLengthIs(s: string, p: char -> bool, n: nat)
    requires n <= |s|
    requires forall k :: 0 <= k < n ==> p(s[k])
    requires n == |s| || !p(s[n])
    ensures RunLength(s, p) == n
  {
  }

  /** One match: the key group and the value group, quotes still on. */
  datatype Pair = Pair(key: string, raw: string)

  /** `"[^"]+"`: a double-quoted, non-empty run of non-quote characters. */
  predicate IsQuoted(raw: string) {
    && |raw| >= 3
    && raw[0] == '"' && raw[|raw| - 1] == '"'
    && forall k :: 0 < k < |raw| - 1 ==> raw[k] != '"'
  }

  /** `[\w/]+` */
  predicate IsBare(raw: string) {
    |raw| > 0 && forall k :: 0 <= k < |raw| ==> IsBareChar(raw[k])
  }

  /** What every match of the pattern looks like. */
  predicate WellFormed(p: Pair) {
    && |p.key| > 0
    && (forall k :: 0 <= k < |p.key| ==> IsWordChar(p.key[k]))
    && (IsQuoted(p.raw) || IsBare(p.raw))
  }

  /** The value group `("[^"]+"|[\w/]+)` tried at the start of `v`: the
      alternatives in order, the quoted one first. */
  function MatchValue(v: string): (r: Option<string>)
    ensures r.Some? ==> |r.value| <= |v| && v[..|r.value|] == r.value
    ensures r.Some? ==> IsQuoted(r.value) || IsBare(r.value)
    // a bare match takes the whole run of `[\w/]`
    ensures r.Some? && IsBare(r.value) ==> |r.value| == |v| || !IsBareChar(v[|r.value|])
  {
    if |v| > 0 && v[0] == '"' then
      var q := RunLength(v[1..], NotQuote);
      if q == 0 || q + 1 == |v| then None
      else
        assert forall k :: 0 < k < q + 1 ==> v[k] == v[1..][k - 1];
        assert v[..q + 2][0] == '"' && !IsBareChar('"');
        Some(v[..q + 2])
    else
      var b := RunLength(v, IsBareChar);
      if b == 0 then None
      else
        assert IsBare(v[..b]) && v[..b][0] == v[0];
        Some(v[..b])
  }

  /** The value alternatives fail exactly when no prefix of `v` is quoted and
      `v` does not start with a character of `[\w/]`. */
  lemma MatchValueNone(v: string)
    ensures MatchValue(v).None? <==> (forall n: nat :: n <= |v| ==> !IsQuoted(v[..n])) && (|v| == 0 || !IsBareChar(v[0]))
  {
    if |v| > 0 && v[0] == '"' {
      var q := RunLength(v[1..], NotQuote);
      if q == 0 || q + 1 == |v| {
        NoQuotedPrefix(v, q);
      } else {
        assert forall k :: 0 < k < q + 1 ==> v[k] == v[1..][k - 1];
        assert IsQuoted(v[..q + 2]);
      }
    } else if |v| > 0 {
      assert forall n: nat :: 0 < n <= |v| ==> v[..n][0] == v[0];
    }
  }

  /** After an opening quote, a quoted prefix needs a non-quote and then a
      closing quote; a run of non-quotes that is empty or reaches the end has
      neither. */
  lemma NoQuotedPrefix(v: string, q: nat)
    requires |v| > 0 && v[0] == '"'
    requires q <= |v| - 1 && forall k :: 0 <= k < q ==> NotQuote(v[1..][k])
    requires q == |v| - 1 || !NotQuote(v[1..][q])
    requires q == 0 || q + 1 == |v|
    ensures forall n: nat :: n <= |v| ==> !IsQuoted(v[..n])
  {
    forall n: nat | 3 <= n <= |v| ensures !IsQuoted(v[..n]) {
      if q == 0 {
        assert v[..n][1] == v[1..][0] == '"';
      } else {
        assert v[..n][n - 1] == v[1..][n - 2] != '"';
      }
    }
  }

  /** `(\w+)=` can end at `w`: a non-empty run of word characters, then `=`. */
  ghost predicate KeyEndsAt(s: string, w: nat) {
    0 < w < |s| && s[w] == '=' && forall k :: 0 <= k < w ==> IsWordChar(s[k])
  }

  /** A key followed by `=` is the whole run of word characters, so it can end
      at one place only. */
  lemma KeyEndsAtRun(s: string, w: nat)
    requires KeyEndsAt(s, w)
    ensures w == RunLength(s, IsWordChar)
  {
  }

  /** The pattern tried at the start of `s`: the match and its length, if any.
      `\w+` and `[^"]+` are greedy and nothing after them can match the character
      that stops them, so backtracking never finds a shorter match. */
  function MatchHere(s: string): (r: Option<(Pair, nat)>)
    ensures r.Some? ==> 0 < r.value.1 <= |s|
    ensures r.Some? ==> WellFormed(r.value.0)
  {
    var w := RunLength(s, IsWordChar);
    if w == 0 || w == |s| || s[w] != '=' then None
    else
      var v := MatchValue(s[w + 1..]);
      if v.None? then None
      else
        assert s[..w + 1 + |v.value|] == s[..w] + "=" + v.value;
        Some((Pair(s[..w], v.value), w + 1 + |v.value|))
  }

  /** A match is a key that ends at an `=`, followed by what the value
      alternatives match right after that `=`. */
  lemma MatchHereParts(s: string)
    requires MatchHere(s).Some?
    ensures var p := MatchHere(s).value.0;
      && KeyEndsAt(s, |p.key|)
      && p.key == s[..|p.key|]
      && MatchValue(s[|p.key| + 1..]) == Some(p.raw)
      && MatchHere(s).value.1 == |p.key| + 1 + |p.raw|
  {
    assert KeyEndsAt(s, RunLength(s, IsWordChar));
  }

  /** A match reads `key=raw`. */
  lemma MatchHereSome(s: string)
    requires MatchHere(s).Some?
    ensures var (p, n) := MatchHere(s).value;
      s[..n] == p.key + "=" + p.raw
  {
    MatchHereParts(s);
    var p := MatchHere(s).value.0;
    var w := |p.key|;
    var v := s[w + 1..];
    assert v[..|p.raw|] == p.raw;
    assert s[..w + 1 + |p.raw|] == s[..w] + [s[w]] + v[..|p.raw|];
  }

  /** The pattern fails at the start of `s` exactly when no value follows any
      key and its `=`. */
  lemma MatchHereNone(s: string)
    ensures MatchHere(s).None? <==> forall w: nat :: KeyEndsAt(s, w) ==> MatchValue(s[w + 1..]).None?
  {
    var w := RunLength(s, IsWordChar);
    if w == 0 || w == |s| || s[w] != '=' {
      forall w': nat | KeyEndsAt(s, w') ensures false {
        KeyEndsAtRun(s, w');
      }
    } else {
      assert KeyEndsAt(s, w);
      forall w': nat | KeyEndsAt(s, w') ensures w' == w {
        KeyEndsAtRun(s, w');
      }
    }
  }

  /** Every pair of `ps` is well formed and occurs in `s` as `key=raw`. */
  ghost predicate FoundIn(s: string, ps: seq<Pair>) {
    forall k :: 0 <= k < |ps| ==> WellFormed(ps[k]) && Contains(s, ps[k].key + "=" + ps[k].raw)
  }

  // ------------------------------------------------------------ the scan

  /** A pattern tried at the start of a text: the match and its length, if any. */
  type Matcher = string -> Option<(Pair, nat)>

  /** Every match is non-empty and lies inside the text, so the scan moves on. */
  ghost predicate Advances(m: Matcher) {
    forall t :: m(t).Some? ==> 0 < m(t).value.1 <= |t|
  }

  /** One match the scan reports: how many characters of the text are left
      from its start on, the pair, and the length of the match. */
  datatype Hit = Hit(left: nat, pair: Pair, len: nat)

  /** Where in `s` the hit starts. */
  ghost function Start(s: string, h: Hit): int {
    |s| - h.left
  }

  /** No hit of `hs` covers position `q` of `s`. */
  ghost predicate Uncovered(s: string, hs: seq<Hit>, q: nat)
    decreases |hs|
  {
    |hs| == 0 || (!(Start(s, hs[0]) <= q < Start(s, hs[0]) + hs[0].len) && Uncovered(s, hs[1..], q))
  }

  /** The pairs of the hits, in order. */
  function Found(hs: seq<Hit>): (ps: seq<Pair>)
    ensures |ps| == |hs| && forall i :: 0 <= i < |hs| ==> ps[i] == hs[i].pair
  {
    seq(|hs|, i requires 0 <= i < |hs| => hs[i].pair)
  }

  /** Each hit is what `m` matches at its position. */
  ghost predicate HitsMatch(s: string, hs: seq<Hit>, m: Matcher)
    decreases |hs|
  {
    |hs| == 0 ||
    (0 <= Start(s, hs[0]) < |s| && m(s[Start(s, hs[0])..]) == Some((hs[0].pair, hs[0].len)) &&
     HitsMatch(s, hs[1..], m))
  }

  /** The hits come left to right, each starting at or after the end of the one before. */
  ghost predicate HitsOrdered(s: string, hs: seq<Hit>)
    decreases |hs|
  {
    |hs| <= 1 || (Start(s, hs[0]) + hs[0].len <= Start(s, hs[1]) && HitsOrdered(s, hs[1..]))
  }

  /** The first hit, if any, starts at or after `from`. */
  ghost predicate StartsFrom(s: string, from: nat, hs: seq<Hit>) {
    |hs| == 0 || from <= Start(s, hs[0])
  }

  /** `m` fails at every position from `from` on that no hit covers. */
  ghost predicate GapsFail(s: string, from: nat, hs: seq<Hit>, m: Matcher) {
    forall q: nat {:trigger Uncovered(s, hs, q)} :: from <= q < |s| && Uncovered(s, hs, q) ==> m(s[q..]).None?
  }

  /** The hits are what `re.findall` reports for `s` from `from` on: matches
      of `m`, left to right without overlap, starting at or after `from`, and
      `m` fails wherever no hit covers. */
  ghost predicate Leftmost(s: string, from: nat, hs: seq<Hit>, m: Matcher) {
    StartsFrom(s, from, hs) && HitsMatch(s, hs, m) && HitsOrdered(s, hs) && GapsFail(s, from, hs, m)
  }

  /** `re.findall` over a text `t` with the pattern `m`: after a match resume
      at its end, after a failure at the next character. */
  function Scan(t: string, m: Matcher): seq<Hit>
    requires Advances(m)
    decreases |t|
  {
    if |t| == 0 then []
    else match m(t)
      case Some((p, n)) => [Hit(|t|, p, n)] + Scan(t[n..], m)
      case None => Scan(t[1..], m)
  }

  /** The scan finds what `re.findall` finds in `s` from `from` on: each hit is
      a match at its position, the hits come left to right without overlap,
      and the pattern fails at every position no hit covers. */
  lemma {:induction false} ScanIsLeftmost(s: string, from: nat, m: Matcher)
    requires from <= |s| && Advances(m)
    ensures Leftmost(s, from, Scan(s[from..], m), m)
    decreases |s| - from
  {
    if from < |s| {
      var t := s[from..];
      match m(t)
      case Some((p, n)) =>
        assert t[n..] == s[from + n..];
        ScanIsLeftmost(s, from + n, m);
        ScanHit(s, from, p, n, Scan(s[from + n..], m), m);
      case None =>
        assert t[1..] == s[from + 1..];
        ScanIsLeftmost(s, from + 1, m);
        ScanMiss(s, from, Scan(s[from + 1..], m), m);
    }
  }

  /** A match at `from`, then the hits after its end. */
  lemma ScanHit(s: string, from: nat, p: Pair, n: nat, rest: seq<Hit>, m: Matcher)
    requires from < |s| && m(s[from..]) == Some((p, n))
    requires from + n <= |s|
    requires Leftmost(s, from + n, rest, m)
    ensures Leftmost(s, from, [Hit(|s| - from, p, n)] + rest, m)
  {
    var hs := [Hit(|s| - from, p, n)] + rest;
    assert hs[1..] == rest;
    forall q: nat | from <= q < |s| && Uncovered(s, hs, q) ensures m(s[q..]).None? {
      assert Uncovered(s, rest, q);
    }
  }

  /** No match at `from`: the hits are those from the next position on. */
  lemma ScanMiss(s: string, from: nat, rest: seq<Hit>, m: Matcher)
    requires from < |s| && m(s[from..]).None?
    requires Leftmost(s, from + 1, rest, m)
    ensures Leftmost(s, from, rest, m)
  {
  }

  lemma FoundPrepend(h: Hit, hs: seq<Hit>)
    ensures Found([h] + hs) == [h.pair] + Found(hs)
  {
  }

  /** `re.findall`: try the pattern at each position from the left; after a match
      resume at its end, after a failure at the next character. */
  function FindAll(s: string): seq<Pair>
    decreases |s|
  {
    if |s| == 0 then []
    else match MatchHere(s)
      case Some((p, n)) => [p] + FindAll(s[n..])
      case None => FindAll(s[1..])
  }

  /** Every pair `FindAll` reports is well formed and occurs in the text as `key=raw`. */
  lemma {:induction false} FindAllFoundIn(s: string)
    ensures FoundIn(s, FindAll(s))
    decreases |s|
  {
    if |s| > 0 {
      match MatchHere(s)
      case Some((p, n)) =>
        MatchHereSome(s);
        FindAllFoundIn(s[n..]);
        FoundCons(s, p, n, FindAll(s[n..]));
      case None =>
        FindAllFoundIn(s[1..]);
        FoundInSuffix(s, 1, FindAll(s[1..]));
    }
  }

  /** `MatchHere` is a pattern the scan can run. */
  lemma MatchHereAdvances()
    ensures Advances(MatchHere)
  {
    forall t ensures MatchHere(t).Some? ==> 0 < MatchHere(t).value.1 <= |t| {
    }
  }

  /** `FindAll` reports exactly the pairs of the scan with `MatchHere`, in order. */
  lemma {:induction false} FindAllScans(t: string)
    requires Advances(MatchHere)
    ensures FindAll(t) == Found(Scan(t, MatchHere))
    decreases |t|
  {
    if |t| > 0 {
      match MatchHere(t)
      case Some((p, n)) =>
        FindAllScans(t[n..]);
        FoundPrepend(Hit(|t|, p, n), Scan(t[n..], MatchHere));
      case None =>
        FindAllScans(t[1..]);
    }
  }

  /** `FindAll` is `re.findall`: its pairs are those of hits that each match at
      their position, come left to right without overlap, and leave no position
      uncovered where the pattern would match. */
  lemma FindAllLeftmost(s: string)
    ensures Advances(MatchHere)
    ensures FindAll(s) == Found(Scan(s, MatchHere)) && Leftmost(s, 0, Scan(s, MatchHere), MatchHere)
  {
    MatchHereAdvances();
    FindAllScans(s);
    assert s[0..] == s;
    ScanIsLeftmost(s, 0, MatchHere);
  }

  /** A match at the start followed by pairs found after it. */
  lemma FoundCons(s: string, p: Pair, n: nat, rest: seq<Pair>)
    requires 0 < n <= |s| && s[..n] == p.key + "=" + p.raw && WellFormed(p)
    requires FoundIn(s[n..], rest)
    ensures FoundIn(s, [p] + rest)
  {
    assert OccursAt(s, p.key + "=" + p.raw, 0);
    FoundInSuffix(s, n, rest);
    var all := [p] + rest;
    forall k | 0 < k < |all| ensures all[k] == rest[k - 1] {
    }
  }

  /** Pairs found in a suffix are found in the whole. */
  lemma FoundInSuffix(s: string, n: nat, ps: seq<Pair>)
    requires n <= |s| && FoundIn(s[n..], ps)
    ensures FoundIn(s, ps)
  {
    ContainsInSuffix(s, n);
  }

  lemma ContainsInSuffix(s: string, n: nat)
    requires n <= |s|
    ensures forall x :: Contains(s[n..], x) ==> Contains(s, x)
  {
    forall x | Contains(s[n..], x) ensures Contains(s, x) {
      var i: nat :| i <= |s[n..]| && OccursAt(s[n..], x, i);
      assert s[n..][i..i + |x|] == s[n + i..n + i + |x|];
      assert OccursAt(s, x, n + i);
    }
  }

  /** A text without `=` holds no pair. */
  lemma FindAllNeedsEquals(s: string)
    requires '=' !in s
    ensures FindAll(s) == []
  {
  }

  /** The value the source keeps: the raw group with its surrounding quotes stripped. */
  function Unquote(p: Pair): (v: string)
    requires WellFormed(p)
    ensures |v| > 0 && '"' !in v
    ensures IsQuoted(p.raw) ==> v == p.raw[1..|p.raw| - 1]
    ensures IsBare(p.raw) ==> v == p.raw
  {
    if IsQuoted(p.raw) then
      var inner := p.raw[1..|p.raw| - 1];
      assert p.raw == ['"'] + inner + ['"'];
      StripByPadded(['"'], inner, ['"'], IsQuote);
      StripQuotes(p.raw)
    else
      assert p.raw == [] + p.raw + [];
      StripByPadded([], p.raw, [], IsQuote);
      StripQuotes(p.raw)
  }

  /** The dictionary assignment one match makes: `d[key] = value.strip('"')`. */
  function PairEntry(p: Pair): Option<(string, string)> {
    if WellFormed(p) then Some((p.key, Unquote(p))) else None
  }

  /** The `key=value` pairs of `s` merged over `m`, later pairs winning. */
  function MergePairs(m: map<string, string>, s: string): map<string, string> {
    Assign(m, FindAll(s), PairEntry)
  }

  /** Merging adds only non-empty word keys with non-empty quote-free values and
      leaves every other key as it was. */
  lemma MergePairsShape(m: map<string, string>, s: string)
    ensures forall k :: k in m ==> k in MergePairs(m, s)
    ensures forall k :: k in MergePairs(m, s) && (k !in m || MergePairs(m, s)[k] != m[k]) ==>
      && |k| > 0 && (forall i :: 0 <= i < |k| ==> IsWordChar(k[i]))
      && |MergePairs(m, s)[k]| > 0 && '"' !in MergePairs(m, s)[k]
  {
    var ps := FindAll(s);
    var r := MergePairs(m, s);
    forall k | k in r && (k !in m || r[k] != m[k])
      ensures |k| > 0 && (forall i :: 0 <= i < |k| ==> IsWordChar(k[i]))
      ensures |r[k]| > 0 && '"' !in r[k]
    {
      assert Assigns(ps, PairEntry, k);
      var i :| AssignsAt(ps, PairEntry, i, k);
      var last := LastIndex(ps, PairEntry, i, k);
    }
  }

  // ------------------------------------------------------- rendered credentials

  /** One Digest credential parameter as a client writes it (section 22.4 of
      RFC 3261): a token name and either a quoted-string or a token value. */
  datatype Param = Param(name: string, value: string, quoted: bool)

  predicate ValidParam(p: Param) {
    && |p.name| > 0
    && (forall k :: 0 <= k < |p.name| ==> IsWordChar(p.name[k]))
    && |p.value| > 0
    && (if p.quoted then '"' !in p.value else forall k :: 0 <= k < |p.value| ==> IsBareChar(p.value[k]))
  }

  function RawValue(p: Param): string {
    if p.quoted then "\"" + p.value + "\"" else p.value
  }

  function RenderParam(p: Param): string {
    p.name + "=" + RawValue(p)
  }

  /** The comma-separated parameter list `a="x", b=y, ...`. */
  function Render(ps: seq<Param>): string {
    if |ps| == 0 then ""
    else if |ps| == 1 then RenderParam(ps[0])
    else RenderParam(ps[0]) + ", " + Render(ps[1..])
  }

  /** The value alternatives match exactly one rendered value when a comma, or nothing, follows it. */
  lemma MatchRawValue(p: Param, rest: string)
    requires ValidParam(p)
    requires rest == [] || rest[0] == ','
    ensures MatchValue(RawValue(p) + rest) == Some(RawValue(p))
  {
    if p.quoted {
      MatchQuoted(p.value, rest);
    } else {
      MatchBare(p.value, rest);
    }
  }

  /** A quoted value: the run of non-quotes stops at the closing quote. */
  lemma MatchQuoted(value: string, rest: string)
    requires |value| > 0 && '"' !in value
    ensures MatchValue("\"" + value + "\"" + rest) == Some("\"" + value + "\"")
  {
    var raw := "\"" + value + "\"";
    var v := raw + rest;
    var t := v[1..];
    assert t == value + "\"" + rest;
    forall k | 0 <= k < |value| ensures NotQuote(t[k]) {
      assert t[k] == value[k];
    }
    RunLengthIs(t, NotQuote, |value|);
    assert v[..|value| + 2] == raw;
  }

  /** A bare value: the run of `[\w/]` stops at the comma or the end. */
  lemma MatchBare(value: string, rest: string)
    requires |value| > 0 && forall k :: 0 <= k < |value| ==> IsBareChar(value[k])
    requires rest == [] || rest[0] == ','
    ensures MatchValue(value + rest) == Some(value)
  {
    var v := value + rest;
    assert v[0] == value[0];
    RunLengthIs(v, IsBareChar, |value|);
    assert v[..|value|] == value;
  }

  /** The pattern matches exactly one rendered parameter when a comma, or nothing, follows it. */
  lemma MatchParam(p: Param, rest: string)
    requires ValidParam(p)
    requires rest == [] || rest[0] == ','
    ensures var m := MatchHere(RenderParam(p) + rest);
      m.Some? && m.value.0 == Pair(p.name, RawValue(p)) && m.value.1 == |RenderParam(p)|
  {
    var s := RenderParam(p) + rest;
    RenderedParts(p, rest);
    MatchRawValue(p, rest);
    MatchHereAt(s, |p.name|, RawValue(p));
  }

  /** Where a rendered parameter's pieces sit, and where its word run stops. */
  lemma RenderedParts(p: Param, rest: string)
    requires ValidParam(p)
    ensures var s := RenderParam(p) + rest; var w := |p.name|;
      && w < |s| && s[..w] == p.name && s[w] == '=' && s[w + 1..] == RawValue(p) + rest
      && RunLength(s, IsWordChar) == w
  {
    var after := RawValue(p) + rest;
    assert RenderParam(p) + rest == p.name + "=" + after;
    KeyThenEquals(p.name, after);
  }

  /** A word, `=`, then anything: the word run stops at the `=`. */
  lemma KeyThenEquals(key: string, after: string)
    requires forall k :: 0 <= k < |key| ==> IsWordChar(key[k])
    ensures var s := key + "=" + after; var w := |key|;
      && w < |s| && s[..w] == key && s[w] == '=' && s[w + 1..] == after
      && RunLength(s, IsWordChar) == w
  {
    var s := key + "=" + after;
    var w := |key|;
    assert s[..w] == key && s[w] == '=' && s[w + 1..] == after by {
      SplitConcat(key + "=", after);
      assert (key + "=")[..w] == key;
    }
    assert forall k :: 0 <= k < w ==> s[k] == s[..w][k];
    RunLengthIs(s, IsWordChar, w);
  }

  /** The pattern at the start of `s`, once its word run and its value are known. */
  lemma MatchHereAt(s: string, w: nat, raw: string)
    requires 0 < w < |s| && RunLength(s, IsWordChar) == w && s[w] == '='
    requires MatchValue(s[w + 1..]) == Some(raw)
    ensures MatchHere(s).Some?
    ensures MatchHere(s).value.0 == Pair(s[..w], raw)
    ensures MatchHere(s).value.1 == w + 1 + |raw|
  {
  }

  /** A separator `, ` holds no match and is skipped. */
  lemma SkipSeparator(rest: string)
    ensures FindAll(", " + rest) == FindAll(rest)
  {
    var s := ", " + rest;
    assert RunLength(s, IsWordChar) == 0;
    assert s[1..] == " " + rest;
    assert RunLength(s[1..], IsWordChar) == 0;
    assert s[1..][1..] == rest;
  }

  /** The pairs of a rendered list, in order, as the scanner sees them. */
  function Pairs(ps: seq<Param>): seq<Pair> {
    seq(|ps|, i requires 0 <= i < |ps| => Pair(ps[i].name, RawValue(ps[i])))
  }

  /** A match at the start is reported, and the scan resumes at its end. */
  lemma FindAllAfterMatch(s: string, p: Pair, n: nat)
    requires |s| > 0 && MatchHere(s).Some? && MatchHere(s).value.0 == p && MatchHere(s).value.1 == n
    ensures FindAll(s) == [p] + FindAll(s[n..])
  {
  }

  lemma PairsCons(ps: seq<Param>)
    requires |ps| > 0
    ensures Pairs(ps) == [Pair(ps[0].name, RawValue(ps[0]))] + Pairs(ps[1..])
  {
  }

  /** Scanning a rendered parameter list recovers exactly its parameters, even
      when a quoted value holds `=`, `,` or spaces. */
  lemma {:induction false} FindAllRender(ps: seq<Param>)
    requires forall i :: 0 <= i < |ps| ==> ValidParam(ps[i])
    ensures FindAll(Render(ps)) == Pairs(ps)
    decreases |ps|
  {
    if |ps| > 0 {
      ScanFirst(ps);
      PairsCons(ps);
      if |ps| > 1 {
        assert forall i :: 0 <= i < |ps[1..]| ==> ps[1..][i] == ps[i + 1];
        FindAllRender(ps[1..]);
      }
    }
  }

  /** The scan of a rendered list reports its first parameter, then scans the
      rendering of the others. */
  lemma ScanFirst(ps: seq<Param>)
    requires |ps| > 0 && ValidParam(ps[0])
    ensures FindAll(Render(ps)) == [Pair(ps[0].name, RawValue(ps[0]))] + (if |ps| == 1 then [] else FindAll(Render(ps[1..])))
  {
    var tail := if |ps| == 1 then "" else ", " + Render(ps[1..]);
    var s := RenderParam(ps[0]) + tail;
    assert s == Render(ps);
    MatchParam(ps[0], tail);
    FindAllAfterMatch(s, Pair(ps[0].name, RawValue(ps[0])), |RenderParam(ps[0])|);
    SplitConcat(RenderParam(ps[0]), tail);
    if |ps| > 1 {
      SkipSeparator(Render(ps[1..]));
    }
  }

  /** After unquoting, each pair carries its parameter's value. */
  lemma UnquoteParam(p: Param)
    requires ValidParam(p)
    ensures WellFormed(Pair(p.name, RawValue(p)))
    ensures Unquote(Pair(p.name, RawValue(p))) == p.value
  {
    var raw := RawValue(p);
    if p.quoted {
      assert raw[1..|raw| - 1] == p.value;
      assert IsQuoted(raw);
    } else {
      assert IsBare(raw);
      assert !IsQuoted(raw) by {
        assert raw[0] == p.value[0];
      }
    }
  }
}
