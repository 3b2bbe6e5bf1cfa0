/**
 * `parse_sip_data` and the second, nested extraction of Digest parameters that
 * `process_packet` runs over the whole message text.
 */
module SipParser {
  import opened Wrappers
  import opened Text
  import opened Dicts
  import opened Headers
  import opened DigestParams

  /** `parse_sip_data`: the colon-line map, and when it has an `Authorization`
      key, the `key=value` pairs of that header's value (every `Digest` removed,
      then stripped) merged over it at the top level. */
  function ParseSipData(text: string): map<string, string> {
    var headers := ColonMap(text);
    if "Authorization" in headers then
      MergePairs(headers, Strip(RemoveAll(headers["Authorization"], "Digest")))
    else headers
  }

  /** Without an `Authorization` key the result is exactly the header map; with
      one, every header survives and the only keys added or changed are non-empty
      word keys holding non-empty, quote-free values. */
  lemma ParseSipDataShape(text: string)
    ensures "Authorization" !in ColonMap(text) ==> ParseSipData(text) == ColonMap(text)
    ensures forall k :: k in ColonMap(text) ==> k in ParseSipData(text)
    ensures forall k :: k in ParseSipData(text) && (k !in ColonMap(text) || ParseSipData(text)[k] != ColonMap(text)[k]) ==>
      && "Authorization" in ColonMap(text)
      && |k| > 0 && (forall i :: 0 <= i < |k| ==> IsWordChar(k[i]))
      && |ParseSipData(text)[k]| > 0 && '"' !in ParseSipData(text)[k]
  {
    var headers := ColonMap(text);
    if "Authorization" in headers {
      MergePairsShape(headers, Strip(RemoveAll(headers["Authorization"], "Digest")));
    }
  }

  /** The pairs `parse_sip_data` finds in an `Authorization` value: every
      `Digest` deleted, surrounding whitespace stripped, then `re.findall`. */
  function AuthPairs(value: string): seq<Pair> {
    FindAll(Strip(RemoveAll(value, "Digest")))
  }

  /** With an `Authorization` header, a key is in the result exactly when it is
      a header or some pair assigns it; a header no pair assigns keeps its
      value; and a key some pair assigns holds the unquoted value of the last
      such pair. */
  lemma ParseSipDataAuthorization(text: string)
    requires "Authorization" in ColonMap(text)
    ensures var headers := ColonMap(text);
      var pairs := AuthPairs(headers["Authorization"]);
      && (forall k :: k in ParseSipData(text) <==> k in headers || Assigns(pairs, PairEntry, k))
      && (forall k :: k in headers && !Assigns(pairs, PairEntry, k) ==> ParseSipData(text)[k] == headers[k])
      && (forall i, k :: LastAssignsAt(pairs, PairEntry, i, k) ==>
            WellFormed(pairs[i]) && k in ParseSipData(text) && ParseSipData(text)[k] == Unquote(pairs[i]))
  {
  }

  // ----------------------------------------------- re.search for the nested map

  const AuthPrefix: string := "Authorization: Digest "

  /** `[^\r\n]` */
  predicate NotLineBreak(c: char) {
    c != '\r' && c != '\n'
  }

  /** `Authorization: Digest ([^\r\n]+)` matches at position `p`. */
  ghost predicate AuthMatchAt(text: string, p: int) {
    && 0 <= p
    && OccursAt(text, AuthPrefix, p)
    && p + |AuthPrefix| < |text|
    && NotLineBreak(text[p + |AuthPrefix|])
  }

  /** The group of a match at `p`: the rest of that line. */
  function GroupAt(text: string, p: nat): (g: string)
    requires p + |AuthPrefix| <= |text|
    ensures forall k :: 0 <= k < |g| ==> NotLineBreak(g[k])
    ensures p + |AuthPrefix| + |g| <= |text|
    ensures p + |AuthPrefix| + |g| == |text| || !NotLineBreak(text[p + |AuthPrefix| + |g|])
    ensures g == text[p + |AuthPrefix|..p + |AuthPrefix| + |g|]
  {
    var rest := text[p + |AuthPrefix|..];
    rest[..RunLength(rest, NotLineBreak)]
  }

  /** `re.search`: the group of the first match at or after `from`, trying
      each position in turn. */
  function AuthSearch(text: string, from: nat): (r: Option<string>)
    requires from <= |text|
    ensures r.Some? ==> |r.value| > 0
    decreases |text| - from
  {
    if from + |AuthPrefix| < |text| && OccursAt(text, AuthPrefix, from) && NotLineBreak(text[from + |AuthPrefix|]) then
      Some(GroupAt(text, from))
    else if from == |text| then None
    else AuthSearch(text, from + 1)
  }

  /** The search finds nothing exactly when the pattern matches nowhere from
      `from` on, and otherwise finds the group of the leftmost match. */
  lemma {:induction false} AuthSearchLeftmost(text: string, from: nat)
    requires from <= |text|
    ensures AuthSearch(text, from).None? <==> forall p :: from <= p <= |text| ==> !AuthMatchAt(text, p)
    ensures AuthSearch(text, from).Some? ==>
      exists p :: && from <= p && AuthMatchAt(text, p) && GroupAt(text, p) == AuthSearch(text, from).value
                  && (forall q :: from <= q < p ==> !AuthMatchAt(text, q))
    decreases |text| - from
  {
    if from + |AuthPrefix| < |text| && OccursAt(text, AuthPrefix, from) && NotLineBreak(text[from + |AuthPrefix|]) {
      assert AuthMatchAt(text, from);
      assert AuthSearch(text, from) == Some(GroupAt(text, from));
    } else if from < |text| {
      assert !AuthMatchAt(text, from);
      assert AuthSearch(text, from) == AuthSearch(text, from + 1);
      AuthSearchLeftmost(text, from + 1);
      if AuthSearch(text, from + 1).Some? {
        var p :| && from + 1 <= p && AuthMatchAt(text, p) && GroupAt(text, p) == AuthSearch(text, from + 1).value
                 && (forall q :: from + 1 <= q < p ==> !AuthMatchAt(text, q));
        assert forall q :: from <= q < p ==> !AuthMatchAt(text, q);
      }
    } else {
      assert AuthSearch(text, from).None?;
    }
  }

  /** The `Authorization_Details` map `process_packet` builds, when the search matches. */
  function AuthorizationDetails(text: string): Option<map<string, string>> {
    match AuthSearch(text, 0)
    case None => None
    case Some(g) => Some(MergePairs(map[], g))
  }

  /** The details exist exactly when the text holds `Authorization: Digest `
      followed, on the same line, by at least one more character. */
  lemma AuthorizationDetailsWhen(text: string)
    ensures AuthorizationDetails(text).Some? <==> exists p :: 0 <= p <= |text| && AuthMatchAt(text, p)
  {
    AuthSearchLeftmost(text, 0);
  }

  // ------------------------------------------ the two forms of the credentials

  /** The first character of a rendered list is a word character, the last a quote or a bare character. */
  lemma RenderEnds(ps: seq<Param>)
    requires |ps| >= 1 && forall i :: 0 <= i < |ps| ==> ValidParam(ps[i])
    ensures |Render(ps)| > 0 && IsWordChar(Render(ps)[0])
    ensures Render(ps)[|Render(ps)| - 1] == '"' || IsBareChar(Render(ps)[|Render(ps)| - 1])
  {
    var r := Render(ps);
    assert r[0] == RenderParam(ps[0])[0] == ps[0].name[0];
    var last := ps[|ps| - 1];
    RenderLast(ps);
    var rv := RawValue(last);
    assert r[|r| - 1] == rv[|rv| - 1];
    if !last.quoted {
      assert rv[|rv| - 1] == last.value[|last.value| - 1];
    }
  }

  /** A rendered list has nothing for `strip()` to remove. */
  lemma RenderStripped(ps: seq<Param>)
    requires |ps| >= 1 && forall i :: 0 <= i < |ps| ==> ValidParam(ps[i])
    ensures |Render(ps)| > 0 && !IsSpace(Render(ps)[|Render(ps)| - 1])
  {
    RenderEnds(ps);
  }

  lemma RenderStartsWithWord(ps: seq<Param>)
    requires |ps| >= 1 && forall i :: 0 <= i < |ps| ==> ValidParam(ps[i])
    ensures |Render(ps)| > 0 && !IsSpace(Render(ps)[0])
  {
    RenderEnds(ps);
  }

  lemma {:induction false} RenderLast(ps: seq<Param>)
    requires |ps| >= 1
    ensures |Render(ps)| >= |RawValue(ps[|ps| - 1])|
    ensures Render(ps)[|Render(ps)| - |RawValue(ps[|ps| - 1])|..] == RawValue(ps[|ps| - 1])
    decreases |ps|
  {
    if |ps| > 1 {
      RenderLast(ps[1..]);
      assert ps[1..][|ps[1..]| - 1] == ps[|ps| - 1];
      var a := RenderParam(ps[0]) + ", ";
      var b := Render(ps[1..]);
      assert Render(ps) == a + b;
      SuffixOfAppend(a, b, |RawValue(ps[|ps| - 1])|);
    } else {
      SuffixOfAppend(ps[0].name + "=", RawValue(ps[0]), |RawValue(ps[0])|);
    }
  }

  /** The last `n` characters of `a + b` are those of `b` when `b` has `n`. */
  lemma SuffixOfAppend(a: string, b: string, n: nat)
    requires n <= |b|
    ensures (a + b)[|a + b| - n..] == b[|b| - n..]
  {
  }

  /** Removing `Digest` from `Digest r`, where `r` holds no other `Digest`, leaves ` r`. */
  lemma RemoveLeadingDigest(r: string)
    requires !Contains(r, "Digest")
    ensures RemoveAll("Digest " + r, "Digest") == " " + r
  {
    var s := "Digest " + r;
    assert OccursAt(s, "Digest", 0);
    FindFirst(s, "Digest", 0);
    var rest := s[6..];
    assert rest == " " + r;
    forall k: nat | k <= |rest| ensures !OccursAt(rest, "Digest", k) {
      if k == 0 {
        assert rest[0] == ' ';
      } else if OccursAt(rest, "Digest", k) {
        assert rest[k..k + 6] == r[k - 1..k + 5];
        assert OccursAt(r, "Digest", k - 1);
      }
    }
    assert Find(rest, "Digest", 0).None?;
    assert Split(rest, "Digest") == [rest];
    assert s[..0] == "";
    assert Split(s, "Digest") == [""] + [rest];
    assert Join(["", rest], "") == "" + "" + Join([rest], "");
  }

  lemma AuthPrefixParts()
    ensures AuthPrefix == "Authorization" + ": " + "Digest "
    ensures '\n' !in AuthPrefix && ':' !in "Authorization"
    ensures !IsSpace("Authorization"[0]) && !IsSpace("Authorization"[12]) && !IsSpace("Digest "[0])
  {
  }

  lemma AuthLine(r: string)
    requires '\n' !in r
    ensures AuthPrefix + r == "Authorization" + ": " + ("Digest " + r)
    ensures '\n' !in AuthPrefix + r
  {
    AuthPrefixParts();
  }

  /** The header map of a single `Authorization: Digest r` line. */
  lemma AuthorizationHeaderOf(r: string)
    requires |r| > 0 && !IsSpace(r[|r| - 1]) && '\n' !in r
    ensures ColonMap(AuthPrefix + r) == map["Authorization" := "Digest " + r]
  {
    AuthPrefixParts();
    var v := "Digest " + r;
    assert v[0] == 'D' && v[|v| - 1] == r[|r| - 1];
    HeaderLineSplits("Authorization", v);
    AuthLine(r);
    ColonMapSingleLine(AuthPrefix + r);
  }

  /** The nested form reads the rendered list back whole. */
  lemma NestedForm(ps: seq<Param>)
    requires |ps| >= 1 && forall i :: 0 <= i < |ps| ==> ValidParam(ps[i])
    requires forall k :: 0 <= k < |Render(ps)| ==> NotLineBreak(Render(ps)[k])
    ensures AuthorizationDetails(AuthPrefix + Render(ps)) == Some(MergePairs(map[], Render(ps)))
  {
    var r := Render(ps);
    var text := AuthPrefix + r;
    RenderEnds(ps);
    assert text[..|AuthPrefix|] == AuthPrefix;
    assert text[|AuthPrefix|] == r[0];
    assert AuthMatchAt(text, 0);
    assert text[|AuthPrefix|..] == r;
    RunLengthIs(r, NotLineBreak, |r|);
    assert GroupAt(text, 0) == r;
  }

  /** The flat form merges the same rendered list over the header map. */
  lemma FlatForm(ps: seq<Param>)
    requires |ps| >= 1 && forall i :: 0 <= i < |ps| ==> ValidParam(ps[i])
    requires !Contains(Render(ps), "Digest")
    requires forall k :: 0 <= k < |Render(ps)| ==> NotLineBreak(Render(ps)[k])
    ensures ParseSipData(AuthPrefix + Render(ps)) == MergePairs(map["Authorization" := "Digest " + Render(ps)], Render(ps))
  {
    var r := Render(ps);
    assert '\n' !in r by {
      forall k | 0 <= k < |r| ensures r[k] != '\n' {
        assert NotLineBreak(r[k]);
      }
    }
    RenderStripped(ps);
    RenderStartsWithWord(ps);
    AuthorizationHeaderOf(r);
    RemoveLeadingDigest(r);
    assert " " + r == " " + r + [];
    StripByPadded(" ", r, [], IsSpace);
  }

  /** For an `Authorization: Digest` line written as section 22.4 of RFC 3261
      writes the credentials (values free of `Digest` and of line breaks), the
      flat merge and the nested `Authorization_Details` map carry the same
      parameters: each name maps to the value of its last occurrence, quotes
      stripped, in both forms. */
  lemma DigestBothForms(ps: seq<Param>)
    requires |ps| >= 1 && forall i :: 0 <= i < |ps| ==> ValidParam(ps[i])
    requires !Contains(Render(ps), "Digest")
    requires forall k :: 0 <= k < |Render(ps)| ==> NotLineBreak(Render(ps)[k])
    ensures AuthorizationDetails(AuthPrefix + Render(ps)).Some?
    ensures var details := AuthorizationDetails(AuthPrefix + Render(ps)).value;
      && (forall k :: k in details ==> k in ParseSipData(AuthPrefix + Render(ps)) && ParseSipData(AuthPrefix + Render(ps))[k] == details[k])
      && (forall i :: 0 <= i < |ps| && (forall j :: i < j < |ps| ==> ps[j].name != ps[i].name) ==>
            ps[i].name in details && details[ps[i].name] == ps[i].value)
  {
    var r := Render(ps);
    var text := AuthPrefix + r;
    NestedForm(ps);
    FlatForm(ps);
    var details := MergePairs(map[], r);
    var headers := map["Authorization" := "Digest " + r];
    var pairs := FindAll(r);
    forall k | k in details
      ensures k in ParseSipData(text) && ParseSipData(text)[k] == details[k]
    {
      AssignAgrees(headers, map[], pairs, PairEntry, k);
    }
    LastParamDecides(ps);
  }

  /** Lower-case ASCII letters only. */
  predicate Lower(s: string) {
    forall k :: 0 <= k < |s| ==> 'a' <= s[k] <= 'z'
  }

  /** The credential line `Authorization: Digest username="<x>Digest<y>"`. */
  function UserLine(x: string, y: string): string {
    AuthPrefix + "username=\"" + x + "Digest" + y + "\""
  }

  /** A value that itself contains `Digest` splits the two forms: `replace`
      deletes every `Digest`, not only the scheme token, so the flat merge
      holds the user name with `Digest` cut out while the nested map holds it
      whole. `Authorization: Digest username="Digestor"` (`x` empty, `y` = `or`)
      gives `or` in one form and `Digestor` in the other. */
  lemma DigestFormsDisagree(x: string, y: string)
    requires Lower(x) && Lower(y) && |x + y| > 0
    ensures "username" in ParseSipData(UserLine(x, y)) && ParseSipData(UserLine(x, y))["username"] == x + y
    ensures AuthorizationDetails(UserLine(x, y)).Some?
    ensures "username" in AuthorizationDetails(UserLine(x, y)).value
    ensures AuthorizationDetails(UserLine(x, y)).value["username"] == x + "Digest" + y
    ensures ParseSipData(UserLine(x, y))["username"] != AuthorizationDetails(UserLine(x, y)).value["username"]
  {
    CutFlat(x, y);
    CutNested(x, y);
  }

  /** Lower-case letters hold no quote, line break or `D`. */
  lemma LowerChars(s: string)
    requires Lower(s)
    ensures '"' !in s && '\n' !in s && '\r' !in s && 'D' !in s
  {
    forall c | c in s ensures 'a' <= c <= 'z' {
      var k :| 0 <= k < |s| && s[k] == c;
    }
  }

  /** The user name, written whole, is one credential parameter. */
  lemma UserValue(x: string, y: string)
    requires Lower(x) && Lower(y)
    ensures var v := x + "Digest" + y;
      && |v| > 0 && '"' !in v && '\n' !in v && '\r' !in v
      && UserLine(x, y) == AuthPrefix + Render([Param("username", v, true)])
  {
    LowerChars(x);
    LowerChars(y);
    var v := x + "Digest" + y;
    assert v[|x|] == 'D';
    UsernameParam(v);
    Associate(AuthPrefix, "username=\"", x, "Digest", y, "\"");
  }

  /** Regrouping a concatenation of six pieces. */
  lemma Associate(a: string, b: string, c: string, d: string, e: string, f: string)
    ensures a + b + c + d + e + f == a + (b + (c + d + e) + f)
  {
  }

  /** `username="v"` as a one-parameter credential list. */
  lemma UsernameParam(v: string)
    requires |v| > 0 && '"' !in v && '\n' !in v && '\r' !in v
    ensures var ps := [Param("username", v, true)];
      && ValidParam(ps[0])
      && Render(ps) == "username=\"" + v + "\""
      && Pairs(ps) == [Pair("username", "\"" + v + "\"")]
  {
    var name := "username";
    forall k | 0 <= k < |name| ensures IsWordChar(name[k]) {
    }
    var p := Param(name, v, true);
    assert RenderParam(p) == name + "=" + ("\"" + v + "\"");
  }

  /** The nested form reads the user name whole. */
  lemma CutNested(x: string, y: string)
    requires Lower(x) && Lower(y)
    ensures AuthorizationDetails(UserLine(x, y)).Some?
    ensures "username" in AuthorizationDetails(UserLine(x, y)).value
    ensures AuthorizationDetails(UserLine(x, y)).value["username"] == x + "Digest" + y
  {
    UserValue(x, y);
    var v := x + "Digest" + y;
    var ps := [Param("username", v, true)];
    UsernameParam(v);
    var r := Render(ps);
    forall k | 0 <= k < |r| ensures NotLineBreak(r[k]) {
      assert r[k] in r;
    }
    NestedForm(ps);
    LastParamDecides(ps);
  }

  /** Deleting every `Digest` from the header value also cuts the user name. */
  lemma CutValue(x: string, y: string)
    requires Lower(x) && Lower(y)
    ensures RemoveAll("Digest " + ("username=\"" + x + "Digest" + y + "\""), "Digest") == " username=\"" + x + y + "\""
  {
    LowerChars(x);
    LowerChars(y);
    var lead := " username=\"";
    assert forall k :: 0 <= k < |lead| ==> lead[k] != 'D';
    var a, b := lead + x, y + "\"";
    assert 'D' !in a && 'D' !in b && "Digest"[0] == 'D';
    assert "Digest " == "Digest" + " " && lead == " " + "username=\"";
    Regroup6("Digest", " ", "username=\"", x, y, "\"");
    calc {
      RemoveAll("Digest " + ("username=\"" + x + "Digest" + y + "\""), "Digest");
      RemoveAll("Digest" + (a + "Digest" + b), "Digest");
      { CutBoth("Digest", a, b); }
      a + b;
      lead + x + y + "\"";
    }
  }

  /** The two seams of the credential value, regrouped. */
  lemma Regroup6(t: string, sp: string, u: string, x: string, y: string, q: string)
    ensures t + sp + (u + x + t + y + q) == t + ((sp + u + x) + t + (y + q))
    ensures (sp + u + x) + (y + q) == sp + u + x + y + q
  {
  }

  /** The scheme token and a second copy of it inside the value both go, when
      the token's first character occurs nowhere else. */
  lemma CutBoth(t: string, a: string, b: string)
    requires |t| > 0 && t[0] !in a && t[0] !in b
    ensures RemoveAll(t + (a + t + b), t) == a + b
  {
    calc {
      RemoveAll(t + (a + t + b), t);
      { assert t + (a + t + b) == [] + t + (a + t + b); }
      RemoveAll([] + t + (a + t + b), t);
      { RemoveAllFirst([], t, a + t + b); }
      [] + RemoveAll(a + t + b, t);
      { RemoveOne(a, t, b); }
      [] + (a + b);
    }
  }

  /** The flat form finds the cut user name. */
  lemma CutFlat(x: string, y: string)
    requires Lower(x) && Lower(y) && |x + y| > 0
    ensures "username" in ParseSipData(UserLine(x, y)) && ParseSipData(UserLine(x, y))["username"] == x + y
  {
    var r := "username=\"" + x + "Digest" + y + "\"";
    UserValue(x, y);
    assert UserLine(x, y) == AuthPrefix + r;
    assert r[|r| - 1] == '"';
    AuthorizationHeaderOf(r);
    var pairs := CutPairs(x, y);
    var v := x + y;
    LowerChars(x);
    LowerChars(y);
    assert '"' !in v && '\n' !in v && '\r' !in v;
    UsernameParam(v);
    UnquoteParam(Param("username", v, true));
    assert LastAssignsAt(pairs, PairEntry, 0, "username");
    ParseSipDataAuthorization(UserLine(x, y));
  }

  /** What is left of the header value holds the single pair `username="<x><y>"`. */
  lemma CutPairs(x: string, y: string) returns (pairs: seq<Pair>)
    requires Lower(x) && Lower(y) && |x + y| > 0
    ensures pairs == AuthPairs("Digest " + ("username=\"" + x + "Digest" + y + "\""))
    ensures pairs == [Pair("username", "\"" + (x + y) + "\"")]
  {
    LowerChars(x);
    LowerChars(y);
    CutValue(x, y);
    var v := x + y;
    assert '"' !in v && '\n' !in v && '\r' !in v;
    UsernameParam(v);
    var flat := [Param("username", v, true)];
    Regroup(x, y);
    assert All(" ", IsSpace) && All([], IsSpace);
    StripByPadded(" ", Render(flat), [], IsSpace);
    FindAllRender(flat);
    pairs := AuthPairs("Digest " + ("username=\"" + x + "Digest" + y + "\""));
  }

  lemma Regroup(x: string, y: string)
    ensures " username=\"" + x + y + "\"" == " " + ("username=\"" + (x + y) + "\"") + []
  {
  }

  /** In the nested map, each parameter's last occurrence decides its value. */
  lemma LastParamDecides(ps: seq<Param>)
    requires forall i :: 0 <= i < |ps| ==> ValidParam(ps[i])
    ensures forall i :: 0 <= i < |ps| && (forall j :: i < j < |ps| ==> ps[j].name != ps[i].name) ==>
      ps[i].name in MergePairs(map[], Render(ps)) && MergePairs(map[], Render(ps))[ps[i].name] == ps[i].value
  {
    forall i | 0 <= i < |ps| && (forall j :: i < j < |ps| ==> ps[j].name != ps[i].name)
      ensures ps[i].name in MergePairs(map[], Render(ps)) && MergePairs(map[], Render(ps))[ps[i].name] == ps[i].value
    {
      LastParamAt(ps, i);
    }
  }

  /** One parameter with no later namesake: the nested map holds its value. */
  lemma LastParamAt(ps: seq<Param>, i: nat)
    requires forall i :: 0 <= i < |ps| ==> ValidParam(ps[i])
    requires i < |ps| && forall j :: i < j < |ps| ==> ps[j].name != ps[i].name
    ensures ps[i].name in MergePairs(map[], Render(ps)) && MergePairs(map[], Render(ps))[ps[i].name] == ps[i].value
  {
    var pairs := FindAll(Render(ps));
    FindAllRender(ps);
    UnquoteParam(ps[i]);
    assert pairs[i] == Pair(ps[i].name, RawValue(ps[i]));
    forall j | i < j < |pairs| ensures !AssignsAt(pairs, PairEntry, j, ps[i].name) {
      assert pairs[j] == Pair(ps[j].name, RawValue(ps[j]));
    }
    assert LastAssignsAt(pairs, PairEntry, i, ps[i].name);
  }
}
