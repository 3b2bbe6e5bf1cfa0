/**
 * `PacketAnalyzer._get_ip_info` of the offline analyser: a cache of composed
 * provider answers keyed by IP string. A miss queries the providers the `api`
 * argument selects, in the order ip-api, AbuseIPDB, Shodan, and ALWAYS stores
 * what it composed, failed slots (`None`) and the `{}` of an unknown `api`
 * name included, so each IP costs at most one round of queries.
 */
module PcapCache {
  import opened Enrichment

  /** The composed answer: one slot per queried provider, holding its body or
      `JNull` for a failure. The slot of a provider is named by `SlotKey`. */
  type Info = map<Provider, Json>

  /** The `_query_api` status rule: the body on 200, `None` otherwise. */
  function SlotValue(resp: Response): (v: Json)
    ensures resp.status == 200 ==> v == resp.body
    ensures resp.status != 200 ==> v == JNull
  {
    if resp.status == 200 then resp.body else JNull
  }

  /** The `api` name that selects a provider. */
  function ApiName(p: Provider): string {
    match p
    case IpApi => "ip_api"
    case AbuseIpDb => "abuseipdb"
    case Shodan => "shodan"
  }

  /** The slot a provider's answer goes to. */
  function SlotKey(p: Provider): string {
    match p
    case IpApi => "srcIPInfo"
    case AbuseIpDb => "srcIPAbuseInfo"
    case Shodan => "srcIPShodanInfo"
  }

  /** `api in [<name>, "all"]` */
  predicate Selects(api: string, p: Provider) {
    api == ApiName(p) || api == "all"
  }

  /** One `if api in [...]` step of a miss: query the provider if selected and fill its slot. */
  function Fill(oracle: Oracle, s: Session<Info>, info: Info, p: Provider, ip: string, api: string): (Info, Session<Info>) {
    if Selects(api, p) then
      var (resp, s1) := Ask(oracle, s, Query(p, ip));
      (info[p := SlotValue(resp)], s1)
    else (info, s)
  }

  /** The queries a miss issues, in order. */
  function Round(ip: string, api: string): (qs: seq<Query>)
    ensures |qs| <= 3 && forall i :: 0 <= i < |qs| ==> qs[i].ip == ip
  {
    (if Selects(api, IpApi) then [Query(IpApi, ip)] else [])
    + (if Selects(api, AbuseIpDb) then [Query(AbuseIpDb, ip)] else [])
    + (if Selects(api, Shodan) then [Query(Shodan, ip)] else [])
  }

  /** The slots a miss fills, by `api`. */
  function SlotsFor(api: string): set<Provider> {
    if api == "all" then {IpApi, AbuseIpDb, Shodan}
    else if api == "ip_api" then {IpApi}
    else if api == "abuseipdb" then {AbuseIpDb}
    else if api == "shodan" then {Shodan}
    else {}
  }

  /** `_get_ip_info(ip, api)` */
  function GetIpInfo(oracle: Oracle, s: Session<Info>, ip: string, api: string): (r: (Info, Session<Info>))
    // a hit answers the stored entry, whatever `api` asks for, and queries nobody
    ensures ip in s.cache ==> r == (s.cache[ip], s)
    // a miss issues one round of queries and stores its answer, whatever it holds
    ensures ip !in s.cache ==> r.1.log == s.log + Round(ip, api) && r.1.cache == s.cache[ip := r.0]
    // the answer's keys are the slots `api` names: none for an unknown name
    ensures ip !in s.cache ==> r.0.Keys == SlotsFor(api)
  {
    if ip in s.cache then (s.cache[ip], s)
    else
      var (i1, s1) := Fill(oracle, s, map[], IpApi, ip, api);
      var (i2, s2) := Fill(oracle, s1, i1, AbuseIpDb, ip, api);
      var (i3, s3) := Fill(oracle, s2, i2, Shodan, ip, api);
      (i3, Session(s3.cache[ip := i3], s3.log))
  }

  /** On a miss, each slot holds the status rule applied to the response of its
      own query, which is the i-th query of the round. */
  lemma MissFillsSlots(oracle: Oracle, s: Session<Info>, ip: string, api: string)
    requires ip !in s.cache
    ensures var (a, _) := GetIpInfo(oracle, s, ip, api);
      forall i :: 0 <= i < |Round(ip, api)| ==>
        a[Round(ip, api)[i].provider] == SlotValue(oracle(|s.log| + i, Round(ip, api)[i]))
  {
    if api == "all" {
      assert Round(ip, api) == [Query(IpApi, ip), Query(AbuseIpDb, ip), Query(Shodan, ip)];
    } else {
      assert |Round(ip, api)| <= 1;
    }
  }

  /** One call of the analyser: the IP asked about and the `api` argument. */
  datatype Call = Call(ip: string, api: string)

  /** Successive calls: the answers, the final session, and the queries each call issued. */
  function Run(oracle: Oracle, s: Session<Info>, calls: seq<Call>): (r: (seq<Info>, Session<Info>, seq<seq<Query>>))
    ensures |r.0| == |calls| && |r.2| == |calls|
  {
    if |calls| == 0 then ([], s, [])
    else
      var (answers, s1, rounds) := Run(oracle, s, calls[..|calls| - 1]);
      var c := calls[|calls| - 1];
      var (a, s2) := GetIpInfo(oracle, s1, c.ip, c.api);
      (answers + [a], s2, rounds + [s2.log[|s1.log|..]])
  }

  /** One call, in the terms the run lemmas need: the queries it issued, and
      the cache it leaves behind. */
  lemma CallStep(oracle: Oracle, s: Session<Info>, ip: string, api: string)
    ensures var (a, s1) := GetIpInfo(oracle, s, ip, api);
      && |s.log| <= |s1.log| && s1.log[..|s.log|] == s.log
      && (ip in s.cache ==> s1.log[|s.log|..] == [])
      && |s1.log[|s.log|..]| <= 3
      && (forall q :: q in s1.log[|s.log|..] ==> q.ip == ip)
      && (forall k :: k in s.cache ==> k in s1.cache && s1.cache[k] == s.cache[k])
      && ip in s1.cache && s1.cache[ip] == a
  {
    var (a, s1) := GetIpInfo(oracle, s, ip, api);
    if ip !in s.cache {
      assert s1.log[|s.log|..] == Round(ip, api);
    }
  }

  /** Entries are never overwritten or dropped, and the log only grows. */
  lemma {:induction false} RunKeepsEntries(oracle: Oracle, s: Session<Info>, calls: seq<Call>)
    ensures var s' := Run(oracle, s, calls).1;
      && |s.log| <= |s'.log|
      && forall k :: k in s.cache ==> k in s'.cache && s'.cache[k] == s.cache[k]
  {
    if |calls| > 0 {
      var c := calls[|calls| - 1];
      RunKeepsEntries(oracle, s, calls[..|calls| - 1]);
      CallStep(oracle, Run(oracle, s, calls[..|calls| - 1]).1, c.ip, c.api);
    }
  }

  /** After a run, every IP asked about is cached with the answer its call gave. */
  lemma {:induction false} RunStoresAnswers(oracle: Oracle, s: Session<Info>, calls: seq<Call>)
    ensures var (answers, s', _) := Run(oracle, s, calls);
      forall j :: 0 <= j < |calls| ==> calls[j].ip in s'.cache && s'.cache[calls[j].ip] == answers[j]
  {
    if |calls| > 0 {
      var n := |calls| - 1;
      var (answers, s1, _) := Run(oracle, s, calls[..n]);
      RunStoresAnswers(oracle, s, calls[..n]);
      CallStep(oracle, s1, calls[n].ip, calls[n].api);
      var (answers', s', _) := Run(oracle, s, calls);
      forall j | 0 <= j < |calls| ensures calls[j].ip in s'.cache && s'.cache[calls[j].ip] == answers'[j] {
        if j < n {
          assert calls[..n][j] == calls[j];
        }
      }
    }
  }

  /** Run over one more call: the previous answers, rounds and session, extended. */
  lemma RunLast(oracle: Oracle, s: Session<Info>, calls: seq<Call>)
    requires |calls| > 0
    ensures var n := |calls| - 1;
      var (answers, s1, rounds) := Run(oracle, s, calls[..n]);
      var (a, s2) := GetIpInfo(oracle, s1, calls[n].ip, calls[n].api);
      Run(oracle, s, calls) == (answers + [a], s2, rounds + [s2.log[|s1.log|..]])
  {
  }

  /** Each call's round queries only the call's own IP, at most three times,
      and nobody at all when that IP is in `cache`. */
  ghost predicate RoundsFit(calls: seq<Call>, rounds: seq<seq<Query>>, cache: map<string, Info>)
    requires |calls| == |rounds|
  {
    forall j :: 0 <= j < |calls| ==>
      && |rounds[j]| <= 3
      && (forall q :: q in rounds[j] ==> q.ip == calls[j].ip)
      && (calls[j].ip in cache ==> rounds[j] == [])
  }

  /** A call queries only its own IP, at most three times, and nobody at all
      when its IP was cached before the run. */
  lemma {:induction false} RunRounds(oracle: Oracle, s: Session<Info>, calls: seq<Call>)
    ensures var rounds := Run(oracle, s, calls).2;
      RoundsFit(calls, rounds, s.cache)
  {
    if |calls| > 0 {
      var n := |calls| - 1;
      var r1 := Run(oracle, s, calls[..n]);
      RunRounds(oracle, s, calls[..n]);
      var c := calls[n];
      var (a, s2) := GetIpInfo(oracle, r1.1, c.ip, c.api);
      var last := s2.log[|r1.1.log|..];
      assert |last| <= 3 && (forall q :: q in last ==> q.ip == c.ip) && (c.ip in s.cache ==> last == []) by {
        RunKeepsEntries(oracle, s, calls[..n]);
        CallStep(oracle, r1.1, c.ip, c.api);
      }
      ExtendRounds(calls, r1.2, s.cache, last);
      assert Run(oracle, s, calls).2 == r1.2 + [last] by {
        RunLast(oracle, s, calls);
      }
    }
  }

  /** The step of `RunRounds`: one more call whose round fits keeps the property. */
  lemma ExtendRounds(calls: seq<Call>, rounds: seq<seq<Query>>, cache: map<string, Info>, last: seq<Query>)
    requires |calls| == |rounds| + 1
    requires RoundsFit(calls[..|rounds|], rounds, cache)
    requires var c := calls[|rounds|];
      |last| <= 3 && (forall q :: q in last ==> q.ip == c.ip) && (c.ip in cache ==> last == [])
    ensures RoundsFit(calls, rounds + [last], cache)
  {
    var prev := calls[..|rounds|];
    var all: seq<seq<Query>> := rounds + [last];
    forall j | 0 <= j < |calls|
      ensures |all[j]| <= 3
      ensures forall q :: q in all[j] ==> q.ip == calls[j].ip
      ensures calls[j].ip in cache ==> all[j] == []
    {
      if j < |rounds| {
        assert prev[j] == calls[j] && all[j] == rounds[j];
      } else {
        assert all[j] == last;
      }
    }
  }

  /** Every repeat of an IP among `calls` issued no query and answered what
      the first call for that IP answered. */
  ghost predicate RepeatsSilent(calls: seq<Call>, answers: seq<Info>, rounds: seq<seq<Query>>)
    requires |calls| == |answers| == |rounds|
  {
    forall i, j :: 0 <= i < j < |calls| && calls[i].ip == calls[j].ip ==> rounds[j] == [] && answers[j] == answers[i]
  }

  /** A later call for an IP already asked about queries nobody and answers
      the identical entry. */
  lemma {:induction false} RepeatIsSilent(oracle: Oracle, s: Session<Info>, calls: seq<Call>)
    ensures var r := Run(oracle, s, calls);
      RepeatsSilent(calls, r.0, r.2)
  {
    if |calls| > 0 {
      var n := |calls| - 1;
      var r1 := Run(oracle, s, calls[..n]);
      RepeatIsSilent(oracle, s, calls[..n]);
      RunStoresAnswers(oracle, s, calls[..n]);
      var c := calls[n];
      var (a, s2) := GetIpInfo(oracle, r1.1, c.ip, c.api);
      var last := s2.log[|r1.1.log|..];
      assert c.ip in r1.1.cache ==> last == [] && a == r1.1.cache[c.ip] by {
        CallStep(oracle, r1.1, c.ip, c.api);
      }
      ExtendRepeat(calls, r1.0, r1.2, r1.1.cache, a, last);
      var r := Run(oracle, s, calls);
      assert r.0 == r1.0 + [a] && r.2 == r1.2 + [last] by {
        RunLast(oracle, s, calls);
      }
    }
  }

  /** The step of `RepeatIsSilent`: one more call keeps the property when a
      call whose IP is cached is silent and answers the cached entry. */
  lemma ExtendRepeat(calls: seq<Call>, answers: seq<Info>, rounds: seq<seq<Query>>, cache: map<string, Info>, a: Info, last: seq<Query>)
    requires |calls| == |answers| + 1 == |rounds| + 1
    requires RepeatsSilent(calls[..|answers|], answers, rounds)
    requires var prev := calls[..|answers|];
      forall i :: 0 <= i < |prev| ==> prev[i].ip in cache && cache[prev[i].ip] == answers[i]
    requires calls[|answers|].ip in cache ==> last == [] && a == cache[calls[|answers|].ip]
    ensures RepeatsSilent(calls, answers + [a], rounds + [last])
  {
    var prev := calls[..|answers|];
    var all := answers + [a];
    var allRounds := rounds + [last];
    forall i, j | 0 <= i < j < |calls| && calls[i].ip == calls[j].ip
      ensures allRounds[j] == [] && all[j] == all[i]
    {
      assert prev[i] == calls[i] && all[i] == answers[i];
      if j < |answers| {
        assert prev[j] == calls[j] && all[j] == answers[j] && allRounds[j] == rounds[j];
      } else {
        assert all[j] == a && allRounds[j] == last;
      }
    }
  }

  /** All queries of a run, call after call. */
  function Flatten(rounds: seq<seq<Query>>): seq<Query> {
    if |rounds| == 0 then [] else Flatten(rounds[..|rounds| - 1]) + rounds[|rounds| - 1]
  }

  /** At most one round per IP: over any sequence of calls, one IP is queried at
      most three times in all, and never when it was cached to begin with. */
  lemma AtMostOneRoundPerIp(oracle: Oracle, s: Session<Info>, calls: seq<Call>, ip: string)
    ensures var rounds := Run(oracle, s, calls).2;
      && QueriesFor(Flatten(rounds), ip) <= 3
      && (ip in s.cache ==> QueriesFor(Flatten(rounds), ip) == 0)
  {
    var r := Run(oracle, s, calls);
    RunRounds(oracle, s, calls);
    RepeatIsSilent(oracle, s, calls);
    CountAll(calls, r.0, r.2, s.cache, ip);
  }

  /** The counting half of `AtMostOneRoundPerIp`, for any rounds that fit
      their calls and stay silent on repeats. */
  lemma CountAll(calls: seq<Call>, answers: seq<Info>, rounds: seq<seq<Query>>, cache: map<string, Info>, ip: string)
    requires |calls| == |answers| == |rounds|
    requires RoundsFit(calls, rounds, cache)
    requires RepeatsSilent(calls, answers, rounds)
    ensures QueriesFor(Flatten(rounds), ip) <= 3
    ensures ip in cache ==> QueriesFor(Flatten(rounds), ip) == 0
  {
    var j := FirstRoundFor(calls, rounds, ip, |calls|);
    CountRounds(calls, answers, rounds, cache, ip, |calls|, j);
    assert rounds[..|calls|] == rounds;
  }

  /** The first call (below `n`) whose round queried `ip`, or `n` when none did. */
  function FirstRoundFor(calls: seq<Call>, rounds: seq<seq<Query>>, ip: string, n: nat): (j: nat)
    requires n <= |calls| == |rounds|
    ensures j <= n
    ensures j < n ==> calls[j].ip == ip && rounds[j] != []
    ensures forall i :: 0 <= i < j ==> calls[i].ip != ip || rounds[i] == []
  {
    if n == 0 then 0
    else
      var j := FirstRoundFor(calls, rounds, ip, n - 1);
      if j < n - 1 then j
      else if calls[n - 1].ip == ip && rounds[n - 1] != [] then n - 1
      else n
  }

  /** Counting the queries for `ip`, round by round: only round `j` can hold any. */
  lemma {:induction false} CountRounds(calls: seq<Call>, answers: seq<Info>, rounds: seq<seq<Query>>, cache: map<string, Info>, ip: string, n: nat, j: nat)
    requires n <= |calls| == |answers| == |rounds|
    requires RoundsFit(calls, rounds, cache)
    requires RepeatsSilent(calls, answers, rounds)
    requires j == FirstRoundFor(calls, rounds, ip, |calls|)
    ensures QueriesFor(Flatten(rounds[..n]), ip) <= 3
    ensures j >= n ==> QueriesFor(Flatten(rounds[..n]), ip) == 0
    ensures ip in cache ==> QueriesFor(Flatten(rounds[..n]), ip) == 0
  {
    if n > 0 {
      var k := n - 1;
      var last := rounds[k];
      CountRounds(calls, answers, rounds, cache, ip, k, j);
      assert Flatten(rounds[..n]) == Flatten(rounds[..k]) + last by {
        assert rounds[..n][..k] == rounds[..k];
      }
      QueriesForAppend(Flatten(rounds[..k]), last, ip);
      if calls[k].ip == ip {
        QueriesAtMost(last, ip);
        if k != j || ip in cache {
          if ip in cache {
            assert last == [] by { FitAt(calls, rounds, cache, k); }
          } else if j < k {
            assert last == [] by { SilentAt(calls, answers, rounds, j, k); }
          } else {
            assert k < j;
          }
        }
      } else {
        QueriesNone(last, ip);
      }
    }
  }

  /** `RoundsFit` at one call. */
  lemma FitAt(calls: seq<Call>, rounds: seq<seq<Query>>, cache: map<string, Info>, k: nat)
    requires k < |calls| == |rounds|
    requires RoundsFit(calls, rounds, cache)
    ensures |rounds[k]| <= 3
    ensures calls[k].ip in cache ==> rounds[k] == []
  {
  }

  /** `RepeatsSilent` at one pair of calls. */
  lemma SilentAt(calls: seq<Call>, answers: seq<Info>, rounds: seq<seq<Query>>, i: nat, k: nat)
    requires i < k < |calls| == |answers| == |rounds|
    requires RepeatsSilent(calls, answers, rounds)
    requires calls[i].ip == calls[k].ip
    ensures rounds[k] == []
  {
  }

  lemma QueriesAtMost(qs: seq<Query>, ip: string)
    ensures QueriesFor(qs, ip) <= |qs|
  {
  }

  lemma {:induction false} QueriesNone(qs: seq<Query>, ip: string)
    requires forall q :: q in qs ==> q.ip != ip
    ensures QueriesFor(qs, ip) == 0
  {
    if |qs| > 0 {
      assert qs[|qs| - 1] in qs;
      QueriesNone(qs[..|qs| - 1], ip);
    }
  }

  /** An unknown `api` name queries nobody yet caches `{}`, and that entry then
      shadows the IP for good: a later call with `"all"` answers `{}` too. */
  lemma UnknownApiPoisonsEntry(oracle: Oracle, s: Session<Info>, ip: string, api: string)
    requires ip !in s.cache
    requires api !in {"all", "ip_api", "abuseipdb", "shodan"}
    ensures var (a, s1) := GetIpInfo(oracle, s, ip, api);
      && a == map[] && s1.log == s.log
      && GetIpInfo(oracle, s1, ip, "all") == (map[], s1)
  {
  }
}
