/**
 * `get_ip_details` of the live SIP capture: a cache of ip-api.com bodies keyed
 * by IP string. Only a successful lookup is cached; a failed one answers `{}`
 * and leaves the cache alone, so the next call for that IP asks again.
 * Writing the cache file after each store is modelled as the map update alone.
 */
module SipCache {
  import opened Enrichment

  /** `get_ip_details(ip)` */
  function GetIpDetails(oracle: Oracle, s: Session<Json>, ip: string): (r: (Json, Session<Json>))
    // a hit answers the stored body and asks nobody
    ensures ip in s.cache ==> r == (s.cache[ip], s)
    // a miss asks ip-api exactly once
    ensures ip !in s.cache ==> r.1.log == s.log + [Query(IpApi, ip)]
    // a miss answered with status 200 stores and returns the body
    ensures ip !in s.cache && oracle(|s.log|, Query(IpApi, ip)).status == 200 ==>
      r.0 == oracle(|s.log|, Query(IpApi, ip)).body && r.1.cache == s.cache[ip := r.0]
    // any other status answers `{}` and stores nothing
    ensures ip !in s.cache && oracle(|s.log|, Query(IpApi, ip)).status != 200 ==>
      r.0 == EmptyObject && r.1.cache == s.cache
  {
    if ip in s.cache then (s.cache[ip], s)
    else
      var (resp, s1) := Ask(oracle, s, Query(IpApi, ip));
      if resp.status == 200 then (resp.body, Session(s1.cache[ip := resp.body], s1.log))
      else (EmptyObject, s1)
  }

  /** Successive calls, one per IP of `ips`: their answers and the final session. */
  function Run(oracle: Oracle, s: Session<Json>, ips: seq<string>): (r: (seq<Json>, Session<Json>))
    ensures |r.0| == |ips|
  {
    if |ips| == 0 then ([], s)
    else
      var (answers, s1) := Run(oracle, s, ips[..|ips| - 1]);
      var (a, s2) := GetIpDetails(oracle, s1, ips[|ips| - 1]);
      (answers + [a], s2)
  }

  /** One call, in the terms the run lemmas need: the log grows by its
      query, if any, and no entry is dropped or changed. */
  lemma DetailsStep(oracle: Oracle, s: Session<Json>, ip: string)
    ensures var (a, s1) := GetIpDetails(oracle, s, ip);
      && |s.log| <= |s1.log| && s1.log[..|s.log|] == s.log
      && (ip in s.cache ==> s1.log[|s.log|..] == [] && a == s.cache[ip])
      && (ip !in s.cache ==> s1.log[|s.log|..] == [Query(IpApi, ip)])
      && (ip !in s.cache && oracle(|s.log|, Query(IpApi, ip)).status != 200 ==> s1.cache == s.cache)
      && (forall k :: k in s.cache ==> k in s1.cache && s1.cache[k] == s.cache[k])
  {
    var (a, s1) := GetIpDetails(oracle, s, ip);
    if ip !in s.cache {
      assert s1.log[|s.log|..] == [Query(IpApi, ip)];
    }
  }

  /** Run over one more IP: the previous answers and session, extended. */
  lemma RunLast(oracle: Oracle, s: Session<Json>, ips: seq<string>)
    requires |ips| > 0
    ensures var (answers, s1) := Run(oracle, s, ips[..|ips| - 1]);
      var (a, s2) := GetIpDetails(oracle, s1, ips[|ips| - 1]);
      Run(oracle, s, ips) == (answers + [a], s2)
  {
  }

  /** A log that extends `a` splits, from any point of `a`, into that suffix
      of `a` and what was appended. */
  lemma LogGrows(a: seq<Query>, b: seq<Query>, m: nat)
    requires m <= |a| <= |b| && b[..|a|] == a
    ensures b[m..] == a[m..] + b[|a|..]
  {
  }

  /** Entries are never overwritten or dropped, and the log only grows. */
  lemma {:induction false} RunKeepsEntries(oracle: Oracle, s: Session<Json>, ips: seq<string>)
    ensures var s' := Run(oracle, s, ips).1;
      && (forall k :: k in s.cache ==> k in s'.cache && s'.cache[k] == s.cache[k])
      && |s.log| <= |s'.log| && s'.log[..|s.log|] == s.log
  {
    if |ips| > 0 {
      var n := |ips| - 1;
      var s1 := Run(oracle, s, ips[..n]).1;
      RunKeepsEntries(oracle, s, ips[..n]);
      DetailsStep(oracle, s1, ips[n]);
      RunLast(oracle, s, ips);
    }
  }

  /** Every call for `ip` among `ips` answered `v`. */
  ghost predicate AnswersAt(ips: seq<string>, answers: seq<Json>, ip: string, v: Json)
    requires |ips| == |answers|
  {
    forall j :: 0 <= j < |ips| && ips[j] == ip ==> answers[j] == v
  }

  lemma ExtendAnswers(ips: seq<string>, answers: seq<Json>, ip: string, v: Json, a: Json)
    requires |ips| == |answers| + 1
    requires AnswersAt(ips[..|answers|], answers, ip, v)
    requires ips[|answers|] == ip ==> a == v
    ensures AnswersAt(ips, answers + [a], ip, v)
  {
    var prev := ips[..|answers|];
    var all := answers + [a];
    forall j | 0 <= j < |ips| && ips[j] == ip ensures all[j] == v {
      if j < |answers| {
        assert prev[j] == ips[j] && all[j] == answers[j];
      }
    }
  }

  /** Once an IP is stored, every later call for it answers the stored body and
      no query for it is issued again. */
  lemma {:induction false} StoredIsFinal(oracle: Oracle, s: Session<Json>, ips: seq<string>, ip: string)
    requires ip in s.cache
    ensures var (answers, s') := Run(oracle, s, ips);
      && |s.log| <= |s'.log|
      && QueriesFor(s'.log[|s.log|..], ip) == 0
      && AnswersAt(ips, answers, ip, s.cache[ip])
  {
    if |ips| > 0 {
      var n := |ips| - 1;
      var (answers, s1) := Run(oracle, s, ips[..n]);
      StoredIsFinal(oracle, s, ips[..n], ip);
      var x := ips[n];
      var (a, s2) := GetIpDetails(oracle, s1, x);
      assert Run(oracle, s, ips) == (answers + [a], s2) by {
        RunLast(oracle, s, ips);
      }
      assert ip in s1.cache && s1.cache[ip] == s.cache[ip] && s1.log[..|s.log|] == s.log by {
        RunKeepsEntries(oracle, s, ips[..n]);
      }
      DetailsStep(oracle, s1, x);
      var added := s2.log[|s1.log|..];
      LogGrows(s1.log, s2.log, |s.log|);
      QueriesForAppend(s1.log[|s.log|..], added, ip);
      if x !in s1.cache {
        QueriesForOne(Query(IpApi, x), ip);
      }
      ExtendAnswers(ips, answers, ip, s.cache[ip], a);
    }
  }

  /** A failed lookup is retried: after a non-200 answer the IP is still not
      cached, so the next call for it queries ip-api again. */
  lemma FailureIsRetried(oracle: Oracle, s: Session<Json>, ip: string)
    requires ip !in s.cache
    requires oracle(|s.log|, Query(IpApi, ip)).status != 200
    ensures var s1 := GetIpDetails(oracle, s, ip).1;
      && ip !in s1.cache
      && GetIpDetails(oracle, s1, ip).1.log == s.log + [Query(IpApi, ip), Query(IpApi, ip)]
  {
  }

  /** While ip-api keeps failing for an IP, every call for it issues a query:
      the number of queries equals the number of calls, without bound. */
  lemma {:induction false} AlwaysFailingIsAlwaysAsked(oracle: Oracle, s: Session<Json>, ips: seq<string>, ip: string)
    requires ip !in s.cache
    requires forall n :: oracle(n, Query(IpApi, ip)).status != 200
    ensures var s' := Run(oracle, s, ips).1;
      && ip !in s'.cache
      && |s.log| <= |s'.log|
      && QueriesFor(s'.log[|s.log|..], ip) == Occurrences(ips, ip)
  {
    if |ips| > 0 {
      var n := |ips| - 1;
      var s1 := Run(oracle, s, ips[..n]).1;
      AlwaysFailingIsAlwaysAsked(oracle, s, ips[..n], ip);
      var x := ips[n];
      var s2 := GetIpDetails(oracle, s1, x).1;
      assert Run(oracle, s, ips).1 == s2 by {
        RunLast(oracle, s, ips);
      }
      assert s1.log[..|s.log|] == s.log by {
        RunKeepsEntries(oracle, s, ips[..n]);
      }
      DetailsStep(oracle, s1, x);
      var added := s2.log[|s1.log|..];
      LogGrows(s1.log, s2.log, |s.log|);
      QueriesForAppend(s1.log[|s.log|..], added, ip);
      if x !in s1.cache {
        QueriesForOne(Query(IpApi, x), ip);
      } else {
        assert x != ip;
      }
      assert Occurrences(ips, ip) == Occurrences(ips[..n], ip) + (if x == ip then 1 else 0);
    }
  }

  /** How many times `ip` occurs in `ips`. */
  function Occurrences(ips: seq<string>, ip: string): nat {
    if |ips| == 0 then 0
    else Occurrences(ips[..|ips| - 1], ip) + (if ips[|ips| - 1] == ip then 1 else 0)
  }
}
