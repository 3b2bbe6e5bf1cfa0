/**
 * What the enrichment caches are built on: JSON bodies, the three providers,
 * their HTTP responses, and a session that threads a cache and the log of the
 * provider queries issued so far through successive calls.
 *
 * The providers are an oracle: the response to the n-th query of a session
 * (n counted from 0) for a provider and an IP. Because the index is part of
 * the question, a provider may answer the same IP differently on a retry.
 */
module Enrichment {

  /** A JSON value as `response.json()` returns it; `JNull` is Python's `None`. */
  datatype Json =
    | JNull
    | JBool(b: bool)
    | JNumber(literal: string)
    | JString(s: string)
    | JArray(items: seq<Json>)
    | JObject(members: map<string, Json>)

  /** Python's `{}`. */
  const EmptyObject: Json := JObject(map[])

  /** A dict of strings as a JSON object. */
  function StringObject(m: map<string, string>): (j: Json)
    ensures j.JObject? && j.members.Keys == m.Keys
    ensures forall k :: k in m ==> j.members[k] == JString(m[k])
  {
    JObject(map k | k in m :: JString(m[k]))
  }

  datatype Provider = IpApi | AbuseIpDb | Shodan

  datatype Response = Response(status: int, body: Json)

  /** One provider query for one IP. */
  datatype Query = Query(provider: Provider, ip: string)

  /** The response to the query with the given index in the session. */
  type Oracle = (nat, Query) -> Response

  /** A cache keyed by IP string, and every provider query issued so far. */
  datatype Session<V> = Session(cache: map<string, V>, log: seq<Query>)

  /** Issue one query: the oracle answers, and the query is appended to the log. */
  function Ask<V>(oracle: Oracle, s: Session<V>, q: Query): (r: (Response, Session<V>))
    ensures r.1.cache == s.cache && r.1.log == s.log + [q]
  {
    (oracle(|s.log|, q), Session(s.cache, s.log + [q]))
  }

  /** The queries of `log` about `ip`. */
  function QueriesFor(log: seq<Query>, ip: string): (n: nat)
    ensures n <= |log|
  {
    if |log| == 0 then 0
    else QueriesFor(log[..|log| - 1], ip) + (if log[|log| - 1].ip == ip then 1 else 0)
  }

  lemma QueriesForOne(q: Query, ip: string)
    ensures QueriesFor([q], ip) == if q.ip == ip then 1 else 0
  {
    assert [q][..0] == [];
  }

  lemma QueriesForAppend(a: seq<Query>, b: seq<Query>, ip: string)
    ensures QueriesFor(a + b, ip) == QueriesFor(a, ip) + QueriesFor(b, ip)
    decreases |b|
  {
    if |b| > 0 {
      assert (a + b)[..|a + b| - 1] == a + b[..|b| - 1];
      QueriesForAppend(a, b[..|b| - 1], ip);
    } else {
      assert a + b == a;
    }
  }
}
