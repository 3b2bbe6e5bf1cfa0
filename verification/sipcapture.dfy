/**
 * `process_packet` of the live SIP capture: which packets it keeps, and the
 * record it assembles for the sink from a kept packet's payload.
 *
 * Dissection is left to the caller: a packet arrives with its IP layer and its
 * UDP and TCP layers (if any) split out. The capture time arrives already
 * formatted, and the lenient `decode('utf-8', errors='replace')` is a
 * parameter. Indexing the record is left out: the record is the result.
 */
module SipCapture {
  import opened Wrappers
  import opened Bytes
  import opened Address
  import opened Enrichment
  import opened SipParser
  import SipCache

  /** A UDP or TCP layer: its ports and its payload. */
  datatype Transport = Transport(sport: nat, dport: nat, payload: seq<Byte>)

  datatype IpLayer = IpLayer(src: IPv4, dst: IPv4)

  datatype SipPacket = SipPacket(time: string, ip: Option<IpLayer>, udp: Option<Transport>, tcp: Option<Transport>)

  // ----------------------------------------------------- destination filter

  /** How the destination test of `process_packet` ends. */
  datatype Verdict =
    | External  // the destination is `EXTERNAL_IP`; `is_internal` is not consulted
    | Internal  // the destination is in a private block
    | Outside   // neither: the packet is dropped

  /** `dest_ip != EXTERNAL_IP and not is_internal(dest_ip)`, with its short circuit. */
  function Destination(externalIp: string, dst: IPv4): (v: Verdict)
    ensures v == External <==> Format(dst) == externalIp
    // any other destination is kept exactly when it is internal
    ensures v != External ==> (v == Internal <==> IsInternal(dst))
  {
    if Format(dst) == externalIp then External
    else if IsInternal(dst) then Internal
    else Outside
  }

  /** The external address is kept even when it is public: 203.0.113.5 is in
      no private block, yet a packet to it passes. */
  lemma PublicExternalKept(dst: IPv4, externalIp: string)
    requires dst == IPv4(203, 0, 113, 5) && externalIp == Format(dst)
    ensures !IsInternal(dst) && Destination(externalIp, dst) == External
  {
    IsInternalOctets(dst);
  }

  // ------------------------------------------------------------- port rule

  /** SIP's default ports, section 19.1.2 of RFC 3261: 5060, and 5061 for TLS. */
  const SipPort: nat := 5060
  const SipsPort: nat := 5061

  predicate UdpKept(t: Transport) {
    t.sport == SipPort || t.dport == SipPort
  }

  predicate TcpKept(t: Transport) {
    t.sport in {SipPort, SipsPort} || t.dport in {SipPort, SipsPort}
  }

  /** The payload the port rule selects: UDP first, then TCP; `None` drops the packet. */
  function SipPayload(p: SipPacket): (r: Option<seq<Byte>>)
    ensures r.Some? <==> (p.udp.Some? && UdpKept(p.udp.value)) || (p.tcp.Some? && TcpKept(p.tcp.value))
    ensures p.udp.Some? && UdpKept(p.udp.value) ==> r == Some(p.udp.value.payload)
    ensures !(p.udp.Some? && UdpKept(p.udp.value)) && p.tcp.Some? && TcpKept(p.tcp.value) ==> r == Some(p.tcp.value.payload)
  {
    if p.udp.Some? && UdpKept(p.udp.value) then Some(p.udp.value.payload)
    else if p.tcp.Some? && TcpKept(p.tcp.value) then Some(p.tcp.value.payload)
    else None
  }

  /** UDP on 5061 is not SIP to the capture, while TCP on 5061 is. */
  lemma PortsDiffer(t: Transport)
    requires t.sport == 5061 && t.dport == 5061
    ensures !UdpKept(t) && TcpKept(t)
  {
  }

  // ---------------------------------------------------------------- record

  /** The record assembled from the message text: the parsed headers as strings,
      `Timestamp` set over them, `Authorization_Details` when the search
      matches, and `Source_IP_Details` last. */
  function SipRecord(text: string, time: string, details: Json): (r: map<string, Json>)
    ensures "Timestamp" in r && r["Timestamp"] == JString(time)
    ensures "Source_IP_Details" in r && r["Source_IP_Details"] == details
    ensures AuthorizationDetails(text).Some? ==>
      "Authorization_Details" in r && r["Authorization_Details"] == StringObject(AuthorizationDetails(text).value)
    // without a match, a parsed `Authorization_Details` header survives as it was
    ensures AuthorizationDetails(text).None? ==>
      && ("Authorization_Details" in r <==> "Authorization_Details" in ParseSipData(text))
      && ("Authorization_Details" in r ==> r["Authorization_Details"] == JString(ParseSipData(text)["Authorization_Details"]))
    // every other key is a parsed header, with its parsed value
    ensures forall k :: k !in {"Timestamp", "Source_IP_Details", "Authorization_Details"} ==>
      (k in r <==> k in ParseSipData(text)) && (k in r ==> r[k] == JString(ParseSipData(text)[k]))
  {
    var parsed := StringObject(ParseSipData(text)).members;
    var stamped := parsed["Timestamp" := JString(time)];
    var withAuth :=
      match AuthorizationDetails(text)
      case Some(d) => stamped["Authorization_Details" := StringObject(d)]
      case None => stamped;
    withAuth["Source_IP_Details" := details]
  }

  /** `process_packet(packet)`: the record for a kept packet, and the session
      after its source address was looked up; `None` for a dropped one. */
  function ProcessPacket(oracle: Oracle, s: Session<Json>, externalIp: string, decode: seq<Byte> -> string, p: SipPacket)
    : (r: (Option<map<string, Json>>, Session<Json>))
    // a packet is kept exactly when it has an IP layer, its destination passes,
    // and the port rule selects a payload; a dropped packet costs no lookup
    ensures r.0.Some? <==> p.ip.Some? && Destination(externalIp, p.ip.value.dst) != Outside && SipPayload(p).Some?
    ensures r.0.None? ==> r.1 == s
    // a kept packet's record is built from its decoded payload, with the
    // source address's details from the cache
    ensures r.0.Some? ==>
      var (details, s1) := SipCache.GetIpDetails(oracle, s, Format(p.ip.value.src));
      r == (Some(SipRecord(decode(SipPayload(p).value), p.time, details)), s1)
  {
    if p.ip.None? then (None, s)
    else if Destination(externalIp, p.ip.value.dst) == Outside then (None, s)
    else match SipPayload(p)
      case None => (None, s)
      case Some(payload) =>
        var text := decode(payload);
        var (details, s1) := SipCache.GetIpDetails(oracle, s, Format(p.ip.value.src));
        (Some(SipRecord(text, p.time, details)), s1)
  }

  /** An empty payload is not skipped: a kept packet with no payload bytes
      still yields a record holding at least `Timestamp` and `Source_IP_Details`. */
  lemma EmptyPayloadIndexed(oracle: Oracle, s: Session<Json>, externalIp: string, decode: seq<Byte> -> string, p: SipPacket)
    requires p.ip.Some? && Destination(externalIp, p.ip.value.dst) != Outside
    requires SipPayload(p) == Some([])
    ensures var r := ProcessPacket(oracle, s, externalIp, decode, p).0;
      r.Some? && "Timestamp" in r.value && "Source_IP_Details" in r.value
  {
  }
}
