/**
 * The offline analyser `PacketAnalyzer`: it reads a capture, keeps the packets
 * addressed to the target IP, turns each into a record (enriched with the
 * cached provider answers and the decoded payload) and hands it to the sink,
 * counting as it goes and reporting progress every 5000 packets.
 *
 * Capture reading and dissection are left to the caller: a packet arrives with
 * its fields split out. The sink is an oracle saying whether the n-th index
 * call succeeds; a failing call raises, as does a packet without an IP layer,
 * and either ends the run.
 */
module PcapAnalysis {
  import opened Wrappers
  import opened Bytes
  import Utf8
  import opened Headers
  import opened Address
  import opened Enrichment
  import opened PcapCache

  // ------------------------------------------------------------- records

  /** The keys of an indexed record: the fixed fields `_process_packet` always
      writes, and the provider slots merged from the cached answer. */
  datatype Field =
    | PacketName | PacketTime | SrcIp | DstIp | SrcPort | DstPort | Type | Length | Payload
    | DecodedString | DecodedStringKey | DecodingError | HexadecimalString
    | Slot(provider: Provider)

  /** The key as the record spells it. */
  function FieldName(f: Field): string {
    match f
    case PacketName => "packetName"
    case PacketTime => "packetTime"
    case SrcIp => "srcIP"
    case DstIp => "dstIP"
    case SrcPort => "srcPort"
    case DstPort => "dstPort"
    case Type => "type"
    case Length => "length"
    case Payload => "payload"
    case DecodedString => "decodedString"
    case DecodedStringKey => "decodedStringKey"
    case DecodingError => "decodingError"
    case HexadecimalString => "hexadecimalString"
    case Slot(provider) => SlotKey(provider)
  }

  /** The four fields the decoder writes. */
  predicate IsDecoding(f: Field) {
    f.DecodedString? || f.DecodedStringKey? || f.DecodingError? || f.HexadecimalString?
  }

  /** Some of a record's fields, as a dictionary: what `_decode_raw_data` returns. */
  type Fields = map<Field, Json>

  /** The dictionary `_process_packet` indexes. Its thirteen fixed keys are
      always present, so each is a field here; the provider slots are present
      only when the merged answer held them. */
  datatype Record = Record(
    packetName: Json, packetTime: Json, srcIp: Json, dstIp: Json,
    srcPort: Json, dstPort: Json, kind: Json, length: Json, payload: Json,
    decodedString: Json, decodedStringKey: Json, decodingError: Json, hexadecimalString: Json,
    slots: map<Provider, Json>)

  /** `record.get(key)`: the value under a key, `None` when the key is absent. */
  function Lookup(r: Record, f: Field): Option<Json> {
    match f
    case PacketName => Some(r.packetName)
    case PacketTime => Some(r.packetTime)
    case SrcIp => Some(r.srcIp)
    case DstIp => Some(r.dstIp)
    case SrcPort => Some(r.srcPort)
    case DstPort => Some(r.dstPort)
    case Type => Some(r.kind)
    case Length => Some(r.length)
    case Payload => Some(r.payload)
    case DecodedString => Some(r.decodedString)
    case DecodedStringKey => Some(r.decodedStringKey)
    case DecodingError => Some(r.decodingError)
    case HexadecimalString => Some(r.hexadecimalString)
    case Slot(q) => if q in r.slots then Some(r.slots[q]) else None
  }

  // -------------------------------------------------------- raw payloads

  const DecodingErrorText: string := "The bytes could not be decoded as a UTF-8 string"

  /** `_decode_raw_data(raw_bytes)`: the decoded text and its colon-line map,
      or, when the bytes are not UTF-8, the error text and the hexadecimal
      form. */
  function DecodeRawData(raw: seq<Byte>): (r: Fields)
    // well-formed bytes give exactly the text and its colon map, and the text
    // encodes back to the payload
    ensures Utf8.WellFormed(raw) ==>
      && r.Keys == {DecodedString, DecodedStringKey}
      && r[DecodedString].JString?
      && Utf8.Encode(r[DecodedString].s) == raw
      && r[DecodedStringKey] == StringObject(ColonMap(r[DecodedString].s))
    // anything else gives exactly the error text and a hexadecimal form that
    // reads back to the payload
    ensures !Utf8.WellFormed(raw) ==>
      && r.Keys == {DecodingError, HexadecimalString}
      && r[DecodingError] == JString(DecodingErrorText)
      && r[HexadecimalString].JString?
      && Unhex(r[HexadecimalString].s) == Some(raw)
  {
    match Utf8.Decode(raw)
    case Some(text) =>
      Utf8.DecodeEncodes(raw);
      map[DecodedString := JString(text), DecodedStringKey := StringObject(ColonMap(text))]
    case None =>
      UnhexHex(raw);
      map[DecodingError := JString(DecodingErrorText), HexadecimalString := JString(Hex(raw))]
  }

  /** Never both: a payload yields the decoded pair or the error pair. */
  lemma DecodeRawDataNeverBoth(raw: seq<Byte>)
    ensures var r := DecodeRawData(raw);
      && (DecodedString in r) != (DecodingError in r)
      && (DecodedStringKey in r) != (HexadecimalString in r)
  {
  }

  // ------------------------------------------------------------- packets

  datatype IpHeader = IpHeader(src: string, dst: string)

  /** A dissected packet. `time` is the formatted capture time and `summary`
      the `str()` of a non-empty payload; both are opaque here. */
  datatype Packet = Packet(
    name: string,
    time: string,
    ip: Option<IpHeader>,
    sport: Option<nat>,
    dport: Option<nat>,
    kind: Option<nat>,
    length: Option<nat>,
    summary: Option<string>,
    raw: Option<seq<Byte>>)

  function NumberOr(n: Option<nat>, absent: Json): Json {
    match n
    case Some(v) => JNumber(Decimal(v))
    case None => absent
  }

  /** A numeric field as the record holds it: the absent value when the packet
      lacks the attribute, and otherwise a number literal that reads back as
      the attribute's value. */
  ghost predicate HoldsNumber(j: Json, n: Option<nat>, absent: Json) {
    match n
    case None => j == absent
    case Some(v) =>
      && j.JNumber?
      && (forall k :: 0 <= k < |j.literal| ==> '0' <= j.literal[k] <= '9')
      && DecimalValue(j.literal) == v
  }

  /** The record `_process_packet` starts from, before enrichment and decoding:
      every fixed field, the four decoding ones `None`, no slots. */
  function BaseRecord(p: Packet): (r: Record)
    ensures r.slots == map[]
    ensures r.decodedString == r.decodedStringKey == r.decodingError == r.hexadecimalString == JNull
  {
    Record(
      JString(p.name), JString(p.time),
      if p.ip.Some? then JString(p.ip.value.src) else JNull,
      if p.ip.Some? then JString(p.ip.value.dst) else JNull,
      NumberOr(p.sport, JString("N/A")), NumberOr(p.dport, JString("N/A")),
      NumberOr(p.kind, JNull), NumberOr(p.length, JNull),
      if p.summary.Some? then JString(p.summary.value) else JNull,
      JNull, JNull, JNull, JNull,
      map[])
  }

  /** The fixed fields of the starting record are the packet's: its name and
      time as strings, the addresses (or `None`), the ports (or `'N/A'`), the
      type and length (or `None`), and the payload summary (or `None`). */
  lemma BaseRecordFields(p: Packet)
    ensures var r := BaseRecord(p);
      && r.packetName == JString(p.name) && r.packetTime == JString(p.time)
      && (p.ip.Some? ==> r.srcIp == JString(p.ip.value.src) && r.dstIp == JString(p.ip.value.dst))
      && (p.ip.None? ==> r.srcIp == JNull && r.dstIp == JNull)
      && HoldsNumber(r.srcPort, p.sport, JString("N/A"))
      && HoldsNumber(r.dstPort, p.dport, JString("N/A"))
      && HoldsNumber(r.kind, p.kind, JNull)
      && HoldsNumber(r.length, p.length, JNull)
      && (p.summary.Some? ==> r.payload == JString(p.summary.value))
      && (p.summary.None? ==> r.payload == JNull)
  {
    if p.sport.Some? { DecimalRoundTrip(p.sport.value); }
    if p.dport.Some? { DecimalRoundTrip(p.dport.value); }
    if p.kind.Some? { DecimalRoundTrip(p.kind.value); }
    if p.length.Some? { DecimalRoundTrip(p.length.value); }
  }

  /** Fields other than the slots and the four decoding ones. */
  predicate IsFixedPacketField(f: Field) {
    !f.Slot? && !IsDecoding(f)
  }

  /** `packet_dict.update(ip_info)`: the answer's slots merged over the
      record's, the answer winning; no fixed field is touched, since no slot
      name is a fixed key. */
  function Enrich(record: Record, info: Info): (r: Record)
    ensures forall q :: q in r.slots <==> q in record.slots || q in info
    ensures forall q :: q in info ==> r.slots[q] == info[q]
    ensures forall q :: q in record.slots && q !in info ==> r.slots[q] == record.slots[q]
    ensures forall f: Field :: !f.Slot? ==> Lookup(r, f) == Lookup(record, f)
  {
    record.(slots := record.slots + info)
  }

  /** `packet_dict.update(self._decode_raw_data(...))`: each decoding key the
      decoder returned overwrites the record's. */
  function WithDecoding(record: Record, decoded: Fields): (r: Record)
    requires forall f :: f in decoded ==> IsDecoding(f)
    ensures forall f :: f in decoded ==> Lookup(r, f) == Some(decoded[f])
    ensures forall f :: f !in decoded ==> Lookup(r, f) == Lookup(record, f)
  {
    DecodingCases();
    record.(
      decodedString := if DecodedString in decoded then decoded[DecodedString] else record.decodedString,
      decodedStringKey := if DecodedStringKey in decoded then decoded[DecodedStringKey] else record.decodedStringKey,
      decodingError := if DecodingError in decoded then decoded[DecodingError] else record.decodingError,
      hexadecimalString := if HexadecimalString in decoded then decoded[HexadecimalString] else record.hexadecimalString)
  }

  lemma DecodingCases()
    ensures forall f :: IsDecoding(f) ==> f == DecodedString || f == DecodedStringKey || f == DecodingError || f == HexadecimalString
  {
  }

  /** What `_decode_raw_data` gave for the packet's raw layer; `None` without one. */
  function Decoding(p: Packet): (d: Option<Fields>)
    ensures d.Some? <==> p.raw.Some?
    ensures d.Some? ==> d.value == DecodeRawData(p.raw.value) && forall f :: f in d.value ==> IsDecoding(f)
  {
    if p.raw.Some? then Some(DecodeRawData(p.raw.value)) else None
  }

  /** The record `_process_packet` indexes, given the answer looked up for the
      source address and what the decoder gave for the raw layer. */
  function Assemble(p: Packet, info: Info, decoded: Option<Fields>): (r: Record)
    requires decoded.Some? ==> forall f :: f in decoded.value ==> IsDecoding(f)
    // the slots are the answer's when the packet has an IP layer, and none otherwise
    ensures r.slots == if p.ip.Some? then info else map[]
    // enrichment and decoding never touch the addresses
    ensures p.ip.Some? ==> r.srcIp == JString(p.ip.value.src) && r.dstIp == JString(p.ip.value.dst)
    ensures p.ip.None? ==> r.srcIp == JNull && r.dstIp == JNull
    // every other fixed field is the starting record's
    ensures forall f :: IsFixedPacketField(f) ==> Lookup(r, f) == Lookup(BaseRecord(p), f)
  {
    var base := BaseRecord(p);
    var enriched := if p.ip.Some? then Enrich(base, info) else base;
    if decoded.Some? then WithDecoding(enriched, decoded.value) else enriched
  }

  /** The keys of an assembled record: every fixed field, and a slot exactly
      for each provider of the answer when the packet has an IP layer. */
  lemma AssembleKeys(p: Packet, info: Info, decoded: Option<Fields>, f: Field)
    requires decoded.Some? ==> forall f :: f in decoded.value ==> IsDecoding(f)
    ensures Lookup(Assemble(p, info, decoded), f).Some? <==> !f.Slot? || (p.ip.Some? && f.provider in info)
    ensures p.ip.Some? && f.Slot? && f.provider in info ==> Lookup(Assemble(p, info, decoded), f) == Some(info[f.provider])
  {
  }

  /** The decoding fields of an assembled record: all four `None` without a raw
      layer; with one, the decoder's pair set and the other pair left `None`. */
  lemma AssembleDecoding(p: Packet, info: Info, decoded: Option<Fields>, f: Field)
    requires decoded.Some? ==> forall f :: f in decoded.value ==> IsDecoding(f)
    requires IsDecoding(f)
    ensures var v := Lookup(Assemble(p, info, decoded), f);
      && (decoded.None? ==> v == Some(JNull))
      && (decoded.Some? ==> v == Some(if f in decoded.value then decoded.value[f] else JNull))
  {
    var base := BaseRecord(p);
    assert Lookup(base, f) == Some(JNull);
    var enriched := if p.ip.Some? then Enrich(base, info) else base;
    assert Lookup(enriched, f) == Some(JNull);
  }

  /** `_process_packet(packet)`: the source's answer is looked up with `"all"`
      when there is an IP layer, and the record assembled around it and the
      decoded raw layer. */
  function ProcessPacket(oracle: Oracle, s: Session<Info>, p: Packet): (Record, Session<Info>) {
    if p.ip.Some? then
      var (info, s1) := GetIpInfo(oracle, s, p.ip.value.src, "all");
      (Assemble(p, info, Decoding(p)), s1)
    else (Assemble(p, map[], Decoding(p)), s)
  }

  /** One `_process_packet` call as the loop sees it: the record it indexes and
      the session after the lookup. Its contract is the one `ProcessPacket`
      meets, since the body returns `ProcessPacket`'s pair. */
  method HandlePacket(oracle: Oracle, s: Session<Info>, p: Packet) returns (record: Record, s1: Session<Info>)
    // with an IP layer, the cached answer for the source fills the slots and
    // the session is the one the lookup leaves
    ensures p.ip.Some? ==>
      var (info, s2) := GetIpInfo(oracle, s, p.ip.value.src, "all");
      record.slots == info && s1 == s2
    ensures p.ip.Some? ==> record.srcIp == JString(p.ip.value.src) && record.dstIp == JString(p.ip.value.dst)
    // without one, nothing is looked up and no slot is added
    ensures p.ip.None? ==> s1 == s && record.slots == map[] && record.srcIp == JNull && record.dstIp == JNull
    // each decoding field holds what the decoder returned for the raw layer, or `None`
    ensures forall f :: IsDecoding(f) ==>
      Lookup(record, f) == Some(if p.raw.Some? && f in DecodeRawData(p.raw.value) then DecodeRawData(p.raw.value)[f] else JNull)
    // the other fixed fields are the packet's, as the starting record holds them
    ensures forall f :: IsFixedPacketField(f) ==> Lookup(record, f) == Lookup(BaseRecord(p), f)
    ensures record.packetName == JString(p.name) && record.packetTime == JString(p.time)
    ensures HoldsNumber(record.srcPort, p.sport, JString("N/A")) && HoldsNumber(record.dstPort, p.dport, JString("N/A"))
    ensures HoldsNumber(record.kind, p.kind, JNull) && HoldsNumber(record.length, p.length, JNull)
    ensures record.payload == if p.summary.Some? then JString(p.summary.value) else JNull
  {
    BaseRecordFields(p);
    var info := if p.ip.Some? then GetIpInfo(oracle, s, p.ip.value.src, "all").0 else map[];
    record, s1 := ProcessPacket(oracle, s, p).0, ProcessPacket(oracle, s, p).1;
    assert record == Assemble(p, info, Decoding(p));
    forall f | IsDecoding(f)
      ensures Lookup(record, f) == Some(if p.raw.Some? && f in DecodeRawData(p.raw.value) then DecodeRawData(p.raw.value)[f] else JNull)
    {
      AssembleDecoding(p, info, Decoding(p), f);
    }
  }

  /** `_process_packet` as the loop calls it, on the i-th packet when it is to
      the target: the record is about that destination, and the session moves
      on by that packet's lookup. */
  method HandleQualifying(oracle: Oracle, session: Session<Info>, p: Packet, target: string,
                          ghost s: Session<Info>, ghost ps: seq<Packet>, ghost i: nat)
    returns (record: Record, s1: Session<Info>)
    requires i < |ps| && ps[i] == p && Qualifies(p, target)
    requires session == SessionAfter(oracle, s, ps[..i], target)
    ensures record.dstIp == JString(target)
    ensures s1 == SessionAfter(oracle, s, ps[..i + 1], target)
  {
    assert ps[..i + 1][..i] == ps[..i];
    record, s1 := HandlePacket(oracle, session, p);
  }

  /** A packet not to the target leaves the session as it was. */
  lemma SessionSkips(oracle: Oracle, s: Session<Info>, ps: seq<Packet>, target: string, i: nat)
    requires i < |ps| && !Qualifies(ps[i], target)
    ensures SessionAfter(oracle, s, ps[..i + 1], target) == SessionAfter(oracle, s, ps[..i], target)
  {
    assert ps[..i + 1][..i] == ps[..i];
  }

  /** Every record is about a packet sent to `target`. */
  predicate AllTo(records: seq<Record>, target: string) {
    forall j :: 0 <= j < |records| ==> records[j].dstIp == JString(target)
  }

  // ---------------------------------------------------------------- loop

  /** Whether the n-th index call (counted from 0) succeeds. */
  type Sink = nat -> bool

  /** The packets `process_packets` hands on: those addressed to the target. */
  predicate Qualifies(p: Packet, target: string) {
    p.ip.Some? && p.ip.value.dst == target
  }

  function Qualifying(ps: seq<Packet>, target: string): (n: nat)
    ensures n <= |ps|
  {
    if |ps| == 0 then 0
    else Qualifying(ps[..|ps| - 1], target) + (if Qualifies(ps[|ps| - 1], target) then 1 else 0)
  }

  /** The provider lookups a run makes: one `"all"` lookup of the source
      address for each packet to the target, in capture order. */
  function LookupCalls(ps: seq<Packet>, target: string): (calls: seq<Call>)
    ensures |calls| == Qualifying(ps, target)
    ensures forall j :: 0 <= j < |calls| ==> calls[j].api == "all"
  {
    if |ps| == 0 then []
    else
      var p := ps[|ps| - 1];
      LookupCalls(ps[..|ps| - 1], target) + (if Qualifies(p, target) then [Call(p.ip.value.src, "all")] else [])
  }

  /** The counts at which a progress line is printed, up to `n`: 5000, 10000, ... */
  function Milestones(n: nat): (m: seq<nat>)
    ensures |m| == n / 5000
  {
    seq(n / 5000, i => (i + 1) * 5000)
  }

  /** A count is announced exactly when it is a positive multiple of 5000. */
  lemma MilestonesAre(n: nat, m: nat)
    ensures m in Milestones(n) <==> 0 < m <= n && m % 5000 == 0
  {
    if 0 < m <= n && m % 5000 == 0 {
      var i := m / 5000 - 1;
      assert Milestones(n)[i] == m;
    }
  }

  /** One more packet announces itself exactly when it lands on a multiple. */
  lemma MilestonesStep(n: nat)
    ensures (n + 1) % 5000 == 0 ==> Milestones(n + 1) == Milestones(n) + [n + 1]
    ensures (n + 1) % 5000 != 0 ==> Milestones(n + 1) == Milestones(n)
  {
    if (n + 1) % 5000 == 0 {
      assert (n + 1) / 5000 == n / 5000 + 1;
    } else {
      assert (n + 1) / 5000 == n / 5000;
    }
  }

  /** 5001 packets print one progress line. */
  lemma FiveThousandAndOne()
    ensures Milestones(5001) == [5000]
  {
  }

  lemma {:induction false} QualifyingPrefix(ps: seq<Packet>, target: string, i: nat)
    requires i < |ps|
    ensures Qualifying(ps[..i + 1], target) == Qualifying(ps[..i], target) + (if Qualifies(ps[i], target) then 1 else 0)
    ensures Qualifying(ps[..i + 1], target) <= Qualifying(ps, target)
    decreases |ps| - i
  {
    assert ps[..i + 1][..i] == ps[..i];
    if i + 1 < |ps| {
      QualifyingPrefix(ps, target, i + 1);
    } else {
      assert ps[..i + 1] == ps;
    }
  }

  /** The session after the lookups of the packets handled so far: the
      source's `"all"` lookup for each packet to the target, in order. */
  ghost function SessionAfter(oracle: Oracle, s: Session<Info>, ps: seq<Packet>, target: string): Session<Info> {
    if |ps| == 0 then s
    else
      var s0 := SessionAfter(oracle, s, ps[..|ps| - 1], target);
      var p := ps[|ps| - 1];
      if Qualifies(p, target) then GetIpInfo(oracle, s0, p.ip.value.src, "all").1 else s0
  }

  /** That session is the one the cache's run of the lookup calls leaves. */
  lemma {:induction false} SessionAfterRuns(oracle: Oracle, s: Session<Info>, ps: seq<Packet>, target: string)
    ensures SessionAfter(oracle, s, ps, target) == Run(oracle, s, LookupCalls(ps, target)).1
  {
    if |ps| > 0 {
      var front := ps[..|ps| - 1];
      var p := ps[|ps| - 1];
      SessionAfterRuns(oracle, s, front, target);
      var calls := LookupCalls(front, target);
      if Qualifies(p, target) {
        var c := Call(p.ip.value.src, "all");
        assert LookupCalls(ps, target) == calls + [c];
        assert (calls + [c])[..|calls|] == calls;
        RunLast(oracle, s, calls + [c]);
      } else {
        assert LookupCalls(ps, target) == calls + [] == calls;
      }
    }
  }

  /** Over a whole capture, the lookups query each source address at most
      three times, and not at all when it was cached before the run. */
  lemma LookupsQueryEachAddressOnce(oracle: Oracle, s: Session<Info>, ps: seq<Packet>, target: string, ip: string)
    ensures var rounds := Run(oracle, s, LookupCalls(ps, target)).2;
      && QueriesFor(Flatten(rounds), ip) <= 3
      && (ip in s.cache ==> QueriesFor(Flatten(rounds), ip) == 0)
  {
    AtMostOneRoundPerIp(oracle, s, LookupCalls(ps, target), ip);
  }

  datatype Failure = NoIpLayer(at: nat) | SinkFailed(at: nat)

  /** Where a run stopped: the packet count, the progress lines printed, the
      records indexed, the session, and the exception that ended it, if any. */
  datatype Outcome = Outcome(
    count: nat,
    progress: seq<nat>,
    indexed: seq<Record>,
    session: Session<Info>,
    failure: Option<Failure>)

  /** Counting one indexed record: `packet_count += 1`, and the progress line
      when the new count is a multiple of 5000. */
  method Tally(count: nat, progress: seq<nat>, indexed: seq<Record>, record: Record, target: string)
    returns (count': nat, progress': seq<nat>, indexed': seq<Record>)
    requires |indexed| == count && progress == Milestones(count) && AllTo(indexed, target)
    requires record.dstIp == JString(target)
    ensures count' == count + 1 && indexed' == indexed + [record]
    ensures |indexed'| == count' && progress' == Milestones(count') && AllTo(indexed', target)
  {
    indexed' := indexed + [record];
    MilestonesStep(count);
    count' := count + 1;
    progress' := progress;
    if count' % 5000 == 0 {
      progress' := progress + [count'];
    }
  }

  /** `process_packets()` */
  method ProcessPackets(oracle: Oracle, sink: Sink, s: Session<Info>, target: string, packets: seq<Packet>)
    returns (r: Outcome)
    // the count is the number of records indexed, and progress fires at its multiples of 5000
    ensures |r.indexed| == r.count && r.progress == Milestones(r.count)
    ensures r.count <= Qualifying(packets, target)
    // every indexed record is about a packet sent to the target
    ensures AllTo(r.indexed, target)
    // the run completes exactly when every packet has an IP layer and every index call succeeds
    ensures r.failure.None? <==>
      (forall k :: 0 <= k < |packets| ==> packets[k].ip.Some?) && (forall j :: 0 <= j < Qualifying(packets, target) ==> sink(j))
    // and then every packet to the target, and no other, was counted
    ensures r.failure.None? ==> r.count == Qualifying(packets, target)
    // a missing IP layer raises at the first such packet
    ensures r.failure.Some? && r.failure.value.NoIpLayer? ==>
      var k := r.failure.value.at;
      k < |packets| && packets[k].ip.None? && (forall i :: 0 <= i < k ==> packets[i].ip.Some?)
      && r.count == Qualifying(packets[..k], target) && (forall j :: 0 <= j < r.count ==> sink(j))
    // a refused index call raises at a packet to the target, before it is counted
    ensures r.failure.Some? && r.failure.value.SinkFailed? ==>
      var k := r.failure.value.at;
      k < |packets| && Qualifies(packets[k], target) && !sink(r.count)
      && r.count == Qualifying(packets[..k], target)
      && (forall i :: 0 <= i < k ==> packets[i].ip.Some?) && (forall j :: 0 <= j < r.count ==> sink(j))
    // the session is the one the cache leaves after the lookups of every packet
    // handled: all of them, those before the packet without an IP layer, or
    // those up to and including the packet whose index call failed
    // (`SessionAfterRuns` equates it with the cache's run of `LookupCalls`)
    ensures r.failure.None? ==> r.session == SessionAfter(oracle, s, packets, target)
    ensures r.failure.Some? && r.failure.value.NoIpLayer? ==>
      r.failure.value.at <= |packets| && r.session == SessionAfter(oracle, s, packets[..r.failure.value.at], target)
    ensures r.failure.Some? && r.failure.value.SinkFailed? ==>
      r.failure.value.at < |packets| && r.session == SessionAfter(oracle, s, packets[..r.failure.value.at + 1], target)
  {
    var i := 0;
    var count := 0;
    var progress: seq<nat> := [];
    var indexed: seq<Record> := [];
    var session := s;
    while i < |packets|
      invariant 0 <= i <= |packets|
      invariant forall k :: 0 <= k < i ==> packets[k].ip.Some?
      invariant count == Qualifying(packets[..i], target)
      invariant forall j :: 0 <= j < count ==> sink(j)
      invariant |indexed| == count && progress == Milestones(count)
      invariant AllTo(indexed, target)
      invariant session == SessionAfter(oracle, s, packets[..i], target)
    {
      QualifyingPrefix(packets, target, i);
      var p := packets[i];
      if p.ip.None? {
        return Outcome(count, progress, indexed, session, Some(NoIpLayer(i)));
      }
      if p.ip.value.dst == target {
        var record, s1 := HandleQualifying(oracle, session, p, target, s, packets, i);
        session := s1;
        if !sink(count) {
          return Outcome(count, progress, indexed, session, Some(SinkFailed(i)));
        }
        count, progress, indexed := Tally(count, progress, indexed, record, target);
      } else {
        SessionSkips(oracle, s, packets, target, i);
      }
      i := i + 1;
    }
    assert packets[..i] == packets;
    return Outcome(count, progress, indexed, session, None);
  }
}
