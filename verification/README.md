# whisperpot packet analysis, modelled in Dafny

whisperpot is a honeypot kit. It includes two Python scripts that turn captured traffic into Elasticsearch documents. This project models their logic, not their I/O.

- **The live SIP capture**, `docker-jupyter/app/sip_capture.py`. It covers:
  - the relevance filter. The destination must be the external address or lie in a private block of section 3 of RFC 1918. The packet must be UDP on 5060, or TCP on 5060 or 5061: the default SIP ports of section 19.1.2 of RFC 3261.
  - `parse_sip_data`: the colon-line header map, with the `key=value` pairs of the `Authorization` value merged over it.
  - the second, nested `Authorization_Details` extraction.
  - the record handed to the sink.
  - the `get_ip_details` cache. It stores only successful lookups, so a failure is retried.
- **The offline pcap analyser**, `scripts/pcap_ip_analysis.py`. It covers:
  - the `_get_ip_info` cache. It stores every composed answer, including failed `None` slots and the `{}` of an unknown `api` name, so an IP costs at most one round of provider queries.
  - the `_query_api` status rule.
  - the record of `_process_packet`.
  - `_decode_raw_data`. Well-formed UTF-8 (section 4 of RFC 3629) gives the text and its colon map. Anything else gives an error text and lowercase hexadecimal.
  - the `process_packets` loop. It counts the packets sent to the target and reports progress every 5000.

## Modules

Each module is in one file.

- `Wrappers`: `Option`.
- `Text`: Python's `strip`, `split`, `join`, `find` and `replace` on `seq<char>`.
- `Dicts`: a loop of dictionary assignments, where the last one wins.
- `Headers`: the colon-line map that both scripts build.
- `DigestParams`: an explicit scanner for `re.findall(r'(\w+)=("[^"]+"|[\w/]+)')`, with `\w` read as ASCII `[A-Za-z0-9_]`.
- `SipParser`: `parse_sip_data`, the `re.search` for `Authorization: Digest ([^\r\n]+)`, and both forms of the credentials.
- `Address`: IPv4 addresses as octets, `is_internal` and the dotted-quad string.
- `Enrichment`: JSON values, the providers, and a session.
  - A session carries a cache and the log of every provider query issued so far.
  - Providers are an oracle. It answers the n-th query of a session, so a provider may answer a retry differently.
- `SipCache`: `get_ip_details`.
- `PcapCache`: `_get_ip_info`.
- `SipCapture`: `process_packet` of the capture.
- `Bytes`: `bytes.hex()` and its inverse.
- `Utf8`: strict UTF-8 decoding and encoding.
- `PcapAnalysis`: `_decode_raw_data`, `_process_packet` and `process_packets`.

## Behaviour worth knowing

- An empty SIP payload is not skipped. Only the printing is guarded, so such a packet still produces a record (`SipCapture.EmptyPayloadIndexed`).
- Nothing isolates per-packet errors.
  - In `process_packets`, a packet without an IP layer raises at `packet[IP].dst`.
  - A failing sink call raises too.
  - Either one ends the run (`PcapAnalysis.ProcessPackets`).
- Neither cache has single-flight deduplication, atomic writes or a cache-write error.
- `Authorization_Details` is added only when `Authorization: Digest ` is followed, on the same line, by at least one character other than CR or LF. The bare substring is not enough, because `[^\r\n]+` needs one character (`SipParser.AuthorizationDetailsWhen`).
- `replace('Digest', '')` removes every occurrence of `Digest` in the header value, not just the scheme word. A value that itself contains `Digest` therefore differs between the flat map and the nested `Authorization_Details` map: `username="Digestor"` gives `or` in one and `Digestor` in the other (`SipParser.DigestFormsDisagree`).
- Provider request failures raise. An exception from `requests.get` or `response.json()` leaves `get_ip_details` and `_query_api` uncaught, so it ends `process_packet` and the whole `process_packets` run.
- Header keys are case-sensitive. Continuation lines are not folded.

## Model

| member | source | states |
|---|---|---|
| Address.IsInternalOctets | docker-jupyter/app/sip_capture.py:60-66 | An address is internal exactly when it is 10.x.x.x, 172.16-31.x.x or 192.168.x.x; the prefix-bit test of each network is read off the octets |
| Address.InAnyRangeIsSome | docker-jupyter/app/sip_capture.py:62-66 | The `for cidr in INTERNAL_RANGES` loop, returning at the first range that holds the address, answers True exactly when some range of the list holds it |
| Address.InternalBoundaries | docker-jupyter/app/sip_capture.py:60-66 | 172.31.255.255 is internal; 172.32.0.0 and 11.0.0.0 are not |
| Address.FormatInjective | docker-jupyter/app/sip_capture.py:90-91 | Two addresses have the same dotted-quad string exactly when they are the same address, so comparing the strings compares the addresses |
| Address.DecimalRoundTrip | docker-jupyter/app/sip_capture.py:90-91 | Reading back the decimal digits of an octet gives the octet |
| SipCapture.Destination | docker-jupyter/app/sip_capture.py:89-92 | The verdict is External exactly when the destination string equals the external address; `is_internal` is not consulted then. Any other destination is Internal exactly when the address is private, and Outside (dropped) otherwise |
| SipCapture.PublicExternalKept | docker-jupyter/app/sip_capture.py:90-92 | A public address, 203.0.113.5, passes when it is the external address |
| SipCapture.SipPayload | docker-jupyter/app/sip_capture.py:98-104 | A payload is selected exactly when UDP has 5060 on either port or TCP has 5060 or 5061 on either port. UDP wins when both qualify. Otherwise the packet is dropped |
| SipCapture.PortsDiffer | docker-jupyter/app/sip_capture.py:98-102 | Port 5061 keeps a TCP segment but not a UDP datagram |
| SipCapture.SipRecord | docker-jupyter/app/sip_capture.py:114-133 | `Timestamp` is the capture time, overriding a parsed header of that name. `Authorization_Details` is the nested map when the search matches, and otherwise a parsed header of that name kept as its string, if there is one. `Source_IP_Details` is the looked-up details. Every other key is a parsed header with its parsed value, as a string |
| SipCapture.ProcessPacket | docker-jupyter/app/sip_capture.py:87-135 | A record exists exactly when the packet has an IP layer, its destination passes and a payload is selected. A dropped packet costs no lookup. A kept one is recorded from its decoded payload, with the source's details from the cache |
| SipCapture.EmptyPayloadIndexed | docker-jupyter/app/sip_capture.py:106-135 | A kept packet with an empty payload still yields a record holding `Timestamp` and `Source_IP_Details` |
| Text.StripByTrims | docker-jupyter/app/sip_capture.py:76 | `strip` removes exactly a leading and a trailing run of whitespace |
| Text.StripByPadded | docker-jupyter/app/sip_capture.py:76 | Stripping whitespace padding around a core with no whitespace at its ends gives back the core |
| Text.StripByIdempotent | docker-jupyter/app/sip_capture.py:76 | Stripping twice strips nothing more |
| Text.Split | docker-jupyter/app/sip_capture.py:69 | `split` returns at least one piece. No piece contains the separator. Joining the pieces with the separator gives back the text |
| Text.SplitJoin | docker-jupyter/app/sip_capture.py:69 | With a one-character separator, splitting undoes joining pieces that lack it |
| Text.RemoveAll | docker-jupyter/app/sip_capture.py:80 | `replace(old, '')` leaves a text without an occurrence unchanged, and shortens the text exactly when it holds one |
| Text.RemoveAllIsJoinSplit | docker-jupyter/app/sip_capture.py:80 | Deleting occurrences left to right gives the same text as `''.join(s.split(old))` |
| Text.RemoveOne | docker-jupyter/app/sip_capture.py:80 | An occurrence whose first character appears nowhere else around it is cut out, and nothing else changes |
| Text.RemoveAllFirst | docker-jupyter/app/sip_capture.py:80 | `replace` deletes the leftmost occurrence and carries on after it: when the first occurrence starts right after `a`, the result is `a` followed by the result for the text after that occurrence |
| Dicts.Assign | docker-jupyter/app/sip_capture.py:72-76 | After a loop of dictionary assignments, the keys are the initial keys plus those assigned. An unassigned key keeps its value. Each key holds the value of its last assignment |
| Dicts.AssignAgrees | docker-jupyter/app/sip_capture.py:82-83 | Two dictionaries updated by the same assignments agree on every assigned key, whatever they held before |
| Headers.FirstColon | docker-jupyter/app/sip_capture.py:73 | `split(':', 1)` splits at a colon with none before it |
| Headers.Lines | docker-jupyter/app/sip_capture.py:69 | The lines joined with '\n' give back the text, and no line contains '\n' |
| Headers.ColonMapKeys | docker-jupyter/app/sip_capture.py:72-76 | Every line holding a colon puts its stripped prefix in the map |
| Headers.ColonMapOnlyHeaderLines | docker-jupyter/app/sip_capture.py:73-74 | Every key comes from a line holding a colon; lines without one contribute nothing |
| Headers.ColonMapLastWins | docker-jupyter/app/sip_capture.py:72-76 | The last line with a given key decides that key's stripped value |
| Headers.ColonMapNoColon | docker-jupyter/app/sip_capture.py:72-76 | A text without a colon gives the empty map |
| Headers.HeaderLineSplits | docker-jupyter/app/sip_capture.py:73-76 | The line `name: value` splits back into exactly that name and value |
| Headers.CSeqLine | docker-jupyter/app/sip_capture.py:69-76 | `CSeq: 101 INVITE` gives exactly the header `CSeq` = `101 INVITE` |
| DigestParams.RunLength | docker-jupyter/app/sip_capture.py:81 | A greedy run of `\w` or `[\w/]`: every character in it qualifies, and the character after it does not |
| DigestParams.MatchValue | docker-jupyter/app/sip_capture.py:81 | The value group matches a prefix of the text. The match is a quoted non-empty run of non-quotes or a bare `[\w/]+` run, and a bare match takes the whole run: the next character, if any, is outside `[\w/]` |
| DigestParams.MatchValueNone | docker-jupyter/app/sip_capture.py:81 | The value group fails exactly when no prefix of the text is a quoted value and the text does not start with a `[\w/]` character |
| DigestParams.MatchHere | docker-jupyter/app/sip_capture.py:81 | A match at the start is non-empty, lies inside the text, and is a well-formed pair |
| DigestParams.MatchHereParts | docker-jupyter/app/sip_capture.py:81 | A match is the key run ending at an `=`, followed by exactly what the value group matches right after that `=`, and its length is theirs together |
| DigestParams.MatchHereSome | docker-jupyter/app/sip_capture.py:81 | The text a match covers reads `key=raw` |
| DigestParams.MatchHereNone | docker-jupyter/app/sip_capture.py:81 | The pattern fails at the start exactly when, wherever `\w+` can end at an `=`, the value group fails right after it |
| DigestParams.KeyEndsAtRun | docker-jupyter/app/sip_capture.py:81 | `(\w+)=` can end in one place only, the end of the greedy word run, so backtracking finds no other key |
| DigestParams.FindAllFoundIn | docker-jupyter/app/sip_capture.py:81 | Every pair `re.findall` reports is well formed and occurs in the text as `key=raw` |
| DigestParams.ScanIsLeftmost | docker-jupyter/app/sip_capture.py:81 | For any pattern whose matches are non-empty, the scan's hits each match at their position, come left to right without overlap, and the pattern fails at every position no hit covers: the leftmost, non-overlapping matches |
| DigestParams.FindAllScans | docker-jupyter/app/sip_capture.py:81 | The pairs reported are exactly those of the scan's hits, in order |
| DigestParams.FindAllLeftmost | docker-jupyter/app/sip_capture.py:81 | `re.findall` with this pattern reports the pairs of the leftmost, non-overlapping matches of the whole text |
| DigestParams.FindAllNeedsEquals | docker-jupyter/app/sip_capture.py:81 | A text without `=` yields no pair |
| DigestParams.MatchParam | docker-jupyter/app/sip_capture.py:81 | A rendered parameter is matched whole, with its own name and raw value, when a comma or nothing follows it |
| DigestParams.SkipSeparator | docker-jupyter/app/sip_capture.py:81 | The `, ` separator yields no pair and is skipped |
| DigestParams.FindAllRender | docker-jupyter/app/sip_capture.py:81 | Scanning a rendered credential list (section 22.4 of RFC 3261) yields exactly its parameters in order, even when quoted values contain `=`, `,` or spaces |
| DigestParams.Unquote | docker-jupyter/app/sip_capture.py:83 | `strip('"')` of a match removes the surrounding quotes of a quoted value and leaves a bare one. The result is non-empty and free of quotes |
| DigestParams.UnquoteParam | docker-jupyter/app/sip_capture.py:83 | After unquoting, each pair carries its parameter's value |
| DigestParams.MergePairsShape | docker-jupyter/app/sip_capture.py:81-83 | Merging the pairs keeps every existing key. It adds or changes only non-empty word keys, with non-empty, quote-free values |
| SipParser.ParseSipDataAuthorization | docker-jupyter/app/sip_capture.py:79-83 | With an `Authorization` header, a key is in the result exactly when it is a header or a pair found in the value (every `Digest` removed, then stripped) assigns it. A header no pair assigns keeps its value. A key some pair assigns holds the unquoted value of the last such pair |
| SipParser.ParseSipDataShape | docker-jupyter/app/sip_capture.py:68-85 | Without an `Authorization` key the result is exactly the header map. With one, every header survives, and each key added or changed is a non-empty word with a non-empty, quote-free value |
| SipParser.RemoveLeadingDigest | docker-jupyter/app/sip_capture.py:80 | Removing `Digest` from `Digest r`, where r holds no other `Digest`, leaves ` r` |
| SipParser.AuthorizationHeaderOf | docker-jupyter/app/sip_capture.py:69-76 | The one line `Authorization: Digest r` gives the single header `Authorization` = `Digest r` |
| SipParser.FlatForm | docker-jupyter/app/sip_capture.py:68-85 | For that line, `parse_sip_data` is the `Authorization` header with the rendered list's pairs merged over it |
| SipParser.GroupAt | docker-jupyter/app/sip_capture.py:119-121 | The group is the rest of the line after the prefix: no CR or LF inside it, and a line break or the end right after it |
| SipParser.AuthSearch | docker-jupyter/app/sip_capture.py:119 | A group found is non-empty, since `[^\r\n]+` needs one character |
| SipParser.AuthSearchLeftmost | docker-jupyter/app/sip_capture.py:119 | The search finds nothing exactly when the pattern matches nowhere. Otherwise it finds the group of the leftmost match: no match starts before it |
| SipParser.AuthorizationDetailsWhen | docker-jupyter/app/sip_capture.py:119-128 | The nested details exist exactly when `Authorization: Digest ` is followed on its line by a character other than CR or LF |
| SipParser.NestedForm | docker-jupyter/app/sip_capture.py:119-128 | The nested map of `Authorization: Digest` plus a rendered list is that list's pairs merged into an empty map |
| SipParser.LastParamDecides | docker-jupyter/app/sip_capture.py:124-127 | In the nested map, each parameter name holds the unquoted value of its last occurrence |
| SipParser.DigestBothForms | docker-jupyter/app/sip_capture.py:79-128 | For a well-formed credential line whose text holds no `Digest` after the scheme, every nested entry appears with the same value in the flat map, and each name holds its last value |
| SipParser.DigestFormsDisagree | docker-jupyter/app/sip_capture.py:79-128 | For `Authorization: Digest username="<x>Digest<y>"` with lower-case `x`, `y` not both empty, the flat map holds `x+y` and the nested map `x+Digest+y`, so the two forms differ |
| Enrichment.Ask | docker-jupyter/app/sip_capture.py:26-27 | A provider query appends itself to the log and leaves the cache alone |
| SipCache.GetIpDetails | docker-jupyter/app/sip_capture.py:20-38 | A hit answers the stored body and asks nobody. A miss asks ip-api once. Status 200 stores and answers the body. Any other status answers `{}` and stores nothing |
| SipCache.DetailsStep | docker-jupyter/app/sip_capture.py:20-38 | One call extends the log by at most its own query. It never drops or changes an entry, and a failed miss leaves the cache unchanged |
| SipCache.RunKeepsEntries | docker-jupyter/app/sip_capture.py:28-30 | Over any sequence of calls, existing entries are never overwritten or dropped, and the log only grows |
| SipCache.StoredIsFinal | docker-jupyter/app/sip_capture.py:22-23 | Once an IP is stored, every later call for it answers the stored body, and no further query for it is issued |
| SipCache.FailureIsRetried | docker-jupyter/app/sip_capture.py:28-38 | After a non-200 answer the IP is still uncached, and the next call queries ip-api again |
| SipCache.AlwaysFailingIsAlwaysAsked | docker-jupyter/app/sip_capture.py:28-38 | While ip-api keeps failing for an IP, the number of queries for it equals the number of calls for it |
| PcapCache.SlotValue | scripts/pcap_ip_analysis.py:31-33 | A slot holds the body on status 200 and `None` otherwise |
| PcapCache.Round | scripts/pcap_ip_analysis.py:49-55 | A miss issues at most three queries, all for the IP asked about |
| PcapCache.GetIpInfo | scripts/pcap_ip_analysis.py:45-59 | A hit answers the stored entry, whatever `api` says, and queries nobody. A miss issues its round and stores what it composed, failures included. The answer's keys are exactly the slots `api` names: all three for `"all"`, one for a provider name, none for anything else |
| PcapCache.MissFillsSlots | scripts/pcap_ip_analysis.py:49-55 | On a miss, each slot holds the status rule applied to the response to that provider's own query, in the order ip-api, AbuseIPDB, Shodan |
| PcapCache.CallStep | scripts/pcap_ip_analysis.py:45-59 | After one call the IP is cached with the answer given. The log grows by at most three queries, all for that IP, and by none on a hit. Other entries are kept |
| PcapCache.RunKeepsEntries | scripts/pcap_ip_analysis.py:57 | Over any sequence of calls, existing entries are never overwritten or dropped, and the log only grows |
| PcapCache.RunStoresAnswers | scripts/pcap_ip_analysis.py:57-59 | After a run, every IP asked about is cached with the answer its call gave |
| PcapCache.RunRounds | scripts/pcap_ip_analysis.py:46-57 | Each call queries only its own IP, at most three times, and not at all when the IP was cached before the run |
| PcapCache.RepeatIsSilent | scripts/pcap_ip_analysis.py:46-47 | A repeated call for an IP queries nobody and answers the identical entry that the first call for it answered |
| PcapCache.AtMostOneRoundPerIp | scripts/pcap_ip_analysis.py:45-59 | Over any sequence of calls, one IP is queried at most three times in all, and never if it was cached to begin with |
| PcapCache.UnknownApiPoisonsEntry | scripts/pcap_ip_analysis.py:49-57 | An unknown `api` name queries nobody and caches `{}`, and a later `"all"` call for that IP answers `{}` too |
| Bytes.Hex | scripts/pcap_ip_analysis.py:110 | `bytes.hex()` is twice as long as the bytes and uses only lowercase hexadecimal digits |
| Bytes.UnhexHex | scripts/pcap_ip_analysis.py:110 | The hexadecimal string reads back to the original bytes |
| Bytes.HexInjective | scripts/pcap_ip_analysis.py:110 | Distinct payloads never share a hexadecimal string |
| Bytes.HexExample | scripts/pcap_ip_analysis.py:110 | ff fe 00 becomes `fffe00` |
| Utf8.DecodeChar | scripts/pcap_ip_analysis.py:101 | A decoded character is exactly encoded by the bytes it consumed |
| Utf8.DecodeEncodes | scripts/pcap_ip_analysis.py:101 | Whatever decodes is the encoding of the text it decodes to |
| Utf8.EncodeDecodes | scripts/pcap_ip_analysis.py:101 | Every string's encoding decodes back to it |
| Utf8.WellFormedAvoids | scripts/pcap_ip_analysis.py:101 | Well-formed input never holds C0, C1 or F5 to FF, the octets section 1 of RFC 3629 excludes |
| Utf8.SurrogateRefused | scripts/pcap_ip_analysis.py:101 | ED A0 80, a surrogate, is not UTF-8 |
| Utf8.OverlongRefused | scripts/pcap_ip_analysis.py:101 | C0 80, an overlong NUL, is not UTF-8 |
| PcapAnalysis.DecodeRawData | scripts/pcap_ip_analysis.py:98-111 | Well-formed UTF-8 gives exactly `decodedString` and `decodedStringKey`. The text encodes back to the payload, and the key map is its colon-line map. Anything else gives exactly the error text and a hexadecimal string that reads back to the payload |
| PcapAnalysis.DecodeRawDataNeverBoth | scripts/pcap_ip_analysis.py:99-111 | A payload yields the decoded pair or the error pair, never both |
| PcapAnalysis.BaseRecord | scripts/pcap_ip_analysis.py:73-87 | The starting record has the four decoding fields `None` and no provider slot |
| PcapAnalysis.BaseRecordFields | scripts/pcap_ip_analysis.py:73-82 | The starting record holds the packet's name and time, the IP layer's addresses or `None`, each port as a number that reads back to it or `'N/A'`, the type and length likewise or `None`, and the payload summary or `None` |
| PcapAnalysis.Enrich | scripts/pcap_ip_analysis.py:89-91 | `update(ip_info)` merges the answer's slots over the record's, the answer winning. A slot the record had and the answer lacks keeps its value, and every fixed field stays as it was |
| PcapAnalysis.WithDecoding | scripts/pcap_ip_analysis.py:93-94 | `update` with the decoder's dictionary overwrites exactly the decoding keys it holds |
| PcapAnalysis.Decoding | scripts/pcap_ip_analysis.py:93-94 | The decoder runs exactly when there is a raw layer and writes only decoding keys |
| PcapAnalysis.Assemble | scripts/pcap_ip_analysis.py:72-94 | The slots are the answer's with an IP layer and none without one. The addresses are the IP layer's, or `None` without one. Every other fixed field is the starting record's |
| PcapAnalysis.AssembleKeys | scripts/pcap_ip_analysis.py:73-91 | Every fixed key is present. A slot is present exactly for each provider of the answer when there is an IP layer |
| PcapAnalysis.AssembleDecoding | scripts/pcap_ip_analysis.py:83-94 | Without a raw layer all four decoding fields stay `None`. With one, the decoder's pair is set and the other pair stays `None` |
| PcapAnalysis.HandlePacket | scripts/pcap_ip_analysis.py:72-94 | States the contract of `ProcessPacket`, the model of `_process_packet`, whose pair it returns. With an IP layer, the cached `"all"` answer for the source fills the slots and the lookup's session continues. Without one, nothing is looked up. The decoding fields are the decoder's or `None`. The addresses, name, time, ports, type, length and payload are the packet's, with `'N/A'` for a missing port and `None` for a missing type, length or payload |
| PcapAnalysis.MilestonesAre | scripts/pcap_ip_analysis.py:69-70 | A count is announced exactly when it is a positive multiple of 5000 |
| PcapAnalysis.MilestonesStep | scripts/pcap_ip_analysis.py:68-70 | One more packet adds a progress line exactly when the new count is a multiple of 5000 |
| PcapAnalysis.FiveThousandAndOne | scripts/pcap_ip_analysis.py:69-70 | 5001 packets print exactly one progress line |
| PcapAnalysis.Tally | scripts/pcap_ip_analysis.py:68-70 | Indexing one record increments the count, and progress stays the multiples of 5000 up to the count |
| PcapAnalysis.ProcessPackets | scripts/pcap_ip_analysis.py:61-70 | The count equals the number of records indexed, and every record is about a packet sent to the target. The run completes exactly when every packet has an IP layer and every index call succeeds. It then has counted exactly the packets sent to the target. A missing IP layer stops the run at the first such packet, after every earlier packet to the target was counted. A refused index call stops it at a packet to the target, before that packet is counted. That refusal is the first one, and every earlier packet has an IP layer. The session is the one the cache's lookups for the handled packets leave: all of them, those before a packet without an IP layer, or those up to and including the packet whose index call failed |
| PcapAnalysis.LookupCalls | scripts/pcap_ip_analysis.py:64-67 | A run makes one `"all"` lookup per packet sent to the target |
| PcapAnalysis.SessionAfterRuns | scripts/pcap_ip_analysis.py:64-67 | The session after the handled packets is the one the cache's run of their `"all"` lookups of the source, in capture order, leaves |
| PcapAnalysis.LookupsQueryEachAddressOnce | scripts/pcap_ip_analysis.py:45-67 | Over a whole capture, each source address is queried at most three times, and not at all when it was cached before the run |

## Left out

- HTTP requests are an oracle: the provider responses and `get_external_ip`, whose result is a parameter. The endpoint URLs, headers and query parameters are not modelled, including the Shodan URL whose `{}` placeholder is never filled.
- The Elasticsearch sink of the SIP capture is not modelled: the record is the result. The pcap analyser's sink is an oracle saying whether the n-th index call succeeds.
- Loading and dumping the JSON cache file is modelled only as the map update. An unreadable file starting an empty cache is not modelled.
- `print` output is not modelled. Progress lines are modelled as the list of counts announced.
- Capture reading, sniffing and layer dissection are left to the caller: packets arrive with their fields split out. `str(packet.payload)` and the packet name are opaque strings, and numeric fields are rendered as decimal literals.
- Timestamps (`datetime.fromtimestamp`, `isoformat`) are opaque strings, because they depend on the local time zone.
- Python's `ipaddress` string parsing is not modelled. In the SIP capture, addresses arrive as parsed octets and are compared through their dotted-quad strings. In the pcap analyser, a packet carries its addresses as the strings the dissector gives.
- Exceptions from `requests.get` and `response.json()` are not modelled: the oracle always answers with a status and a body. In the code such an exception propagates out of `get_ip_details` and `process_packet` (docker-jupyter/app/sip_capture.py:26-30), and out of `_query_api` through `process_packets` (scripts/pcap_ip_analysis.py:31-33), ending the run.
- `decode('utf-8', errors='replace')` in the SIP capture is an abstract function parameter, not a second decoder.
- `\w` is ASCII only. Python's Unicode word characters are not modelled.
- docker-http-honeypot/app.py is not part of this model. Its `get_ip_details` is the same code as the capture's, so `SipCache` describes it too.
- docker-jupyter/app/influx_test.py is not part of this model: it only writes to InfluxDB.
- SipParser.DigestBothForms: states agreement only for credential values free of `Digest`. Every `Digest` is deleted before the flat merge, so the forms differ whenever a value contains it (`SipParser.DigestFormsDisagree`).
- DigestParams.MatchHere: its own contract states only that a match is non-empty, inside the text and well formed. What the match is, and when there is none, is stated by `MatchHereParts`, `MatchHereSome` and `MatchHereNone`.
- PcapAnalysis.ProcessPackets: states each indexed record's destination but not its other fields, which `HandlePacket` states one packet at a time.
