# dpdk-fastdrop-agent: frame decoder and rule engine in Dafny

This project models the two sequential parts of the fast-drop agent. Both are
proved correct against specification functions.

- `types.dfy` (module `Types`) holds the fixed-width integers `byte`, `uint16`
  and `uint32`, with the C++ conversions written out:
  - `Add16` is the wrapping `uint16_t` addition;
  - `ToUint16` is `static_cast<uint16_t>` of an `int`.

  It also holds `Option`. `Option` stands for `std::optional` and for a pointer
  that may be null.
- `packet_parser.dfy` (module `PacketParser`) models `dpdk_packet_parser`.
  - A frame is a sequence of bytes. Each header pointer is an offset from the
    frame's first byte.
  - The header sizes and field offsets are those of the packed structs.
  - The specification functions are:
    - `ExtStep` / `Walk` / `Ipv6Walk`: the IPv6 extension-header walk;
    - `DecodeIpv4` / `DecodeIpv6` / `Decode`: what `parse` records;
    - `AfterParse`: the parser's whole state after `parse`;
    - `MacString`: the text of `mac_to_string`.
  - The class `Parser` has the C++ object's member fields:
    `_data`, `_len`, `_eth`, `_ip4`, `_ip6`, `_tcp`, `_udp`,
    `_network_proto` and `_l4_proto`.
  - Its methods assign those fields step by step, as the C++ does, and are
    proved to reach the state the functions give:
    - `Parse`, with its IPv6 and IPv4 branches;
    - the `while` loop of `SkipIpv6ExtensionHeaders`;
    - the formatting loop of `MacToString`.
  - The lemmas show that:
    - every recorded header lies inside the frame;
    - nothing at or past `len` is read;
    - at most seven extension headers can precede the transport header;
    - the 16-bit offset never wraps;
    - the classification is exactly as the branches say.
- `packet_filter.dfy` (module `PacketFilter`) models `dpdk_packet_filter`.
  - `Verdict` is the first-match-wins decision. `Filter.Match` is the loop
    that computes it.
  - `RuleOf` and `RulesOf` turn decoded rule-file records into rules. The
    class method `Filter.LoadRules` clears the list and rebuilds it with
    `continue` on a bad address, as `load_rules` does.
  - `inet_pton` is the function parameter `parseIp`. It yields the address in
    network byte order, or None for a string that is not a dotted quad.
  - `CommentLines` lists the lines `print_rules_comments` logs.

Decisions of the code that the model keeps as they are:
- the code does not reject an IHL below 5 (`Ipv4ZeroIhlAccepted`);
- a TCP or UDP header truncated after IPv4 gives OTHER, and after IPv6 gives
  no transport protocol; in both cases `parse` returns true;
- Encapsulating Security Payload (50) is stepped over like the other
  extension headers. So is Authentication (51), whose length the code reads
  with the `(len + 1) * 8` rule rather than in the 4-octet units of
  section 2.2 of RFC 4302;
- one Hop-by-Hop header of length 0 puts the TCP header at frame byte
  14 + 40 + 8 = 62 (`HopByHopThenTcp`).

## Model

| member | source | states |
|---|---|---|
| Types.Add16 | dpdk/dpdk_packet_parser.cpp:50 | `offset += ext_len` on `uint16_t`: the exact sum when it fits in 16 bits, the sum minus 2^16 otherwise |
| Types.ToUint16 | dpdk/dpdk_packet_filter.cpp:47 | `static_cast<uint16_t>` keeps an in-range value and is congruent to its argument modulo 2^16 otherwise |
| PacketParser.ReadBE16 | dpdk/dpdk_packet_parser.cpp:86 | `ntohs` of a wire field: the high byte is the first byte and the low byte the second |
| PacketParser.ExtStep | dpdk/dpdk_packet_parser.cpp:37-68 | one extension-header step either fails or advances strictly, stays within `total_len`, and advances by at most 2048 bytes |
| PacketParser.Walk | dpdk/dpdk_packet_parser.cpp:36-74 | the walk ends only on a non-extension next-header value, at an offset within `total_len` and at most `(iterations - 1) * 2048` past the start |
| PacketParser.Ipv6Walk | dpdk/dpdk_packet_parser.cpp:29-75 | on success the returned next header is a transport value and `40 <= header_len <= total_len`, and `header_len <= 40 + 7 * 2048`, so the 16-bit offset cannot wrap |
| PacketParser.ChainsExhaustFuel | dpdk/dpdk_packet_parser.cpp:34-74 | a run of extension headers at least as long as the remaining iterations makes the walk return null |
| PacketParser.EightExtensionsRejected | dpdk/dpdk_packet_parser.cpp:34-74 | eight well-formed extension headers in a row are rejected, so at most seven precede the transport header |
| PacketParser.WalkReadsWithin | dpdk/dpdk_packet_parser.cpp:44-66 | the walk's outcome depends only on the first `total_len` bytes |
| PacketParser.ShortFrameRejected | dpdk/dpdk_packet_parser.cpp:78-80 | a null frame or `len < 14` returns false and leaves every member field as it was |
| PacketParser.DecodeWellFormed | dpdk/dpdk_packet_parser.cpp:82-151 | for any bytes, every header pointer set lies wholly inside `len` bytes, and the protocols agree with the pointers that are set |
| PacketParser.DecodeReadsWithin | dpdk/dpdk_packet_parser.cpp:77-152 | the result depends only on the first `len` bytes: no byte at or past `len` is read |
| PacketParser.OtherEtherTypeAccepted | dpdk/dpdk_packet_parser.cpp:146-151 | an ethertype other than 0x0800 and 0x86DD returns true with network NONE and L4 NONE |
| PacketParser.Ipv4Classification | dpdk/dpdk_packet_parser.cpp:124-145 | IPv4 succeeds iff `len >= 34` and `len >= 14 + 4 * IHL`; TCP iff protocol 6 with 20 bytes left, UDP iff protocol 17 with 8 left, otherwise OTHER; the transport pointer is `14 + 4 * IHL` |
| PacketParser.Ipv6Classification | dpdk/dpdk_packet_parser.cpp:95-123 | IPv6 with `len < 54` fails with only the Ethernet header recorded; otherwise it succeeds iff the walk succeeds; TCP iff next header 6 with 20 bytes left, UDP iff 17 with 8 left, OTHER iff neither 6 nor 17; the transport pointer is `14 + header_len` |
| PacketParser.HopByHopThenTcp | dpdk/dpdk_packet_parser.cpp:38-55 | one Hop-by-Hop header of length field 0 followed by TCP puts the TCP header at frame byte 62 |
| PacketParser.Ipv4TcpSourcePort | dpdk/dpdk_packet_parser.cpp:129-139 | with IHL 5 and protocol 6 the TCP header is at byte 34, and source-port bytes 0x30 0x39 read as 12345 |
| PacketParser.Ipv4ZeroIhlAccepted | dpdk/dpdk_packet_parser.cpp:129-131 | IHL 0 is accepted, and the TCP pointer then lands on the IPv4 header at byte 14 |
| PacketParser.HexDigit | dpdk/dpdk_packet_parser.cpp:21-23 | a digit below 16 prints as one upper-case hex character that reads back as the digit |
| PacketParser.HexByte | dpdk/dpdk_packet_parser.cpp:23 | `setw(2)`, `setfill('0')` and `hex` give exactly two upper-case hex characters whose value is the byte |
| PacketParser.MacString | dpdk/dpdk_packet_parser.cpp:19-27 | the MAC text has 17 characters, with ':' exactly at positions 2, 5, 8, 11 and 14, and group i is the hex pair of byte i |
| PacketParser.MacStringRoundTrip | dpdk/dpdk_packet_parser.cpp:19-27 | parsing the printed MAC text gives back the six bytes |
| PacketParser.Parser.constructor | dpdk/dpdk_packet_parser.cpp:7-13 | a new parser has null data, length 0, no headers and both protocols NONE |
| PacketParser.Parser.SkipIpv6ExtensionHeaders | dpdk/dpdk_packet_parser.cpp:29-75 | the loop returns a pointer exactly when the walk succeeds, with the walk's next header and `header_len` (the pointer's offset); `header_len` is left alone on failure |
| PacketParser.Parser.Parse | dpdk/dpdk_packet_parser.cpp:77-152 | the result and the new member fields are those of `AfterParse` on the old state, and the header-bounds invariant is kept |
| PacketParser.Parser.ParseIpv6 | dpdk/dpdk_packet_parser.cpp:95-123 | the IPv6 branch reaches the result and headers of `DecodeIpv6` |
| PacketParser.Parser.ClassifyIpv6Transport | dpdk/dpdk_packet_parser.cpp:105-123 | the transport switch after the walk sets the TCP or UDP pointer only when its header fits, and OTHER for any other value |
| PacketParser.Parser.ParseIpv4 | dpdk/dpdk_packet_parser.cpp:124-145 | the IPv4 branch reaches the result and headers of `DecodeIpv4` |
| PacketParser.Parser.MacToString | dpdk/dpdk_packet_parser.cpp:19-27 | the formatting loop builds exactly `MacString` |
| PacketFilter.FirstMatchDecides | dpdk/dpdk_packet_filter.cpp:63-75 | the first applicable rule decides: the packet is allowed iff that rule does not block |
| PacketFilter.NoMatchAllows | dpdk/dpdk_packet_filter.cpp:63-77 | when no rule applies the packet is allowed |
| PacketFilter.NonMatchingPrefixIgnored | dpdk/dpdk_packet_filter.cpp:64-71 | leading rules that do not apply do not change the decision |
| PacketFilter.WildcardShadows | dpdk/dpdk_packet_filter.cpp:65-74 | a rule with neither address nor port decides every packet; rules after it are never consulted |
| PacketFilter.BlockAddressThenAllowPort | dpdk/dpdk_packet_filter.cpp:63-77 | a block-address rule followed by an allow-port-80 rule blocks that address on any port and allows other addresses |
| PacketFilter.RuleOf | dpdk/dpdk_packet_filter.cpp:33-56 | a record is dropped iff its address is present and invalid; otherwise the address is `inet_pton`'s, the port is the value truncated to 16 bits, `block` defaults to true and a missing comment is empty |
| PacketFilter.RulesOfAppend | dpdk/dpdk_packet_filter.cpp:32-57 | the rules of concatenated record lists are the concatenated rules, so input order is kept |
| PacketFilter.AllValidKept | dpdk/dpdk_packet_filter.cpp:32-57 | when no address is bad, every record becomes a rule, one for one and in order |
| PacketFilter.LoadedRulesComeFromRecords | dpdk/dpdk_packet_filter.cpp:32-57 | every loaded rule is the rule of some record, and there are never more rules than records |
| PacketFilter.Decimal | dpdk/dpdk_packet_filter.cpp:84 | `{}` of an index is a nonempty string of decimal digits with no leading zero |
| PacketFilter.DecimalRoundTrip | dpdk/dpdk_packet_filter.cpp:84 | the printed index reads back as the index |
| PacketFilter.CommentLines | dpdk/dpdk_packet_filter.cpp:79-90 | a heading with the rule count, then line i+1 as "- Rule " + i + ": " + the comment or "(No comment)", then the closing line |
| PacketFilter.Filter.constructor | dpdk/dpdk_packet_filter.cpp:8-10 | a new filter has no rules |
| PacketFilter.Filter.Match | dpdk/dpdk_packet_filter.cpp:63-77 | the scan returns `Verdict` of the rules; `is_tcp` plays no part; the rules are not modified; no rules means allow |
| PacketFilter.Filter.LoadRules | dpdk/dpdk_packet_filter.cpp:16-61 | returns true iff the file was read and parsed; on failure the old rules stay; on success the rules are exactly `RulesOf` of the records, even when that is empty |

## Left out

- `print_summary` and `print_packet_hex_ascii`: diagnostic logging through spdlog and `inet_ntop`; they change no state.
- The spdlog messages of `load_rules` and the logging of `print_rules_comments`: `CommentLines` gives the text of each line, without the logger's own prefix.
- Opening the rule file and parsing the JSON: this is I/O. Its outcome is the input `RuleFile`, which is either a failure or the decoded records.
- `inet_pton`: a system call. It is the parameter `parseIp`.
- Exceptions from `get<std::string>()`, `get<int>()` or `value("block", true)` on a field of the wrong JSON type, after `_rules` was cleared: a `Record` holds only well-typed fields.
- Iterating over a JSON value that is an object or a scalar rather than an array: the records are the array's elements.
- PacketParser.Parser.Parse: `len` is required not to exceed the bytes at `data`. The C++ cannot check this and trusts its caller. The object invariant `Valid()` is established by the constructor and kept by `Parse`.
- The destructors: they are empty.
- dpdk/dpdk_init.cpp and dpdk/dpdk_init.h, dpdk/dpdk_firewall.h and main.cpp: EAL, port and mempool setup, hugepage shell commands, signal handling, and the worker loop. These are foreign calls and concurrency. The worker functions are only declared in the headers.
