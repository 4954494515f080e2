# ICMP Echo prober, modelled in Dafny

This project models the probe engine of a small ICMP "ping" client. The client
builds ICMP Echo Request datagrams (RFC 792) with the Internet checksum of
RFC 1071. It waits on a raw socket for the Echo Reply that carries its own
identifier, and spends a time budget on every other datagram. It turns each
non-reply into a `"<code>: <message>"` string taken from a static table of ICMP
conditions. Per host it makes ten attempts, records the error-free latencies,
and reports their minimum, maximum, mean and the packet loss.

The host is fixed as little-endian, so `htons` is a byte swap. The socket, the
clock, the process identifier and the platform name become parameters:

- what each `select`/`recvfrom` round delivers is a sequence of `SelectEvent`s;
  once that sequence runs out, `select` reports nothing;
- clock readings are integer ticks of one millisecond, so the default `timeout=1` of one second is a budget of 1000 ticks;
- the 8-byte send-time payload is an unsigned millisecond tick count stored little-endian.

Files, one module each:

- `wrappers.dfy`: `Option` and `Result`.
- `bytes.dfy`: byte widths and the `struct` layouts of `b`, `H` and `h` on a
  little-endian host.
- `checksum.dfy`: the `checksum` loop, and two reference definitions to check it
  against: the RFC 1071 one's-complement sum, and a per-byte weighting.
- `echo_codec.dfy`: "bbHHh" pack/unpack, the request built by `sendOnePing`, the
  decoding of a received datagram behind a 20-byte IPv4 header, and the send stamp.
- `icmp_errors.dfy`: the (type, code) to description table and its lookup.
- `receive.dfy`: the matching and time-budget loop of `receiveOnePing`.
- `decimal.dfy`: decimal rendering of the code in the f-string.
- `session.dfy`: `doOnePing`, the ten-attempt loop of `ping`, and scenario lemmas.
- `statistics.dfy`: `avgPingTime`, `pingReport` and the loss percentage.

Behaviours of the code worth knowing, each captured by the model:

- The type byte is unpacked with the signed format `b` (line 72), so a type of 128
  or more decodes as a negative number (`Bytes.Int8Of`). It is not a `uint8`.
- A (type, code) pair that is not in the table makes line 139 raise `KeyError`,
  which ends the run. No "unknown condition" text is produced. The model returns
  `Fault.UnknownCondition` (`Session.Classify`).
- The two folds at lines 48-49 suffice for every value of the 32-bit accumulator
  (`InternetChecksum.FoldTwice`), whatever the buffer size. Buffer size matters
  only for the `& 0xffffffff` wrap at lines 41 and 46, which cannot happen on any
  buffer of IPv4 size (`InternetChecksum.NoWrap`, `ChecksumIsComplementedOnesSum`).
- A too-short datagram makes `struct.unpack` raise at line 72 or line 88. The model
  returns `Fault.TruncatedHeader` or `Fault.TruncatedStamp`.
- When `select` times out (line 66), the synthetic {3, 0} header is returned even
  if a non-matching header was seen earlier in the same wait. So a Destination Host
  Unreachable (3, 1) that leaves budget, followed by a quiet `select`, is reported as
  `'0: Destination Network Unreachable'` (`Receive.AwaitSelectTimesOut` allows
  passed-over datagrams before the silence).

## Model

| member | source | states |
|---|---|---|
| `Bytes.Int8Of` | ICMP_Pinger.py:72 | decoding a signed `b` byte is the inverse of its two's-complement encoding |
| `Bytes.Int16Of` | ICMP_Pinger.py:72 | decoding a signed `h` field is the inverse of its two's-complement encoding |
| `Bytes.LittleEndian16` | ICMP_Pinger.py:103 | an `H` field is stored low byte first: `hi * 256 + lo` gives the value back |
| `Bytes.ReadLittleEndian16` | ICMP_Pinger.py:72 | reading an `H` field inverts its little-endian layout |
| `Bytes.Swap16` | ICMP_Pinger.py:52 | the result's low byte is the input's high byte and vice versa |
| `Bytes.Swap16Involution` | ICMP_Pinger.py:109-113 | swapping twice gives the value back, so `htons` undoes the swap in `checksum` |
| `Bytes.LittleEndianNRoundTrip` | ICMP_Pinger.py:88 | reading back n little-endian bytes of any x < 256^n gives x |
| `Bytes.ReadLittleEndianNEncodes` | ICMP_Pinger.py:88 | laying out again the number read from n bytes gives the same n bytes |
| `InternetChecksum.EndAroundCarry` | ICMP_Pinger.py:48-49 | the folded sum is 0 exactly for a zero sum and is congruent to the sum modulo 0xffff |
| `InternetChecksum.Checksum` | ICMP_Pinger.py:33-53 | the loop, the odd byte, both folds, the complement and the byte swap compute `Swap16(0xffff - EndAroundCarry(WordSum(s) mod 2^32))` |
| `InternetChecksum.FoldTwice` | ICMP_Pinger.py:48-51 | for every 32-bit accumulator, two folds followed by `~ & 0xffff` give `0xffff` minus the end-around-carry sum |
| `InternetChecksum.Finish` | ICMP_Pinger.py:48-52 | the two folds, the complement and the swap, applied to any 32-bit accumulator, give the byte-swapped complement of its end-around-carry sum |
| `InternetChecksum.ShiftsSwap` | ICMP_Pinger.py:52 | `a >> 8 \| (a << 8 & 0xff00)` is the byte swap of `a` |
| `InternetChecksum.WordSumAppend` | ICMP_Pinger.py:38-42 | after an even-length prefix, the word sum splits into the sums of the two parts |
| `InternetChecksum.WordSumBound` | ICMP_Pinger.py:41 | the word sum is at most 0xffff per byte, so buffers of IPv4 size never reach the 32-bit mask |
| `InternetChecksum.NoWrap` | ICMP_Pinger.py:41-46 | on a buffer of IPv4 size the running sum stays below 2^32, so the mask leaves it unchanged |
| `InternetChecksum.WordSumCountsEachByteOnce` | ICMP_Pinger.py:35-46 | every byte contributes exactly once: at weight 1 on even positions, 256 on odd ones, a trailing odd byte low-order |
| `InternetChecksum.OnesComplementSumIsFoldedWordSum` | ICMP_Pinger.py:38-49 | folding the plain word sum equals the RFC 1071 end-around-carry sum of the words |
| `InternetChecksum.ChecksumIsComplementedOnesSum` | ICMP_Pinger.py:33-53 | on any IPv4-sized buffer the result is the byte-swapped complement of the RFC 1071 sum; swapping it back gives `~sum & 0xffff` |
| `InternetChecksum.ChecksumCommutes` | ICMP_Pinger.py:38-46 | exchanging two adjacent even-length blocks anywhere in the buffer (after an even-length prefix, before a tail of any length) leaves the checksum unchanged |
| `InternetChecksum.WordSumCommutes` | ICMP_Pinger.py:38-46 | the same exchange leaves the 16-bit word sum unchanged |
| `EchoCodec.Pack` | ICMP_Pinger.py:103 | "bbHHh" packs into exactly 8 bytes |
| `EchoCodec.Unpack` | ICMP_Pinger.py:72 | "bbHHh": the type and code are the signed bytes 0 and 1, the checksum and id the little-endian words at 2 and 4, the sequence the signed word at 6 |
| `EchoCodec.UnpackPack` | ICMP_Pinger.py:72 | unpacking a packed header returns every field unchanged |
| `EchoCodec.PackUnpack` | ICMP_Pinger.py:72 | every 8-byte string is the packing of the header it unpacks to |
| `EchoCodec.ChecksumField` | ICMP_Pinger.py:109-113 | the darwin branch's extra `& 0xffff` changes nothing, so both platform branches store `htons(checksum)` |
| `EchoCodec.Htons` | ICMP_Pinger.py:111-113 | stored natively, the converted value lays its high byte first, in network order |
| `EchoCodec.EchoRequest` | ICMP_Pinger.py:100-116 | the request is an 8-byte header followed by the payload, unchanged |
| `EchoCodec.SendOnePing` | ICMP_Pinger.py:97-116 | pack with a zero checksum, checksum header and data, insert `htons` of it, repack: the datagram is `EchoRequest(id, data)` on either platform |
| `EchoCodec.DecodeHeader` | ICMP_Pinger.py:71-72 | a header is decoded exactly when the datagram has at least 28 bytes |
| `EchoCodec.DecodeHeaderPacks` | ICMP_Pinger.py:71-72 | the decoded header is the one whose packing is bytes 20..28 |
| `EchoCodec.EncodeStamp` | ICMP_Pinger.py:104 | the send stamp occupies 8 bytes |
| `EchoCodec.StampRoundTrip` | ICMP_Pinger.py:88 | decoding an encoded send stamp gives the send time back |
| `EchoCodec.SendStamp` | ICMP_Pinger.py:87-88 | the stamp read from bytes 28..36 is a 64-bit value whose encoding is exactly those bytes |
| `EchoCodec.DecodeBehindIpHeader` | ICMP_Pinger.py:71 | behind any 20-byte IP header a packed header decodes to itself, and bytes from 28 on are the payload |
| `EchoCodec.DecodeEchoRequest` | ICMP_Pinger.py:103-116 | a request behind any IP header decodes to type 8, code 0, the same id, sequence 1 and the inserted checksum; bytes from 28 on are the payload |
| `EchoCodec.WordSumPack` | ICMP_Pinger.py:103 | the word sum of a packed header is the sum of its five fields' stored values |
| `EchoCodec.EchoRequestSelfCheck` | ICMP_Pinger.py:100-116 | recomputing the checksum over the sent request gives 0, for every payload an IPv4 datagram can carry |
| `EchoCodec.SumWithComplementFolds` | ICMP_Pinger.py:106-115 | a sum plus the complement of its own folded value folds to 0xffff |
| `IcmpErrors.Describe` | icmp_errors.py:6-62 | the lookup yields a description exactly when both the type and the code are keys of the table |
| `IcmpErrors.DefinedTypes` | icmp_errors.py:6-62 | the defined types are exactly 0, 3, 4, 5, 8, 9, 10, 11, 12, 13 and 14 |
| `IcmpErrors.DestinationUnreachableCodes` | icmp_errors.py:11-28 | type 3 is defined for exactly the codes 0..15 |
| `IcmpErrors.TimeExceededAndParameterProblemCodes` | icmp_errors.py:47-55 | type 11 has exactly codes 0 and 1, with their texts; type 12 has exactly codes 0..2 |
| `IcmpErrors.EchoReplyEntry` | icmp_errors.py:8-9 | (0, 0) is described as "Echo Reply" |
| `IcmpErrors.NetworkUnreachableEntry` | icmp_errors.py:11-12 | (3, 0) is described as "Destination Network Unreachable" |
| `IcmpErrors.HostUnreachableEntry` | icmp_errors.py:11-13 | (3, 1) is described as "Destination Host Unreachable" |
| `IcmpErrors.UndefinedTypes` | icmp_errors.py:6-62 | types 1, 2, 6 and 7 have no description for any code |
| `IcmpErrors.DescribedCodesAreSmall` | icmp_errors.py:6-62 | every described condition has a code in 0..15 |
| `Receive.Await` | ICMP_Pinger.py:56-94 | an accepted reception is an Echo Reply (type 0, code 0) with the caller's identifier and a delay; a timeout carries no delay |
| `Receive.ReplyOnTheWire` | ICMP_Pinger.py:84-86 | the reply test holds exactly when the type and code bytes are zero and the identifier bytes are the caller's 16-bit id |
| `Receive.ReceiveOnePing` | ICMP_Pinger.py:56-94 | the loop, with the budget reduced by exactly each wait, returns what `Await` specifies |
| `Receive.AwaitPassesOver` | ICMP_Pinger.py:91-94 | passing over unrelated datagrams within the budget only subtracts their cumulative wait from it |
| `Receive.AwaitSkips` | ICMP_Pinger.py:91-94 | one unrelated datagram that leaves budget only reduces the budget by its wait before the rest is awaited |
| `Receive.AwaitAccepts` | ICMP_Pinger.py:84-89 | the awaited reply, reached within the budget, is accepted with delay `receivedAt - sendStamp` and error flag False |
| `Receive.AwaitSpendsBudget` | ICMP_Pinger.py:91-94 | the first unrelated datagram whose cumulative wait reaches the budget ends the wait: error flag True with that datagram's header, never earlier |
| `Receive.AwaitSelectTimesOut` | ICMP_Pinger.py:65-66 | when `select` reports nothing before any match, the result is a timeout with the synthetic header {3, 0} |
| `Receive.ForeignReplyIgnored` | ICMP_Pinger.py:84-94 | a reply with another identifier is never accepted, even with type and code (0, 0): it only spends budget |
| `Decimal.NatToString` | ICMP_Pinger.py:140 | the rendering is a non-empty string of digits without a leading zero |
| `Decimal.NatToStringRoundTrip` | ICMP_Pinger.py:140 | the digits rendered denote the number rendered |
| `Decimal.SmallCodes` | ICMP_Pinger.py:140 | codes 0 and 1 render as "0" and "1" |
| `Decimal.IntToString` | ICMP_Pinger.py:140 | `{icmp_code}` renders with a minus sign exactly for a negative code, followed by digits that denote its magnitude |
| `Session.Classify` | ICMP_Pinger.py:133-142 | a truthy delay is returned unchanged; otherwise the text is `"<code>: <table[type][code]>"`, or a fault when the pair is missing; the error flag passes through |
| `Session.ProcessId` | ICMP_Pinger.py:128 | `& 0xFFFF` keeps an identifier below 2^16 as it is |
| `Session.ProcessIdWraps` | ICMP_Pinger.py:128 | process identifiers 2^16 apart get the same ICMP id, never a larger one |
| `Session.Probe` | ICMP_Pinger.py:123-142 | every outcome is an error, a delay, or exactly the string '0: Echo Reply' |
| `Session.EchoReplyRecordable` | ICMP_Pinger.py:136-140 | an error-free reception classifies to a delay or to '0: Echo Reply' |
| `Session.DoOnePing` | ICMP_Pinger.py:123-142 | sends `EchoRequest(pid & 0xFFFF, stamp)` and returns the classified reception |
| `Session.Record` | ICMP_Pinger.py:160-170 | an error outcome records nothing, an error-free one exactly one sample: the delay in ticks, which are already milliseconds (line 164's `delay *= 1000`), or 0 for the '0: Echo Reply' string |
| `Session.Samples` | ICMP_Pinger.py:153-173 | n attempts record at most n samples |
| `Session.Requests` | ICMP_Pinger.py:156-158 | n attempts send exactly n datagrams |
| `Session.RequestAt` | ICMP_Pinger.py:158 | attempt i sends an Echo Request with the process's identifier and attempt i's stamp |
| `Session.SentRequestIsWellFormed` | ICMP_Pinger.py:97-116 | every datagram sent passes the checksum self-check and decodes as type 8, code 0, the process's id, sequence 1 and the attempt's stamp |
| `Session.SamplesStep` | ICMP_Pinger.py:156-171 | one more attempt either faults or appends its record; an earlier fault is kept |
| `Session.FaultIsFinal` | ICMP_Pinger.py:156-173 | after a fault, later attempts do not change the session's result |
| `Session.FaultEndsSession` | ICMP_Pinger.py:156-173 | an attempt that faults decides the result of the whole session |
| `Session.RecordStep` | ICMP_Pinger.py:156-171 | an attempt that does not fault appends its record to the samples so far |
| `Session.Ping` | ICMP_Pinger.py:145-173 | exactly ten attempts when no fault occurs, each sending its request in order; the result is `Samples` over ten attempts |
| `Session.SessionLossIsPercentage` | ICMP_Pinger.py:210 | a completed session has 0 <= k <= 10 samples and a loss in [0, 100] |
| `Session.ZeroDelayReply` | ICMP_Pinger.py:163-170 | a zero-delay Echo Reply becomes '0: Echo Reply' with error flag False and is recorded as 0 |
| `Session.SyntheticTimeoutMessage` | ICMP_Pinger.py:66 | a timeout with nothing observed reads '0: Destination Network Unreachable' with error flag True |
| `Session.SilentHost` | ICMP_Pinger.py:145-173 | a host that never answers yields no samples and 100% loss |
| `Session.LocalReplyIsAwaited` | ICMP_Pinger.py:84-88 | an Echo Reply echoing the id and the stamp is the awaited reply, and its stamp decodes to the send time |
| `Session.InstantAttempt` | ICMP_Pinger.py:84-89 | an attempt answered at once by its own reply classifies to '0: Echo Reply' with error flag False |
| `Session.InstantHost` | ICMP_Pinger.py:163-170 | a host that answers every attempt with zero delay yields ten samples of 0 ms and 0% loss |
| `Session.HostUnreachable` | ICMP_Pinger.py:133-142 | a type 3, code 1 datagram that uses up the budget yields '1: Destination Host Unreachable' with error flag True, and it is not recorded |
| `Statistics.Minimum` | ICMP_Pinger.py:179 | the minimum is an element and no element is below it |
| `Statistics.Maximum` | ICMP_Pinger.py:180 | the maximum is an element and no element is above it |
| `Statistics.AvgPingTime` | ICMP_Pinger.py:24-30 | the summing loop returns the arithmetic mean of the samples |
| `Statistics.PingReport` | ICMP_Pinger.py:176-186 | a report exists exactly for a non-empty list; its min and max bound every sample and `min <= avg <= max` |
| `Statistics.SumBounds` | ICMP_Pinger.py:27-28 | the sum of n samples between lo and hi lies between n*lo and n*hi |
| `Statistics.MeanBetweenExtremes` | ICMP_Pinger.py:179-181 | the mean lies between the minimum and the maximum |
| `Statistics.QuotientBounds` | ICMP_Pinger.py:30 | dividing a sum bounded by n*lo and n*hi by n gives a value in [lo, hi] |
| `Statistics.LossPercent` | ICMP_Pinger.py:210 | each of the ten probes that got no sample costs ten percentage points, and the loss of 0..10 samples lies in [0, 100] |
| `Statistics.LossIsPercentage` | ICMP_Pinger.py:210 | for 0..10 received, loss is in [0, 100]; it is 100 exactly when nothing came back and 0 exactly when all ten did |

## Left out

- Raw sockets (`getprotobyname`, `socket`, `sendto`, `recvfrom`, `select`, `close`) are OS I/O needing privilege. Sending is the datagram `SendOnePing` returns. Receiving is the `SelectEvent` input sequence.
- `recvfrom(1024)` truncation is not modelled. Each event's packet is the bytes `recvfrom` returned, and decoding reads only its first 36 bytes.
- `time.time()` gives the clock readings, and `time.sleep(1)` between attempts is not modelled. Ticks are parameters: each attempt's send time, each event's wait and receive time.
- Session.Record: latencies have one-millisecond resolution. A reply within the same millisecond as its request has delay 0 and takes the `'0: Echo Reply'` branch, so it is recorded as 0 ms. The source's float clock takes that branch only when both readings are equal, and otherwise records a fractional latency such as 0.4 ms.
- Receive.Await: waits and the budget are whole milliseconds, so a `select` wait shorter than a millisecond is 0 ticks. The default budget of one second is 1000 ticks.
- Receive.ReceiveOnePing: the budget is assumed non-negative. A negative `timeout` makes the first `select` at line 61 raise `ValueError`, which the model does not produce. The only caller uses the default `timeout=1` of line 145.
- Floating point is not modelled. The `struct.pack("d", ...)` payload is an 8-byte little-endian tick count. Latency, milliseconds, the mean and the loss use integers and exact reals, not IEEE doubles.
- `os.getpid()` is the `pid` parameter, masked with `& 0xFFFF`. `sys.platform` is the `darwin` flag. The host is fixed as little-endian.
- Presentation and glue are not modelled: `termcolor`/`print`, `gethostbyname`, the server list and loop of `pingServers`, and the `__main__` block. `PingReport` returns the figures it would print.
- A session that faults on a short datagram or an unknown (type, code) pair stops; the exception that ends the program is not modelled.
