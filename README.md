# A verified model of a small DNS resolver

This project models the core of a forwarding DNS resolver written in Python.
The core has four parts, each modelled in Dafny with its properties proved:

- **Message decoder** (`dns.py`; modules `Dns`, `DnsProperties`, `DnsAsWritten`).
  It decodes the RFC 1035 wire format:
  - the 12-octet header (section 4.1.1 of RFC 1035);
  - question entries (section 4.1.2);
  - resource records (section 4.1.3);
  - names with compression pointers (section 4.1.4).

  Record types are A, NS, PTR and AAAA (AAAA as in section 2.1 of RFC 3596), and the only class is IN.
  The decoding rules are pure functions of the datagram and an offset (`NameAt`, `QueryAt`, `AnswerAt`, `PackageOf`).
  The class `ParsingSession` reproduces the source's offset-threading reader with loops, and each of its methods is proved to compute the matching function.
- **TTL record cache** (`cache.py`; module `RecordCache`).
  The cache is a two-level map: record type, then name, then one `Record(value, ttl, creationTime)`.
  The class `Cache` keeps that map in a field.
  `Get` and `Put` read and update it in place, and `RunCleaning` sweeps it at a given time.
  Each method is proved against the pure store functions `Lookup`, `Stored` and `Swept`.
- **Cache-or-fetch logic** (`client.py`; module `Resolver`).
  The client answers from the cache on a hit.
  On a miss it exchanges one datagram with the parent server, stores every record of the reply, and reads the cache again.
  The network is the object `Upstream`: it logs each exchange and answers it through a function fixed when the object is created.
  That function yields a reply datagram, a timeout or an OSError number.
- **Byte formatting** (`byteprint.py`; module `BytePrint`).
  These helpers render chunks, hex byte strings, hexadecimal integers, MAC addresses, IPv4 and IPv6 addresses, and hex dumps.
  Each rendering is paired with a reader (`HexValue`, `DecValue`, `Split`), and the reader is proved to give the bytes back.

`Common` holds the byte type and the `Option`/`Result` wrappers.
`Text` holds Python's `str.join` and `str.split`, and their round trip.

Decisions where the code leaves room:

- The cache's `put` overwrites the single record for its key, and `get` yields zero or one record.
  The client treats that as a list of zero or one element.
  An empty cache after a fetch gives an empty answer list.
- The client calls `put(type, name, ttl, data)`, but `put` is declared as `(type_, key, value, ttl)`.
  The model stores the record's data as the value and its ttl as the ttl.
- A and AAAA record data is kept as the raw rdata octets, as `dns.py:133` does.
- Time is an integer parameter `now`. One resolution stores every record with the same `now`.
- The transaction id is read from the header and then dropped, as in the source.
  `Package` has no id.

## Model

| member | source | states |
|---|---|---|
| Dns.TypeCode | dns.py:6-10 | each supported type has its wire code 1, 2, 12 or 28 |
| Dns.TypeOf | dns.py:6-17 | a code is supported exactly when it is 1, 2, 12 or 28, and the type found has that code |
| Dns.ParseFlags | dns.py:169-183 | every decoded field lies within its mask's range (one bit, or 0..15 for opcode and reply code), and packing the fields gives back the 16-bit word |
| DnsProperties.FlagsRoundTrip | dns.py:169-183 | decoding the packing of in-range fields returns the same ten fields |
| Dns.HeaderOf | dns.py:78-79 | the header decodes exactly when there are at least 12 octets, failing with the short length otherwise; the id and the four counts are 16-bit values |
| DnsProperties.HeaderLayout | dns.py:78-79 | the header decodes exactly when there are at least 12 octets; its id, flags and four counts are the six big-endian words of octets 0..11 |
| DnsProperties.WordOctets | dns.py:78-79 | a 16-bit word read big-endian re-encodes to the same two octets |
| Dns.PackageOf | dns.py:77-106 | a header that fails to decode fails the message with the same error; a decoded message carries the header's flags and exactly as many entries in each section as the header's counts announce |
| DnsProperties.SectionCounts | dns.py:78-106 | a successful parse has exactly qdcount questions, ancount answers, nscount authority and arcount additional records, and the flags decoded from octets 2..3 |
| DnsProperties.QueriesAfterHeader | dns.py:88-92 | the question section is read from offset 12 |
| DnsProperties.FirstQuery | dns.py:90-92 | a run of question entries starts with the entry at its offset |
| DnsProperties.FirstQueryAfterHeader | dns.py:88-92 | the first question of a parsed message is the entry at offset 12 |
| Dns.NameFrom | dns.py:145-167 | a name decoded from any step ends after that step and within the datagram |
| Dns.NameAt | dns.py:142-167 | a decoded name ends strictly after its start and within the datagram |
| Dns.QueryAt | dns.py:108-119 | a decoded question ends more than 4 octets past its start and within the datagram |
| Dns.RDataAt | dns.py:132-134 | rdata is read exactly when rdlength octets remain; it has rdlength octets and the offset advances by rdlength |
| Dns.AnswerAt | dns.py:121-140 | a decoded record ends more than 10 octets past its start and within the datagram |
| Dns.QueriesFrom | dns.py:90-92 | a successful run has exactly `count` more entries after the ones already read and never moves the offset back |
| Dns.AnswersFrom | dns.py:94-104 | the same for resource record sections |
| DnsProperties.QueryTypeAndClass | dns.py:110-117 | a question is rejected with its type code when the type is unsupported, otherwise with its class when that is not IN; otherwise it is accepted with its name, and the offset moves 4 octets past the name |
| DnsProperties.AnswerTypeAndClass | dns.py:123-130 | the same rejection rule for resource records; an accepted record has a supported type and class IN |
| DnsProperties.AddressRecordLayout | dns.py:123-134 | an A or AAAA record has the ttl of octets 4..7 after its name, its data is exactly the rdlength octets after the 10-octet block, and the offset moves past them |
| DnsProperties.NameRecordLayout | dns.py:135-136 | an NS or PTR record's data is the name decoded right after the 10-octet block, and the offset moves past that name |
| DnsProperties.NameEndsAtZero | dns.py:146-150 | a zero length octet ends the name and advances the offset by exactly 1 |
| DnsProperties.NameEndsAfterPointer | dns.py:152-158 | a pointer ends the name 2 octets on; the rest is the name at the 14-bit target, and a target not before the name's start is rejected |
| DnsProperties.PointerIntoOwnNameRejected | dns.py:152-154 | a pointer back into the name's own labels is rejected, although it targets an offset before the pointer |
| DnsProperties.ForwardPointerRejected | dns.py:152-154 | a name that starts with a pointer to its own position or beyond is a parse error instead of endless recursion |
| DnsProperties.PointerAfterLabelsRejected | dns.py:152-154 | after any run of labels, a pointer to the name's start or beyond is a parse error naming the target and the pointer's offset |
| DnsProperties.PointerOctets | dns.py:153 | every offset below 0x4000 has a two-octet pointer that decodes to it |
| DnsProperties.LabelsDecode | dns.py:160-165 | length-prefixed labels are consumed one by one, each appended to the parts as text |
| DnsProperties.UncompressedName | dns.py:142-167 | an uncompressed name decodes to its labels joined by '.', ending right after its zero octet |
| DnsProperties.PointerStep | dns.py:152-158 | a pointer to an earlier decodable name completes the name 2 octets on |
| DnsProperties.PrefixThenTail | dns.py:145-165 | labels followed by two more octets are consumed up to those octets |
| DnsProperties.PointerTailDecodes | dns.py:142-167 | labels ending in a pointer to an earlier name that decodes, whether written out or itself compressed, decode to all the labels joined by '.' |
| DnsProperties.CompressedName | dns.py:142-167 | labels ending in a pointer to an earlier name that decodes, written out or itself compressed, give the same text as all the labels written out uncompressed |
| DnsProperties.PointerChain | dns.py:142-167 | two levels of compression (labels, a pointer to labels, a pointer to a written-out name) decode to all three runs of labels joined by '.' |
| Dns.ParsingSession.ReadString | dns.py:142-167 | the label/pointer loop returns exactly the name and offset of `NameAt` |
| Dns.ParsingSession.ReadQuery | dns.py:108-119 | returns exactly `QueryAt` |
| Dns.ParsingSession.ReadAnswer | dns.py:121-140 | returns exactly `AnswerAt` |
| Dns.ParsingSession.ReadAnswers | dns.py:94-104 | the section loop returns exactly `AnswersFrom` |
| Dns.ParsingSession.Parse | dns.py:77-106 | the four section loops return exactly `PackageOf` |
| Dns.Parse | dns.py:186-190 | parsing a datagram returns exactly `PackageOf` |
| DnsAsWritten.ReadStringAsWritten | dns.py:142-167 | as written, a name is returned only when its first octet is zero (offset + 1) or a pointer (offset + 2); a literal label length raises IndexError on the last octet and AttributeError otherwise; AttributeError needs some literal label length in the datagram |
| DnsAsWritten.RDataAsWritten | dns.py:133-134 | as written, the offset always moves by rdlength, and the data is the octets from the start, clipped at the end of the datagram: full length exactly when rdlength octets remain |
| DnsAsWritten.LabelsNeverDecoded | dns.py:160-165 | as written, any name with a label raises, while the corrected decoder returns the joined labels |
| DnsAsWritten.SelfPointerNeverReturns | dns.py:152-154 | as written, a pointer to itself recurses until the recursion limit whatever that limit is; the corrected decoder rejects it |
| DnsAsWritten.TruncatedRDataAccepted | dns.py:133-134 | as written, rdata running past the datagram yields fewer octets than announced and an offset past the end; the corrected reader reports the short buffer |
| RecordCache.EmptyStore | cache.py:10-12 | a fresh store has exactly one empty bucket per supported type |
| RecordCache.Cache.constructor | cache.py:59-62 | a cache created with no saved file holds the empty store |
| RecordCache.Lookup | cache.py:78-81 | a record is found exactly when the key is in the type's bucket, and it is the one stored there |
| RecordCache.Stored | cache.py:88 | after storing, the (type, key) entry holds the new record and every other entry is unchanged |
| RecordCache.Swept | cache.py:40-49 | a sweep keeps every bucket, keeps a record exactly when it is not stale, and leaves survivors unchanged |
| RecordCache.Cache.Get | cache.py:73-81 | an unsupported type is an error; otherwise the result is the record stored for the key, or none |
| RecordCache.Cache.Put | cache.py:83-88 | an unsupported type is an error that changes nothing; otherwise the store becomes `Stored` with the record (value, ttl, now) |
| RecordCache.Cache.StaleEntries | cache.py:41-46 | the collect loops gather exactly the (type, key) pairs whose record is stale at the given time, and change nothing |
| RecordCache.Cache.RunCleaning | cache.py:38-49 | the collect-then-delete loops leave exactly `Swept` of the old store |
| RecordCache.LookupAfterSweep | cache.py:45 | after a sweep a lookup finds the old record exactly when it has aged no more than its ttl, so a record aged exactly ttl survives |
| RecordCache.SweepTwice | cache.py:40-49 | a sweep after an earlier one equals the later sweep alone, so sweeping twice at the same time changes nothing more |
| RecordCache.PutReplaces | cache.py:88 | a later put for the same key leaves no trace of the earlier record: at most one record per key |
| RecordCache.SweepAsWritten | cache.py:40-49 | as written, the sweep fails with the unhashable-dict error exactly when some record is stale, and otherwise returns the store unchanged |
| RecordCache.SweepAsWrittenKeepsStale | cache.py:43-49 | as written, a stale record makes the sweep fail and stay in place, while the corrected sweep drops it |
| Resolver.RequestFlags | client.py:63 | the outbound flags set only recursion-desired, the flags word is 0x0100, and decoding 0x0100 gives these flags |
| Resolver.OutboundQuery | client.py:62-65 | the outbound query has the given id in 1..65535, flags word 0x0100, exactly the one question and empty answer, authority and additional sections |
| Resolver.Upstream.Send | client.py:69-73 | an exchange is appended to the log, and its outcome is the one fixed for that exchange |
| Resolver.LastFor | client.py:79-89 | the record found is at some index of the list with the wanted type and name, and no later element has that type and name; none found means no such record |
| Resolver.StoreAll | client.py:79-89 | putting each record in turn keeps one bucket per supported type |
| Resolver.Handled | client.py:67-96 | the store after one exchange keeps one bucket per supported type |
| Resolver.Answered | client.py:30-43 | at most one answer comes back, carrying the query's type and name; a hit or a failed exchange leaves the store unchanged |
| Resolver.Client.BuildAnswers | client.py:38-43 | the answers loop returns one answer per record with the query's type and name and the record's ttl and value |
| Resolver.Client.StoreSection | client.py:79-81 | a section loop leaves the store with each record of the section put in order |
| Resolver.Client.ResolveBytes | client.py:67-96 | exactly one exchange; a timeout or ENETUNREACH becomes ClientError, another OSError passes through, and an unparsable reply is an error, each leaving the store unchanged; otherwise the answers, then the authorities, then the additional records are stored |
| Resolver.Client.Serve | client.py:31-43 | hit: answers from the cache with no exchange; miss: one exchange, then answers from the updated store |
| Resolver.Client.ResolveQuery | client.py:30-43 | the query is served and, on a miss, the composed outbound query is sent |
| Resolver.Client.Resolve | client.py:45-60 | the first question of the request is served and, on a miss, the request itself is forwarded; a bad request or one without a question is an error with no exchange |
| Resolver.TypeCodeSupported | cache.py:85-86 | every decoded record type passes the cache's type check |
| Resolver.StoreAllAppend | client.py:79-89 | storing the three sections one after the other is storing their concatenation |
| Resolver.StoreAllLookup | client.py:79-89 | after storing, a lookup finds the last stored record with that type and name, or the old entry if there is none |
| Resolver.ReplyRecordsStored | client.py:79-89 | every record of every section of the reply is found in the cache under its own type and name |
| Resolver.CacheHit | client.py:31-43 | on a hit the result is one answer with the query's type and name and the record's ttl and value, and the store is unchanged |
| Resolver.MissAnsweredFromReply | client.py:33-43 | on a miss with a good reply the result is the last matching record of the reply, or no answer |
| Resolver.FailedExchange | client.py:91-96 | a failed exchange leaves the store unchanged and maps timeout and ENETUNREACH to their ClientError messages and any other errno to itself |
| BytePrint.Chunks | byteprint.py:1-3 | each chunk is non-empty and at most `size` long, and all but the last are exactly `size` long |
| BytePrint.ChunksJoin | byteprint.py:1-3 | the chunks concatenate back to the input |
| BytePrint.ChunkCount | byteprint.py:2 | there are ceil(len / size) chunks |
| BytePrint.ChunkAt | byteprint.py:2-3 | chunk i is the slice from i*size of length size, clipped at the end |
| BytePrint.Digits | byteprint.py:25 | `hex(v)`'s digits: at least one, each a lower-case hex digit |
| BytePrint.Decimal | byteprint.py:34 | `str(v)`: at least one digit, each in '0'..'9' |
| BytePrint.DigitsValue | byteprint.py:25 | the digits of `hex(v)` read back as v and have no leading zero |
| BytePrint.DecimalValue | byteprint.py:34 | the digits of `str(b)` read back as b, one to three of them for a byte |
| BytePrint.PairValue | byteprint.py:11 | an upper-cased `{:02x}` pair is two upper-case hex digits reading back as the byte |
| BytePrint.ByteStrGroups | byteprint.py:10-11 | a byte string is one upper-case 2-digit group per byte, joined by the upper-cased separator, of length 2n + (n-1)·len(sep) |
| BytePrint.ByteStrSplit | byteprint.py:11 | splitting a byte string at its one-character separator gives the groups back |
| BytePrint.GetBytesStr | byteprint.py:6-13 | an int renders with the "0x" prefix; bytes longer than a given max_length end in "..." |
| BytePrint.GetBytesStrOctets | byteprint.py:6-13 | within the limit, one group per byte; beyond it, the groups of the first max_length bytes followed by "..." |
| BytePrint.LStrip | byteprint.py:25 | the result is no longer than the input and does not start with a stripped character |
| BytePrint.LStripSuffix | byteprint.py:25 | the result is a suffix of the input that does not start with a stripped character, and every character stripped from the front is a stripped character |
| BytePrint.ZFill | byteprint.py:27 | the result is as long as the input or as the width, whichever is longer |
| BytePrint.StrippedHex | byteprint.py:25 | stripping '0' and 'x' from `hex(v)` leaves its digits, and nothing for 0 |
| BytePrint.HexBodyValue | byteprint.py:23-27 | the digit part reads back as v, is minimal without a length and at least `length` long with one |
| BytePrint.ToHexedInt | byteprint.py:23-27 | the result starts with "0x" |
| BytePrint.HexedIntValue | byteprint.py:23-27 | the result starts with "0x" and its upper-case digits read back as v; 0 with no length renders as "0x"; with a length there are at least that many digits |
| BytePrint.ToMacAddress | byteprint.py:16-20 | fails with its ValueError exactly when there are not 6 bytes |
| BytePrint.MacAddressRoundTrip | byteprint.py:16-20 | a MAC address is 17 characters: six upper-case pairs split by ':' that read back as the bytes |
| BytePrint.ToIpv4Address | byteprint.py:30-34 | fails with its ValueError exactly when there are not 4 bytes |
| BytePrint.Ipv4RoundTrip | byteprint.py:30-34 | a dotted quad has 7 to 15 characters and splits at '.' into four decimal numbers that read back as the bytes |
| BytePrint.ToIpv6Address | byteprint.py:37-41 | fails with its ValueError exactly when there are not 16 bytes |
| BytePrint.Ipv6Group | byteprint.py:41 | there are 8 groups, and group i is four upper-case digits reading back as bytes 2i and 2i+1 |
| BytePrint.Ipv6RoundTrip | byteprint.py:37-41 | an IPv6 address is 39 characters: eight groups split by ':', each reading back as its two bytes |
| BytePrint.ToHexDump | byteprint.py:54-60 | the accumulating loop returns exactly `HexDump`; a zero width is the ValueError of `range` and a negative width gives an empty dump |
| BytePrint.HexDump | byteprint.py:54-60 | the dump is empty exactly when there are no bytes |
| BytePrint.HexDumpLines | byteprint.py:54-60 | the dump splits at newlines into one line per chunk of `rows` bytes, each the tab followed by that chunk's groups, and ends in a newline |

## Left out

- server.py is not part of this model. It holds the UDP socket loop, the argument parsing and a stub reply.
- Threads and locking in cache.py are left out. These are the cleaner thread with its sleep loop and stop flag, and the lock around `get`, `put` and the sweep. The sweep is one sequential method.
- Pickle loading and saving of the cache file and the `isfile` test are left out, being file I/O. Only the empty-store branch of `_init_cache` is modelled.
- `RecordCache.Cache.Get`: requires every bucket to be present. This holds for the empty store and is kept by `Put` and `RunCleaning`. A store loaded from a file could break it, and such loading is left out.
- `time.time()` returns a float; the model takes whole seconds as an integer `now`.
- The socket calls, `settimeout`, `randint` and the `print` calls in client.py are left out. The exchange is the `Upstream` object, and the random id is a parameter in 1..65535.
- The serializer is not modelled: `Serializer.serialize` is unimplemented (dns.py:193-195). The outbound query of client.py:63-65 is modelled as the message it evidently means, because the `Package(...)` and `Flags(...)` calls there do not match their constructors and `to_bytes` does not exist.
- `to_binary` (byteprint.py:44-51) is not modelled.
- `Answer.name_server` (dns.py:34-39) is not modelled; nothing in the core calls it.
- Label octets become characters one for one. Unicode decoding is not modelled.
- The `NotImplementedError` branch of `_read_answer` (dns.py:137-138) is not modelled. No input reaches it once the type has been checked.
- `BytePrint.Chunks`: requires a positive size. For `to_hex_dump`, whose width is a parameter, `ToHexDump` models a zero width (ValueError) and a negative one (an empty range). `to_ipv6_address` always uses size 2.
- `BytePrint.Upper`: upper-cases ASCII letters only.
- `BytePrint.ToHexedInt` and `BytePrint.GetBytesStr`: their own contracts state only the "0x" prefix and the "..." ending. What the digits and groups are is stated by `HexedIntValue` and `GetBytesStrOctets`.
- `BytePrint.Digits` and `BytePrint.Decimal`: their own contracts state only which characters appear. `DigitsValue` and `DecimalValue` state the values they read back as.
- `Resolver.StoreAll` and `Resolver.Handled`: their own contracts state only that every bucket is kept. `StoreAllLookup`, `MissAnsweredFromReply` and `FailedExchange` state what they store and which errors they raise.
- `Dns.NameFrom`: the pointer guard rejects any target at or after the start of the name being decoded. It does not only reject targets at or after the pointer itself. So octets 3, 0x61, 0, 0x62, 0xC0, 2 fail with `BadPointer(2, 4)`: the pointer at 4 targets 2, inside the name's own first label (`PointerIntoOwnNameRejected`). No well-formed message points into the name being written.
- `BytePrint.HexedIntValue`: states its property for v >= 0 only. Negative values follow `hex` through `PyHex` and `ZFill` (giving e.g. "0x-0X5"), with no property proved about them.
- `BytePrint.ZFill`: its contract states only the length. The placement of the zeros is covered through `HexBodyValue` for digit strings.
- `Resolver.Client.ResolveQuery`: the client's `put(type, name, ttl, data)` call would store the ttl as the value and the data as the ttl, and iterating over the single record `get` returns would fail. The model stores (data, ttl) and reads zero or one record, as the names evidently intend.

## Findings

| source | as written | input that shows it | evidently intended | confidence | as-written member | corrected member |
|---|---|---|---|---|---|---|
| dns.py:160-165 | a literal label is built into `part` from `int.decode()`, which raises, and `part` is never added to `parts` | any name with a label, e.g. octets 1, 0x61, 0 | each label's octets become text appended to `parts` | high; not executed | DnsAsWritten.LabelsNeverDecoded | DnsProperties.UncompressedName |
| dns.py:152-154 | a compression pointer is followed with no check on its target | octets 0xC0, 0x00: a pointer to itself | reject a pointer that does not lead strictly before the name being decoded | high; not executed | DnsAsWritten.SelfPointerNeverReturns | DnsProperties.ForwardPointerRejected |
| dns.py:133-134 | the rdata slice is silently cut short at the end of the datagram, and the offset still moves by rdlength | an A record whose rdlength is 4 with 2 octets left | report a short datagram | medium; not executed | DnsAsWritten.TruncatedRDataAccepted | Dns.RDataAt |
| cache.py:46-49 | the sweep adds a tuple holding the bucket dict to a set, which raises TypeError before anything is deleted; the delete then indexes the cache with a (type, dict) key | any store with a record older than its ttl | delete `cache[type][key]` for every stale record | high; not executed | RecordCache.SweepAsWrittenKeepsStale | RecordCache.Cache.RunCleaning |

The pointer guard compares the target with the start of the name being decoded, not with the pointer's own position.
A guard on the position alone still loops on octets 1, 0x61, 0xC0, 0x00: a label, then a pointer back to that label.
In the source the cleaner thread is never started (cache.py:64), so no sweep runs at all.
The model offers the sweep as a method.
