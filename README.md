# UDPPing in Dafny

UDPPing measures round-trip time, one-way delay and loss between a probing
client and an echoing server over UDP. This project models the core of the
probe exchange and of the libraries both programs share:

- **PingClient** (`client.dfy`). The probe loop of `UDPPingClient`:
  - sequence numbering in 32-bit wrapping arithmetic;
  - the alarm-bounded receive and the validation of the reply in modes 0
    (echo) and 1 (ACK), with a receive result equal to EXIT_FAILURE (a
    failure, or a 1-byte datagram) decided by errno;
  - timeout and loss counting;
  - absolute pacing;
  - the final averages.
- **PingServer** (`server.dfy`). The receive loop of `UDPPingServer`:
  - classification of each sequence number as out of order, in order or a
    gap, in the program's 32-bit counters;
  - the echo with the server's time patched in, and the 12-byte TGIFACK;
  - the loss rate derived at exit.
- **Sessions** (`session.dfy`). The per-client session manager: two
  pointer-linked lists in an arena of records, bounded by MAX_SESSIONS.
- **TimeHelper** and **DelayHelper** (`timehelper.dfy`, `delayhelper.dfy`):
  - timespec/timeval ordering, carries, borrows and differences;
  - nanosecond and microsecond counts with the C types' wrap-around;
  - the clock tables;
  - the split of a delay into a sleep request, and the busy-wait loops.
- **Utils** (`utils.dfy`):
  - the byte order test, in-place byte reversal and 64-bit byte order
    conversion;
  - string truncation at a delimiter set;
  - the wrapping 64-bit mean and the flow hash.
- **Serialization** (`serialization.dfy`). The percent-encoder's tables
  and `url_encode`.
- **Messages** (`messages.dfy`). Header sizes per message format and the
  default header.
- **ByteOrder** (`byteorder.dfy`). Fixed-width integers, the bytes they
  occupy on a little- or big-endian host, and `htons`/`htonl`.

Modelling choices:

- Code that updates state in place is written as classes and methods:
  - the server and client globals;
  - the session lists;
  - a `struct timespec` updated through a pointer;
  - the encoder's tables and buffers;
  - arrays the C code writes into.
- Pure computations are functions, with lemmas relating them.
- Integers are unbounded. The wrap-around of the unsigned 32- and 64-bit
  counters, sums and conversions is written out as a reduction modulo 2^32
  or 2^64, and the proofs connect the machine values to exact counts. For
  example, `PingServer.CountersAreTallyMod32` shows that the server's
  three 32-bit counters are an exact tally reduced modulo 2^32. Signed
  `long` and `int` fields and `double` results are exact integers; the
  lines under "Left out" name the members where that matters.
- The host's byte order is a parameter (`Endian`). Byte-order facts are
  proved for both kinds of host.

Where the repository's prose and its code disagree, the model follows the
code:

- **Drop estimate.** A stream 1, 2, 3, 5, 6 is described as giving a drop
  estimate of 1. The code leaves `lastSeqNumber` at 3 after the gap, so 5
  and 6 are both gaps and the estimate is 3 (`PingServer.LossOfFourCountsThree`,
  `PingServer.GapIsSticky`).
- **Heartbeat size.** The TGIFHeartbeat header is described as 44 bytes.
  The struct layout on an LP64 target gives 60
  (`Messages.SIZEOF_HEARTBEAT`), and the model uses 60.

## Model

| member | source | states |
|---|---|---|
| ByteOrder.WireRoundTrip | UDPPing/UDPPingClient.c:382 | a 32-bit field written with htonl by a host of either byte order is read back by ntohl on any host |
| Messages.GetMsgOverhead | commonCode/messages.c:73-104 | the header size of each of the four message formats; every other format, and only those, ends the process |
| Messages.CreateDefaultMsgHdr | commonCode/messages.c:129-156 | no header exactly when the allocation fails; otherwise size, mode and sequence number read back through ntohs/ntohl as given, with zero timestamps |
| Messages.DefaultHeaderWireOrder | commonCode/messages.c:129-156 | on either host the header's size, mode and sequence number sit in memory as big-endian bytes |
| Utils.FirstByteOfOne | commonCode/utils.c:447-458 | the first byte of the integer 1 in memory is 0 exactly on a big-endian host |
| Utils.IsBigEndianAsWritten | commonCode/utils.c:447-458 | is_bigendian as written reports true exactly on a little-endian host |
| Utils.IsBigEndian | commonCode/utils.c:447-458 | the corrected test reports true exactly on a big-endian host |
| Utils.SwapBytes | commonCode/utils.c:259-271 | the object's bytes are reversed in place, or left as they were when the test says big-endian |
| Utils.SwapBytesTwice | commonCode/utils.c:259-271 | swapping twice with the same test result restores the object |
| Utils.Htonll | commonCode/utils.c:288-296 | with a true test result the value is returned as is; otherwise the result is stored as the big-endian bytes of the value, on either host |
| Utils.Ntohll | commonCode/utils.c:313-321 | htonll of ntohll's result gives its argument back, whatever the test answers |
| Utils.NtohllOfHtonll | commonCode/utils.c:288-321 | ntohll undoes htonll whatever the byte order test answers |
| Utils.HtonllAsWrittenIsIdentity | commonCode/utils.c:288-296 | with is_bigendian as written, htonll and ntohll return their argument unchanged on either host |
| Utils.HtonllAsWrittenNotNetworkOrder | commonCode/utils.c:288-296 | on a little-endian host, htonll(x) as written is not stored in network byte order for any x from 1 to 255 |
| Utils.HtonllStoresNetworkOrder | commonCode/utils.c:288-296 | with the corrected test, htonll's result is stored as the big-endian bytes of its argument on either host |
| Utils.GetSubStringIndex | commonCode/utils.c:57-96 | the string now ends at the first character of the delimiter set; the returned length is that position; no earlier character is a delimiter; only that one cell changes |
| Utils.MyLLavg | commonCode/utils.c:774-789 | 0 for no samples; otherwise the 64-bit wrapped sum of the samples divided by their number |
| Utils.LLavgAtMostMax | commonCode/utils.c:774-789 | when the sum does not wrap, the mean is at most the largest sample |
| Utils.SumBound | commonCode/utils.c:774-789 | n samples each at most m sum to at most n * m |
| Utils.IpflowHash | commonCode/utils.c:721-728 | the hash is below the table size and equals a closed form: protocol, both addresses, both ports, the destination's top 20 bits and the source's top 12 bits, summed modulo 2^20 |
| TimeHelper.IsTS1GTTS2 | commonCode/timeHelper.c:1439-1447 | a later timespec is never equal to the other |
| TimeHelper.IsTS1GTTS2Trichotomy | commonCode/timeHelper.c:1439-1447 | exactly one of >, == and < holds for any two timespecs |
| TimeHelper.IsTS1GTTS2Transitive | commonCode/timeHelper.c:1439-1447 | the comparison is transitive |
| TimeHelper.IsTS1GTTS2MatchesNanos | commonCode/timeHelper.c:1439-1447 | on normalised timespecs, "later" is exactly "more nanoseconds" |
| TimeHelper.IsZeroTime | commonCode/timeHelper.c:1461-1474 | true for a NULL pointer; for a normalised timespec, true exactly when it denotes 0 ns |
| TimeHelper.IsLessThanOne | commonCode/timeHelper.c:1489-1508 | true for a NULL pointer; for a normalised non-negative timespec, true exactly when it is under a second |
| TimeHelper.IsLessThanOneIgnoresNanos | commonCode/timeHelper.c:1489-1508 | with nanoseconds out of range it answers true for 2 s |
| TimeHelper.GetNanoSeconds | commonCode/timeHelper.c:1698-1704 | the instant in nanoseconds modulo 2^64, and exact whenever it fits |
| TimeHelper.GetTimeSpanTS | commonCode/timeHelper.c:1763-1776 | the error value when the start converts to the larger count; otherwise end minus start, exact when both fit in 64 bits |
| TimeHelper.GetTimeSpanTSErrorIsAmbiguous | commonCode/timeHelper.c:1763-1776 | a genuine span of 2^64 - 1 ns returns the same value as the error |
| TimeHelper.DiffTSpecsAsWritten | commonCode/timeHelper.c:1674-1682 | as written, the result depends only on the seconds: their difference times 10^9, modulo 2^64 |
| TimeHelper.DiffTSpecsAsWrittenDropsNanos | commonCode/timeHelper.c:1674-1682 | as written, a 5 ns difference within one second comes out as 0 |
| TimeHelper.DiffTSpecs | commonCode/timeHelper.c:1674-1682 | the corrected difference is ts2 - ts1 in nanoseconds modulo 2^64, exact when it fits |
| TimeHelper.GetMicroseconds | commonCode/timeHelper.c:1792-1795 | the instant in microseconds whenever it fits in 32 bits |
| TimeHelper.GetTimeSpan | commonCode/timeHelper.c:1741-1745 | the start's count plus the span gives the end's count, modulo 2^32 |
| TimeHelper.GetTimeSpanExact | commonCode/timeHelper.c:1741-1745 | the span is exact whenever the true span fits in 32 bits, even when a count wraps between start and end |
| TimeHelper.GlibcNsec | commonCode/timeHelper.c:1883-1886 | when (freq - 1) * 10^9 does not wrap, the result is below 10^9 and is exactly (tsc mod freq) * 10^9 / freq |
| TimeHelper.ConvertClockParam | commonCode/timeHelper.c:667-719 | parameters 0 to 8, and only those, select a clock rather than the error id |
| TimeHelper.ConvertClockParamInjective | commonCode/timeHelper.c:667-719 | distinct valid parameters select distinct clocks |
| TimeHelper.ClockSourceStringToClockTypeAsWritten | commonCode/timeHelper.c:995-1038 | CLOCK_ERRONEOUS exactly for a NULL string; as written, every other string except "CLOCK_REALTIME" yields CLOCK_REALTIME, and that one yields CLOCK_MONOTONIC |
| TimeHelper.ClockSourceStringToClockType | commonCode/timeHelper.c:995-1038 | CLOCK_ERRONEOUS exactly for a NULL string; with the corrected test, a string mapped to a printable clock equals that clock's name up to ASCII case |
| TimeHelper.ClockName | commonCode/timeHelper.c:1055-1113 | every known name, with its NUL, fits the 32-character buffer |
| TimeHelper.ClockNameRoundTrip | commonCode/timeHelper.c:995-1038 | the corrected parser reads each printed clock name back as the same clock id |
| TimeHelper.ClockSourceClockTypeToString | commonCode/timeHelper.c:1055-1113 | ERROR exactly for a NULL buffer, a size below 32 or an unnamed id, with the buffer untouched; otherwise the name and a NUL are written at its start and nothing else changes |
| DelayHelper.TimespecAddNanos | commonCode/delayHelper.c:731-737 | the instant moves by exactly nanos; the result is normalised exactly when one carry suffices |
| DelayHelper.TimespecAdd | commonCode/delayHelper.c:779-787 | the instants add; normalised inputs give a normalised sum |
| DelayHelper.TimevalAddUlong | commonCode/delayHelper.c:948-954 | the instant moves by exactly value microseconds; normalised exactly when one carry suffices |
| DelayHelper.TimespecVar.AddNanos | commonCode/delayHelper.c:731-737 | the variable's new value is TimespecAddNanos of its old value |
| DelayHelper.TimespecVar.AddUlong | commonCode/delayHelper.c:739-745 | the same computation as timespec_add_nanos, through the pointer |
| DelayHelper.TimespecVar.Add | commonCode/delayHelper.c:779-787 | the variable becomes the sum of both old values, also when both arguments are the same variable |
| DelayHelper.TimevalVar.AddUlong | commonCode/delayHelper.c:948-954 | the variable's new value is TimevalAddUlong of its old value |
| DelayHelper.TimespecGreaterThan | commonCode/delayHelper.c:830-837 | the same order as isTS1GTTS2 |
| DelayHelper.TimevalGreaterThan | commonCode/delayHelper.c:956-962 | on normalised timevals, "later" is exactly "more microseconds" |
| DelayHelper.TimespecDiff | commonCode/delayHelper.c:770-778 | in exact arithmetic, tv1 - tv0 in nanoseconds whether or not the fields are normalised; non-negative when tv0 is not later |
| DelayHelper.TimevalDiff | commonCode/delayHelper.c:965-973 | tv1 - tv0 in microseconds; non-negative when tv0 is not later |
| DelayHelper.NanoDelaySplit | commonCode/delayHelper.c:511-517 | a non-negative count gives a valid sleep request for exactly that delay; a negative one gives an invalid request |
| DelayHelper.ClockNanoDelaySplitAsWritten | commonCode/delayHelper.c:395-407 | the request denotes the delay, and is valid exactly when the delay is 0 or not a multiple of a second |
| DelayHelper.ClockNanoDelaySplit | commonCode/delayHelper.c:395-407 | the corrected split always gives a valid request for exactly the delay |
| DelayHelper.ClockNanoDelay | commonCode/delayHelper.c:381-439 | with the corrected split: the request denotes the delay, and the process exits exactly when the sleep is interrupted |
| DelayHelper.ClockNanoDelayAsWritten | commonCode/delayHelper.c:381-439 | as written: the request denotes the delay, and the process exits exactly when the sleep is interrupted or the delay is a positive whole number of seconds |
| DelayHelper.BusyWait | commonCode/delayHelper.c:802-815 | stops at the first reading later than the target; no reading before it is later |
| DelayHelper.DelayBusyloop1 | commonCode/delayHelper.c:873-886 | stops at the first reading later than start plus nanos, as timespec_add_nanos computes it |
| DelayHelper.DelayBusyloop1Waits | commonCode/delayHelper.c:873-886 | for delays under a second, the reading that ends the wait is more than nanos after the start |
| DelayHelper.DelayBusyloop1EarlyForLongDelays | commonCode/delayHelper.c:873-886 | for a 3 s delay, a reading only 2 s after the start already ends the wait |
| Serialization.RfcEntry | commonCode/serialization.c:23 | an entry is non-zero exactly for the unreserved characters of RFC 3986, and then is the character itself |
| Serialization.Html5Entry | commonCode/serialization.c:24 | non-zero exactly for letters, digits, '*', '-', '.', '_' and space; space maps to '+', the others to themselves |
| Serialization.UrlTables.Init | commonCode/serialization.c:17-26 | both tables hold the entries above for all 256 bytes |
| Serialization.EncodeByte | commonCode/serialization.c:32-33 | one character for a byte the table keeps, three otherwise, never a NUL |
| Serialization.EncodeLength | commonCode/serialization.c:28-38 | the output has one character per kept byte and three per escaped byte |
| Serialization.EncodeHasNoNul | commonCode/serialization.c:28-38 | the encoding holds no NUL, so the terminator written after it ends it |
| Serialization.Sprintf | commonCode/serialization.c:32-33 | the formatted characters and a NUL are written at the position, and nothing else changes |
| Serialization.EncodeOne | commonCode/serialization.c:30-35 | one step appends the byte's encoding and a NUL and returns the NUL's position |
| Serialization.UrlEncode | commonCode/serialization.c:28-38 | the buffer holds the encoding of the string up to the returned position, then a NUL (nothing is written for an empty string); cells after it are untouched |
| Serialization.RfcRoundTrip | commonCode/serialization.c:28-38 | percent-decoding an rfc3986 encoding gives the bytes back |
| Serialization.Html5RoundTrip | commonCode/serialization.c:28-38 | decoding an html5 encoding as form data gives the bytes back |
| Serialization.RfcKeepsUnreserved | commonCode/serialization.c:23 | a string of unreserved characters is copied unchanged |
| Serialization.RfcOutputAlphabet | commonCode/serialization.c:28-38 | the rfc3986 output holds only unreserved characters, '%' and upper-case hex digits |
| Sessions.FindIndex | commonCode/session.c:180-198 | the index of the first record with the key, or the list length when there is none |
| Sessions.FindIndexIsFirst | commonCode/session.c:182-187 | a walk that stops at the first match, or at the end, stops at FindIndex |
| Sessions.Unlink | commonCode/session.c:398-405 | unlinking keeps the arena's addresses |
| Sessions.UnlinkKeepsContents | commonCode/session.c:398-405 | unlinking changes only the records' links |
| Sessions.MarkUnlinkKeepsContents | commonCode/session.c:398-405 | marking a record inactive and unlinking it keeps every address, key and content; only that record's flag and the links change |
| Sessions.UnlinkRemoves | commonCode/session.c:398-405 | on a doubly linked list the record is taken out and the list stays doubly linked; only its two neighbours change |
| Sessions.LinkAtHeadAsWritten | commonCode/session.c:349-351 | as written, the record is added with the old head as its next and becomes the head; every other record, the old head included, is left as it was |
| Sessions.LinkAtHead | commonCode/session.c:349-351 | the corrected linking adds the record with the old head as its next and makes it the head; the old head's prev points at it; nothing else changes |
| Sessions.LinkAtHeadEffect | commonCode/session.c:349-351 | the corrected linking adds the record with the old head as its next, and sets the old head's prev; nothing else changes |
| Sessions.LinkAtHeadPrepends | commonCode/session.c:349-351 | the corrected linking turns a doubly linked list into the same list with the record in front |
| Sessions.RemoveNonHeadAsWrittenStaysLinked | commonCode/session.c:349-351 | as written, after two getActive calls, removing the older session leaves it linked from the newer one |
| Sessions.AppendArchive | commonCode/session.c:407-417 | appending keeps the arena's addresses |
| Sessions.AppendArchiveExtends | commonCode/session.c:407-417 | the archive becomes the old archive with the record at the tail, and lastSession points at it |
| Sessions.AppendArchiveKeepsContents | commonCode/session.c:407-417 | appending changes only the records' links |
| Sessions.FindIndexKept | commonCode/session.c:180-198 | when every record keeps its key, each key is found at the same index |
| Sessions.FindPastHead | commonCode/session.c:180-198 | a record without the key put at the head does not change which record the key finds |
| Sessions.FindPastRemoved | commonCode/session.c:180-198 | taking out a record without the key does not change which record the key finds |
| Sessions.FindPastAppended | commonCode/session.c:217-238 | appending a record without the key does not change which record the key finds |
| Sessions.FindAppended | commonCode/session.c:217-238 | when no record has the key, the key finds a record with it appended at the tail |
| Sessions.SameLookupRefl | commonCode/session.c:180-198 | over the same records, every key finds the same record |
| Sessions.LinkKeepsContents | commonCode/session.c:336-353 | creating a record and linking it at the head keeps every old record's address, key, flag and contents |
| Sessions.PrependKeepsLookups | commonCode/session.c:180-198 | with every old record's key kept and a new record at the head of the active list, every key the new record lacks finds the same active record, and every key the same archived one |
| Sessions.RemovedKeepsLookup | commonCode/session.c:180-198 | with keys kept, taking out a record without the key does not change which record the key finds |
| Sessions.AppendedKeepsLookup | commonCode/session.c:217-238 | with keys kept, appending a record without the key does not change which record the key finds |
| Sessions.MoveKeepsLookups | commonCode/session.c:389-417 | moving the first active record with a key to the archive's tail: every other key finds the same records on both lists, and the key itself finds the moved record in the archive when no archived record had it |
| Sessions.LinkKeepsLists | commonCode/session.c:346-353 | linking a new active record keeps both lists well formed |
| Sessions.MarkUnlinkKeepsLists | commonCode/session.c:398-405 | marking inactive and unlinking keeps the lists well formed; the record is then on neither list |
| Sessions.ArchiveKeepsLists | commonCode/session.c:407-417 | appending an inactive record to the archive keeps the lists well formed |
| Sessions.FreeHeadKeepsLists | commonCode/session.c:775-781 | freeing the head of the archive keeps the lists well formed, with the archive one shorter |
| Sessions.SessionManager.constructor | commonCode/session.c:63-76 | empty lists and zero counters |
| Sessions.SessionManager.GetNumberActiveSessions | commonCode/session.c:139-142 | the length of the active list |
| Sessions.SessionManager.GetNumberSessions | commonCode/session.c:158-161 | the total length of both lists |
| Sessions.SessionManager.Walk | commonCode/session.c:182-187 | the first record from the head on with the key, or Null |
| Sessions.SessionManager.FindActive | commonCode/session.c:180-198 | the first active session with the key; Null exactly when none has it |
| Sessions.SessionManager.FindSession | commonCode/session.c:217-238 | the first archived session with the key; Null exactly when none has it |
| Sessions.SessionManager.CreateSession | commonCode/session.c:260-315 | ERROR exactly for a NULL caller pointer or a full manager, with nothing changed; otherwise a fresh zeroed record on neither list |
| Sessions.SessionManager.GetActive | commonCode/session.c:336-367 | the existing session with the key, unchanged state; or, with room, a new one with the key at the head of the active list and both counters up by one; or Null when full. Every record keeps its address, key and flag, every other key finds the same active session, and every key the same archived one |
| Sessions.SessionManager.RemoveActive | commonCode/session.c:389-428 | ERROR with nothing changed when no active session has the key; otherwise that session leaves the active list, is marked inactive and becomes the archive's tail, and the counters move. Every record keeps its address and key, and only that session's flag changes; every other key finds the same sessions on both lists; when no archived session had the key, the archive now finds the removed one |
| Sessions.SessionManager.ArchiveActive | commonCode/session.c:398-417 | the found session leaves the active list, is marked inactive and becomes the archive's tail; the counters move; every record keeps its address and key, only that session's flag changes, and every other key finds the same sessions on both lists |
| Sessions.SessionManager.LinkNewActive | commonCode/session.c:346-353 | the new session heads the active list with the key and the counters grow; every other record keeps its key, flag and contents |
| Sessions.SessionManager.UnlinkActive | commonCode/session.c:398-405 | the k-th active session is inactive and on neither list; the active counter drops; every record keeps its address and key, and no other flag changes |
| Sessions.SessionManager.AppendToArchive | commonCode/session.c:407-417 | the session becomes the archive's tail and the archive counter grows; every record keeps its address, key and flag |
| Sessions.SessionManager.FreeAllSessions | commonCode/session.c:772-783 | every archived record is freed and counted; sessionCount drops by that number; lastSession and archivedSessionCount stay stale |
| Sessions.SessionManager.FreeFirstArchived | commonCode/session.c:776-780 | the archive's head is freed and firstSession moves to its successor |
| Sessions.SessionManager.InitSessions | commonCode/session.c:97-124 | archived records are freed; both lists are empty and the counters zero; active records stay allocated |
| PingServer.Add32 | UDPPing/UDPPingServer.c:217 | 32-bit unsigned addition: exact below 2^32, one wrap above |
| PingServer.Account | UDPPing/UDPPingServer.c:209-218 | lastSeqNumber moves, by one, exactly when the number is the next one |
| PingServer.Record | UDPPing/UDPPingServer.c:209-218 | in the exact tally each arrival is one kind; a gap adds at least one drop; the last in-order number grows with the in-order count |
| PingServer.CountersAreTallyMod32 | UDPPing/UDPPingServer.c:209-218 | the 32-bit counters after any arrivals are the exact tally modulo 2^32 |
| PingServer.TallyPartition | UDPPing/UDPPingServer.c:209-218 | every arrival is counted once; lastSeqNumber is the in-order count; gaps are at most the drop estimate |
| PingServer.InOrderStreamHasNoDrops | UDPPing/UDPPingServer.c:209-218 | arrivals 1..n in order give no drops and nothing out of order |
| PingServer.GapIsSticky | UDPPing/UDPPingServer.c:211-217 | after a gap, the next number is again a gap |
| PingServer.LossOfFourCountsThree | UDPPing/UDPPingServer.c:209-218 | arrivals 1, 2, 3, 5, 6 give lastSeqNumber 3 and a drop estimate of 3 |
| PingServer.AvgLossRate | UDPPing/UDPPingServer.c:353 | the truncated quotient of drops per iteration; no value when there were no iterations |
| PingServer.Overwrite | UDPPing/UDPPingServer.c:178 | the datagram lands at the buffer's start and the rest is kept |
| PingServer.PatchNet32 | UDPPing/UDPPingServer.c:248-249 | the four bytes at the offset hold the value in network order; the rest is kept |
| PingServer.AckBytes | UDPPing/UDPPingServer.c:255-259 | the ACK is 12 bytes |
| PingServer.AckDecodes | UDPPing/UDPPingServer.c:255-259 | a client of either byte order reads the sequence number and time back out of the ACK |
| PingServer.EchoBuffer | UDPPing/UDPPingServer.c:245-250 | the echo has the received length |
| PingServer.EchoKeepsAllButTime | UDPPing/UDPPingServer.c:245-250 | the echo keeps every byte outside the timestamp fields, sequence number included, and carries the server's time in them |
| PingServer.Server.constructor | UDPPing/UDPPingServer.c:53-79 | the globals' initial values and a receive buffer of maxMsgSize bytes |
| PingServer.Server.Receive | UDPPing/UDPPingServer.c:178 | the buffer after recvfrom |
| PingServer.Server.Patch | UDPPing/UDPPingServer.c:248-249 | one header field set in network order |
| PingServer.Server.AccountArrival | UDPPing/UDPPingServer.c:203-218 | the number is appended to the accounted arrivals, and the counters stay the tally of them modulo 2^32 |
| PingServer.Server.Step | UDPPing/UDPPingServer.c:175-280 | one pass: stops when runFlag is clear; counts the iteration; exits on a failed receive; otherwise accounts the datagram and replies by mode |
| PingServer.Server.Accept | UDPPing/UDPPingServer.c:193-271 | the datagram's code byte becomes the mode, its number is classified, and the reply is the patched echo, the ACK or nothing |
| PingServer.Server.Serve | UDPPing/UDPPingServer.c:169-281 | the loop ends at the first pass that does not continue; the counters are always the exact tally modulo 2^32 |
| PingClient.Dec32 | UDPPing/UDPPingClient.c:451 | seqNumber - 1 wraps: adding one gives seqNumber back modulo 2^32 |
| PingClient.RepeatedIsProduct | UDPPing/UDPPingClient.c:527-531 | k pacing steps of d move the target by k * d |
| PingClient.DelayMicros | UDPPing/UDPPingClient.c:269-281 | zero exactly when no delay is given outside mode 2; a given delay is used as is; mode 2 defaults to 0.2 s |
| PingClient.AvgRTT | UDPPing/UDPPingClient.c:667-670 | 0 with no samples; otherwise the mean times the count is the sum |
| PingClient.AvgLossRate | UDPPing/UDPPingClient.c:672-675 | 0 when nothing was sent; otherwise timeouts per probe, and a fraction in [0, 1] when timeouts do not exceed probes |
| PingClient.DataSizeField | UDPPing/UDPPingClient.c:188 | the field reads back through ntohs as msgSize + 60 truncated to 16 bits |
| PingClient.SendLengthAsWritten | UDPPing/UDPPingClient.c:393 | the length sendMsg is given reads back through ntohs as 59, whatever msgSize is |
| PingClient.SendLengthAsWrittenIgnoresMsgSize | UDPPing/UDPPingClient.c:135-188 | the send length is 15104 on a little-endian host and 59 on a big-endian one, so it differs from msgSize |
| PingClient.BytesRxed | commonCode/SocketHelper.c:51-76 | RxMsg's result: the byte count of a datagram, EXIT_FAILURE (1) for a failed receive |
| PingClient.ErrnoIsEintr | UDPPing/UDPPingClient.c:419 | errno is EINTR after an alarm timeout, never after another failure, and as left from before after a datagram |
| PingClient.Client.constructor | UDPPing/UDPPingClient.c:353-354 | nothing sent, next sequence number 1, the pacing target at the start time |
| PingClient.Client.Iteration | UDPPing/UDPPingClient.c:357-537 | one pass: stops when runFlag is clear; otherwise sends msgSize bytes carrying the sequence number in network order; breaks on a failed send; receives in modes 0 and 1; paces when it goes on; a pass that sent leaves rc at EXIT_SUCCESS or EXIT_FAILURE, and at EXIT_FAILURE when it breaks |
| PingClient.Client.NextSequenceNumber | UDPPing/UDPPingClient.c:379-382 | numberSent grows and the probe carries the sent count modulo 2^32; seqNumber is one past it |
| PingClient.Client.CountBytesSent | UDPPing/UDPPingClient.c:402 | one more successful send is counted |
| PingClient.Client.Receive | UDPPing/UDPPingClient.c:403-521 | a byte count equal to EXIT_FAILURE, a 1-byte datagram included, takes the error path: with errno EINTR one loss is counted (and one alarm timeout when the alarm fired) and the loop goes on, otherwise it ends in failure; any other reply is accepted exactly when its length and sequence number match the mode |
| PingClient.Client.CountLoss | UDPPing/UDPPingClient.c:417-422 | one more loss; one more alarm timeout exactly when the alarm fired (AlarmHandler, line 569) |
| PingClient.Client.RecordSample | UDPPing/UDPPingClient.c:459-466 | an accepted reply counts one RTT and one OWD sample |
| PingClient.Client.Pace | UDPPing/UDPPingClient.c:527-531 | the pacing target moves on by the delay |
| PingClient.Client.Run | UDPPing/UDPPingClient.c:357-537 | the loop stops at the first pass that breaks, or runs every pass; every pass before the last went on; the probes sent are one per pass, less one when the last pass found runFlag clear; rc is EXIT_SUCCESS or EXIT_FAILURE, and EXIT_FAILURE when a pass with runFlag set broke; replies and losses never exceed probes sent, timeouts never exceed losses, and the pacing target is the start plus one delay per paced pass |
| PingClient.Client.Report | UDPPing/UDPPingClient.c:667-675 | the averages: avgRTT times the sample count is the RTT sum; avgLossRate is 0 when nothing was sent, and otherwise numberAlarmTimeouts / numberSent, in [0, 1] while numberSent has not wrapped, since alarm timeouts never exceed probes sent |

## Left out

- Floating point. The client's RTT and OWD sums and the server's running
  averages of quality, RSSI and one-way delay are doubles in C. The model
  takes the RTT sum as a real and does not model the rest;
  `totalBytesRxed` is an exact count.
- The client's times. Pacing times are integer nanoseconds and delays
  integer microseconds, where the C uses doubles in seconds.
  `convertD2TS` and the Kalman filter are not part of this model.
- Sockets, signals and I/O. Sockets, the alarm and its signal handler,
  Ctrl-C handling and its statistics printout, printing, file output, the
  `system("./test.sh")` call and the RSSI reading become inputs to each
  pass or are not modelled.
- Clocks. `getCurTime` and the clocks are inputs: a sequence of readings,
  or the time of a pass.
- The compiled-out message codec. `messages.c` beyond `getMsgOverhead`
  and `createDefaultMsgHdr` is disabled by the preprocessor and is not
  modelled. So is the second, disabled copy of `htonll`/`ntohll` in
  `utils.c`.
- Globals and constants. The `setDefault`/`getDefault` globals are not
  modelled. The value of MAX_DATA_BUFFER is not part of this model.
- Struct sizes. These are constants for an LP64 target rather than a
  computed layout.
- x86 shift semantics. A 32-bit right shift is taken modulo 32, as x86
  executes it (`Utils.Shr32`).
- Pointers and allocation.
  - Pointers into buffers are arrays starting at the pointed-to cell.
  - Session records live in an arena map.
  - `malloc` never fails, except where the model has an explicit flag
    (`Messages.CreateDefaultMsgHdr`).
- Session records' statistics fields and `printSession` are not modelled.
- PingServer.Server.constructor: requires a receive buffer of at least 60
  bytes, so that the header fields the server reads always lie inside it.
- PingClient.Client.Iteration: the counters that are `int` in C
  (`numberPacketLoss` and the sample counts) are unbounded here; their
  overflow is not modelled.
- PingClient.Client.Iteration: an alarm that fires between the receive
  and `alarm(0)` is not modelled.
- PingClient.Client.Pace: only the moving target is modelled. The
  busy-wait towards it is `DelayHelper.BusyWait`.
- PingClient.Client.Iteration: does not model the startup check on
  `hdrSize + msgSize` against the buffer size. That check runs before
  msgSize is read from the arguments.
- Sessions.SessionManager.GetActive: links the new session with the old
  head's prev set. The code as written leaves it unset; see Findings.
- DelayHelper.TimespecAddNanos: the sum of the `long` tv_nsec and the
  `unsigned long` nanos is exact here; its wrap-around at 2^63 and the
  carry of the seconds past the `long` range are not modelled. The same
  holds for `TimespecVar.AddNanos` and `TimespecVar.AddUlong`.
- DelayHelper.TimevalAddUlong: the sum of tv_usec and the `unsigned long`
  value is exact here; its wrap-around and overflow of the seconds are not
  modelled. The same holds for `TimevalVar.AddUlong`.
- DelayHelper.TimespecDiff: the result is the exact integer. The C
  computes it in `long`, which overflows when the seconds differ by more
  than about 292 years, and returns it as a `double`, which is exact only
  below 2^53 ns (about 104 days).
- DelayHelper.TimevalDiff: the result is the exact integer. The C
  computes it in `long` and returns it as a `double`, which is exact only
  below 2^53 microseconds.
- DelayHelper.ClockNanoDelay: uses the corrected split, so a whole number
  of seconds does not make the process exit.
  `DelayHelper.ClockNanoDelayAsWritten` models the code as written; see
  Findings.
- PingClient.Client.Iteration: sends msgSize bytes. The code as written
  sends the length in the dataSize field; see Findings.

## Findings

| source | as written | input that shows it | evidently intended | confidence | as-written member | corrected member |
|---|---|---|---|---|---|---|
| commonCode/utils.c:447-458 | is_bigendian returns false when the first byte of 1 is 0, which is the big-endian case, so its answer is inverted; htonll/ntohll then never swap | a little-endian host: is_bigendian answers true, and htonll(1) is stored as 01 00 00 00 00 00 00 00 (likewise any x from 1 to 255) | true exactly on a big-endian host, so that htonll stores network order | high (not executed) | Utils.IsBigEndianAsWritten, Utils.HtonllAsWrittenNotNetworkOrder | Utils.IsBigEndian, Utils.HtonllStoresNetworkOrder |
| commonCode/timeHelper.c:1678 | diffTSpecs adds ts2's nanoseconds minus ts2's own nanoseconds | ts1 = (0, 0), ts2 = (0, 5): result 0 instead of 5 | ts2's nanoseconds minus ts1's | high (not executed) | TimeHelper.DiffTSpecsAsWritten, TimeHelper.DiffTSpecsAsWrittenDropsNanos | TimeHelper.DiffTSpecs |
| commonCode/timeHelper.c:995-1038 | each test takes a nonzero strcasecmp result, meaning the strings differ, as a match | "CLOCK_MONOTONIC" yields CLOCK_REALTIME; "CLOCK_REALTIME" yields CLOCK_MONOTONIC | a zero result is a match | high (not executed) | TimeHelper.ClockSourceStringToClockTypeAsWritten | TimeHelper.ClockSourceStringToClockType, TimeHelper.ClockNameRoundTrip |
| commonCode/delayHelper.c:395-407 | a second is moved out only while more than 10^9 ns remain | a delay of exactly 10^9 ns gives tv_nsec = 10^9, which clock_nanosleep rejects, and the process exits | move a second out while at least 10^9 ns remain | high (not executed) | DelayHelper.ClockNanoDelaySplitAsWritten, DelayHelper.ClockNanoDelayAsWritten | DelayHelper.ClockNanoDelaySplit, DelayHelper.ClockNanoDelay |
| commonCode/session.c:349-351 | getActive sets the new session's next but never the old head's prev | getActive for A, then for B, then removeActive(A): B's next still points at A, so A stays on the active list | set the old head's prev to the new session | high (not executed) | Sessions.LinkAtHeadAsWritten, Sessions.RemoveNonHeadAsWrittenStaysLinked | Sessions.LinkAtHead, Sessions.LinkAtHeadPrepends, Sessions.UnlinkRemoves, Sessions.SessionManager.GetActive |
| UDPPing/UDPPingClient.c:188 | dataSize is set to htons(msgSize + hdrSize) while msgSize still holds -1, and that network-order field is passed to sendMsg as the length at line 393 | any msgSize, e.g. 1000: 15104 bytes are sent from the 1000-byte buffer on a little-endian host, 59 bytes on a big-endian one | send msgSize bytes | high (not executed) | PingClient.SendLengthAsWrittenIgnoresMsgSize | PingClient.Client.Iteration |
