# Verified models of the ubench algorithms

The repository is a set of measurement tools for QNX and a library they share. Most of it talks to the
operating system; this project models the algorithms in it that have invariants of their own, and proves
what they are for. Every module can be checked with `dafny verify dfyconfig.toml`.

| modules | what they model |
|---|---|
| `Rcu`, `RcuCalls` | the reference-counted cell of `rcu.h`: lock-free readers, copies and releases of handles, and one updater at a time, as a step system over every atomic access, and what whole calls come to |
| `PidMapping`, `ShmemMap` | the sorted list of merged memory lines, and the sweep over two such lists |
| `Bits`, `InternSizes`, `StrIntern`, `MonotonicResource` | the string interner: the linear list it replaces, the hash table with its rehashing, the arithmetic that decides when and how far to rehash, and the block allocator |
| `ReadBuff` | the tokenizer over a fixed buffer |
| `Checksum`, `UdpHeaders`, `Fragments`, `BpfUdp`, `Mixtures`, `EthUdp` | checksums and headers of UDP datagrams, both packet builders, sending in fragments, a receiver that reassembles, and what it makes of two datagrams |
| `Json`, `JsonPrefix`, `JsonWriter`, `JsonTree`, `JsonSession` | the text of JSON values with a reader for it, the context and the handles of the streaming writer, whole values through nested handles, and any sequence of calls |
| `Options`, `OptionLines` | the option string and the command-line parser, and the lines it is for, errors included |
| `Talker` | the traffic shaper and the split of packets over threads |
| `PingPong` | both hand-off protocols of `core_latency` under a scheduler |

Objects whose methods change them are classes; each method's contract ties the new state to a function or a
predicate on values, and the properties are lemmas about those. What the operating system, a clock, a
scheduler or a hash function does is an arbitrary input. Byte order: words are in network order, and
addresses and ports that the source copies with `memcpy` are the words of the copied bytes.

## Where the code does not do what is said of it

Each of these is a theorem, with the exact condition where there is one.

- `rcu.h` publishes a slot's count (line 205) before its pointer (line 206). A reader that loaded the slot's
  number earlier can take a count in between and see the old, deleted object: `Rcu.StaleReadHappens`. All
  handles are alive in all states of a run if and only if no such read happens in it:
  `Rcu.HandlesAliveIffNoStaleRead`. It is enough that no update takes the lock while a reader is between its
  load of the index and its read of the pointer: `Rcu.NoLockDuringReadIsEnough`.
- The interner's code comments say that a rehash leaves room so that none follows at once. One does follow
  exactly if some power of two below the limit, as a number of buckets, has room at the load factor for one
  string after the next, and not for two: `InternSizes.RehashTwiceIff`. From one bucket the second and the
  third string both rehash, `InternSizes.OneBucketRehashesTwice`; with at least two buckets and the default
  factor none follows.
- `str_intern.h:27-28` says that the constructor refuses a `max_buckets` that is not a power of two. It takes
  every multiple of `buckets`: `InternSizes.AcceptedIff`. No calls make the table larger than its limit, or
  smaller than it was, if and only if the limit is a power of two or one more: `InternSizes.LimitIsKeptIff`.
  With any other limit, new strings alone first exceed it, `InternSizes.OtherLimitIsExceeded`, and then make
  the table smaller, `InternSizes.OtherLimitShrinks`.
- `next_size` returns 0, and `intern` looks into a table without buckets, if and only if one more string needs
  more buckets than half the range of `size_t`, and fewer than the limit: `InternSizes.NextSizeIsZeroIff`. Some
  calls come to that if and only if the limit is above half the range by more than one:
  `InternSizes.NeverBreaksIff`, `StrIntern.AllCallsKeepBucketsIff`; with 32 bits, 2^25 strings and then the
  factor 0.011 do it for a limit of 3 * 2^30: `InternSizes.BreaksAt32Bits`. In all other calls the references
  of `intern` are right, whatever the limit: `StrIntern.RunCalls`.
- `str_intern.h:58-61` says that a lowered load factor which the strings exceed rehashes with the next string.
  It does exactly if there are also as many strings as buckets: `InternSizes.PromiseIsKeptIff`, and for all
  factors `InternSizes.NewFactorRehashesIff`.
- `pid_mapping::insert` recognises a duplicate only by the start of an entry:
  `PidMapping.DuplicateIffSameStart`, `PidMapping.RepeatedPageIsAccepted`. The list stays right if and only if
  the line is disjoint from all entries, or an entry with its start and attributes is at least as long:
  `PidMapping.StaysRightIff`.
- `udp_load.cpp` splits the packets over threads with products of 32 bits. The shares add up to the packets if
  and only if threads * packets is below 2^32; in 32 bits they come to the wrapped product over the threads:
  `Talker.Shares`.
- No call of the socket counts the identification up, by which a receiver tells datagrams apart. Two datagrams
  that go out in fragments never mix if and only if their identifications differ, or one is the start of the
  other, or all their fragments but one are the same: `Mixtures.FramesNeverMixIff`. With one identification,
  the first fragment of one and the others of the other assemble to a datagram that is one of the two only if
  their heads or their tails agree, and that passes the receiver's UDP check if and only if both are of one
  length and their tails have the same sum modulo 65535: `Mixtures.SharedIdIsMixed`.
- The JSON writer copies control characters that have no short escape. A reader as strict as section 7 of
  RFC 8259 accepts the text if and only if there are none: `Json.TextRoundTrip`.
- `-o` with an empty argument attached is not `-o` with an empty argument behind it:
  `Options.AttachedParsesAsSeparate`.
- In `corerw_benchmark.cpp` the pong thread's bound is a product of 32 bits, the ping thread's loops are
  nested. The run ends if and only if the product fits: `PingPong.RunEndsIffProductFits`. Without `init`, the
  next run ends if and only if the number of hand-offs was even: `PingPong.NextRunEndsIffEven`. In
  `core_benchmark.cpp` it is the ping thread's bound that is a product, with as many bits as `size_t` has; the
  run ends if and only if it fits: `PingPong.SwapRunEndsIffProductFits`.
- The file comment of `rcu.h` has a freed slot's pointer set to null; the code leaves it, and so does the model.

## Model

| member | source | states |
|---|---|---|
| Rcu.CountsAreReferences | qnx/lib/libubench/include/ubench/atomics/rcu.h:131-213 | in every run, a slot's count is the number of its unreleased handles and readers past their exchange, plus one for the cell; the published slot is never free, nothing is taken from 0, no positive count is overwritten |
| Rcu.StepKeepsInv | qnx/lib/libubench/include/ubench/atomics/rcu.h:76-279 | every atomic step of readers, handles and updater keeps the invariant behind the counts |
| Rcu.HandlesAliveIffNoStaleRead | qnx/lib/libubench/include/ubench/atomics/rcu.h:131-213 | over a whole run, no handle ever points at a deleted object if and only if no reader reads the pointer of the reserved slot between the two stores |
| Rcu.NoCasInWindowIsEnough | qnx/lib/libubench/include/ubench/atomics/rcu.h:165-206 | if no reader's exchange succeeds between the two stores, all handles stay alive |
| Rcu.NoLockDuringReadIsEnough | qnx/lib/libubench/include/ubench/atomics/rcu.h:131-213 | if no update takes the lock while a reader is between its load of the index and its read of the pointer, all handles stay alive |
| Rcu.StaleReadHappens | qnx/lib/libubench/include/ubench/atomics/rcu.h:131-213 | a run of 14 steps whose last handle points at an object deleted before |
| Rcu.DeletedExactlyAtZero | qnx/lib/libubench/include/ubench/atomics/rcu.h:76-98 | without a stale read each object is deleted at most once, exactly when its slot has lost all references |
| Rcu.UpdateFailsOnlyIfAllHeld | qnx/lib/libubench/include/ubench/atomics/rcu.h:190-207 | an update gives up only if every unpublished slot had a handle or reader when its scan began |
| Rcu.FailedScanSawAll | qnx/lib/libubench/include/ubench/atomics/rcu.h:194-199 | a scan that gives up finds every unpublished slot occupied already when it began: during a scan none goes from free to occupied, whatever readers do |
| Rcu.ScanIsBounded | qnx/lib/libubench/include/ubench/atomics/rcu.h:194-199 | a scan that goes on has looked at fewer slots than there are, one with each step: it ends after a bounded number of steps |
| Rcu.FreeSlotIsFound | qnx/lib/libubench/include/ubench/atomics/rcu.h:190-207 | if an unpublished slot has no handle and no reader when the lock is taken, the scan ends with a free slot |
| Rcu.UpdaterGoesOn | qnx/lib/libubench/include/ubench/atomics/rcu.h:188-212 | in every state of a run the updater's next step can be taken: it waits for nobody |
| Rcu.PublishedStampGrows | qnx/lib/libubench/include/ubench/atomics/rcu.h:205-207 | the published pointer is never replaced by an older one |
| Rcu.ReadIsFresh | qnx/lib/libubench/include/ubench/atomics/rcu.h:131-172 | a read gives a pointer that was stored no earlier than the one published when the read began |
| RcuCalls.ReadAlone | qnx/lib/libubench/include/ubench/atomics/rcu.h:131-172 | in every state of a run, a read that nobody disturbs returns the published pointer with one more reference, and changes nothing else |
| RcuCalls.ExchangeSucceedsIff | qnx/lib/libubench/include/ubench/atomics/rcu.h:143-166 | in every run, a reader's exchange succeeds and counts one more exactly when the slot has the count that the reader loaded, and that was not 0 |
| RcuCalls.CopyShares | qnx/lib/libubench/include/ubench/atomics/rcu.h:23-28 | a handle can always be copied: both are then on one object with one more reference |
| RcuCalls.ReleaseLetsGo | qnx/lib/libubench/include/ubench/atomics/rcu.h:76-98 | a handle can always be released: it is empty then, its slot has one reference less, and with the last one its object is deleted |
| RcuCalls.UpdateAlone | qnx/lib/libubench/include/ubench/atomics/rcu.h:179-213 | an update that nobody disturbs publishes the object in the first free slot and frees the one before, or gives up without a change exactly if no slot is free |
| PidMapping.PidMap.Insert | qnx/tools/lshmem/pid_mapping.cpp:112-153 | the walk over the list gives what the case split on the first entry not below the line gives |
| PidMapping.PidMap.InsertBefore | qnx/tools/lshmem/pid_mapping.cpp:121-141 | the edits in place: into the next entry, into both neighbours, into the one before, or between |
| PidMapping.InsertedSplice | qnx/tools/lshmem/pid_mapping.cpp:93-153 | an insertion replaces a stretch of entries by one that spans them and the line |
| PidMapping.InsertedIsCanonical | qnx/tools/lshmem/pid_mapping.cpp:112-153 | inserting keeps the list sorted, disjoint and fully merged, and adds exactly the line's labelled addresses |
| PidMapping.CanonicalIsUnique | qnx/tools/lshmem/pid_mapping.cpp:93-110 | there is one canonical list for what is covered |
| PidMapping.InsertAllIsCanonical | qnx/tools/lshmem/pid_mapping.cpp:112-153 | after any pairwise disjoint lines the list is canonical and covers exactly them |
| PidMapping.InsertOrderIsIrrelevant | qnx/tools/lshmem/pid_mapping.cpp:112-153 | the same lines in any order give the same list |
| PidMapping.InsertAllTotalLen | qnx/tools/lshmem/pid_mapping.cpp:93-153 | the total length is conserved |
| PidMapping.DuplicateIffSameStart | qnx/tools/lshmem/pid_mapping.cpp:117-118 | a line leaves the list as it is exactly when an entry starts where it does |
| PidMapping.StaysRightIff | qnx/tools/lshmem/pid_mapping.cpp:112-153 | for every line that fits, the list stays canonical and covers exactly the union if and only if the line is disjoint from all entries or an entry with its start and attributes is at least as long |
| PidMapping.RepeatedPageIsAccepted | qnx/tools/lshmem/pid_mapping.cpp:117-118 | the second of two merged pages, inserted again, becomes an overlapping entry |
| ShmemMap.Overlaps.CompareAndAdd | qnx/tools/lshmem/shmem_map.cpp:48-77 | the vector with the intersection added to the entry of both attributes, or a new entry |
| ShmemMap.AccumulatedSizes | qnx/tools/lshmem/shmem_map.cpp:48-77 | only the pair's own class grows, by the length of the intersection, and keys stay distinct |
| ShmemMap.SweepStep | qnx/tools/lshmem/lshmem.cpp:110-120 | dropping the line that ends first loses no intersection |
| ShmemMap.Sweep | qnx/tools/lshmem/lshmem.cpp:107-121 | the two-pointer sweep gives for every pair of classes the number of addresses that both lists map with them, in one entry each, without wrap-around |
| ShmemMap.AllPairsCount | qnx/tools/lshmem/shmem_map.cpp:48-55 | the sum of the intersections over all pairs of lines is that number |
| ShmemMap.EntryIffOverlap | qnx/tools/lshmem/shmem_map.cpp:56-75 | there is an entry exactly for the pairs of classes that overlap |
| Bits.BitCeilIsLeast | qnx/lib/libubench/src/str_intern.cpp:61-77 | for every width, the shifts and ors give the least power of two not below the argument, and 0 for 0 or when it does not fit |
| InternSizes.RehashGrows | qnx/lib/libubench/src/str_intern.cpp:282-338 | with a limit that is a power of two, or one more, a rehash makes the table larger, to a power of two or to the limit, with the threshold above the count unless the limit is reached |
| InternSizes.RehashIsLeast | qnx/lib/libubench/src/str_intern.cpp:282-304 | for every factor, the new table is the smallest power of two below the limit that holds one more string, or the limit |
| InternSizes.LoadDecides | qnx/lib/libubench/src/str_intern.cpp:333-338 | after it, a new string rehashes exactly when one more string exceeds the load |
| InternSizes.AddedIsWithin | qnx/lib/libubench/src/str_intern.cpp:206-217 | with such a limit a new string, with or without rehash, keeps the size invariant and never shrinks the table |
| InternSizes.WithFactorIsWithin | qnx/lib/libubench/src/str_intern.cpp:246-260 | setting the load factor keeps the size invariant |
| InternSizes.RehashTwiceIff | qnx/lib/libubench/src/str_intern.cpp:282-304 | the string that follows a rehash makes another one exactly when, before the first, some power of two below the limit is a table with room for one string after the next and not for two |
| InternSizes.OneBucketRehashesTwice | qnx/lib/libubench/src/str_intern.cpp:207-217 | two rehashes in a row from one bucket |
| InternSizes.UnitRehashDoubles | qnx/lib/libubench/src/str_intern.cpp:282-338 | at factor 1.0 a rehash happens when the table is full and doubles it |
| InternSizes.UnitCopiesAreLinear | qnx/lib/libubench/src/str_intern.cpp:306-338 | at factor 1.0 the blocks moved so far are fewer than twice the strings, and from two buckets on no rehash follows another |
| InternSizes.AcceptedIff | qnx/lib/libubench/src/str_intern.cpp:349-358 | the constructor takes exactly a power of two and a multiple of it |
| InternSizes.LimitIsKeptIff | qnx/lib/libubench/src/str_intern.cpp:282-338 | of all limits that are taken, no calls take the table beyond the limit or make it smaller exactly for a power of two or one more |
| InternSizes.OtherLimitIsExceeded | qnx/lib/libubench/src/str_intern.cpp:282-338 | with any other limit, one string more than the largest power of two below it makes the table twice that power, or empty if that does not fit the type |
| InternSizes.OtherLimitShrinks | qnx/lib/libubench/src/str_intern.cpp:282-338 | where twice the power fits, and that table is full, the next string shrinks it to the limit |
| InternSizes.OtherLimitBreaks | qnx/lib/libubench/src/str_intern.cpp:282-338 | where it does not fit, the string after as many as the power looks into a table without buckets |
| InternSizes.NextSizeIsZeroIff | qnx/lib/libubench/src/str_intern.cpp:299-303 | for every limit that is taken, the next size is 0 exactly when one more string exceeds the load of half the range of the type, and not that of the limit less one |
| InternSizes.NeverBreaksIff | qnx/lib/libubench/src/str_intern.cpp:282-338 | of all limits that are taken, no calls make a table without buckets exactly for those up to half the range of the type, plus one |
| InternSizes.SevenBreaks | qnx/lib/libubench/src/str_intern.cpp:282-338 | with three bits, 1 bucket and a limit of 7 four strings are enough |
| InternSizes.BreaksAt32Bits | qnx/lib/libubench/src/str_intern.cpp:246-338 | with 32 bits and a limit of 3 * 2^30, 2^25 strings and the factor 0.011 are |
| InternSizes.MultipleIsAccepted | qnx/lib/libubench/src/str_intern.cpp:349-358 | such a limit is 12 for 4 buckets |
| InternSizes.NewFactorRehashesIff | qnx/lib/libubench/src/str_intern.cpp:246-260 | for every factor, the next string rehashes exactly if the table can grow, the product of buckets and factor fits, and there are as many strings as buckets and as many as the product |
| InternSizes.PromiseIsKeptIff | qnx/lib/libubench/src/str_intern.cpp:246-260 | the header's promise for a factor that the strings exceed is kept exactly if there are as many strings as buckets |
| StrIntern.InternIdentifiesStrings | qnx/lib/libubench/benchmark/str_intern/intern_forward_list.cpp:3-12 | references of the linear list are equal exactly for equal strings, and last |
| StrIntern.ForwardList.Intern | qnx/lib/libubench/benchmark/str_intern/intern_forward_list.cpp:3-12 | the list search gives the reference of the specification and appends only new strings |
| StrIntern.Interner.Redistribute | qnx/lib/libubench/src/str_intern.cpp:312-318 | all blocks, and only they, are in the new table, each where its hash belongs |
| StrIntern.NewInterner | qnx/lib/libubench/src/str_intern.cpp:349-360 | for all numbers that fit the type, a new table for a power of two of buckets and a multiple of it, and for no others |
| StrIntern.Interner.Intern | qnx/lib/libubench/src/str_intern.cpp:195-218 | for any hash function and any limit the constructor takes, the table gives the reference of the linear list and grows as the size arithmetic says, unless a new string would make a table without buckets |
| StrIntern.RunCalls | qnx/lib/libubench/src/str_intern.cpp:195-261 | for any limit the constructor takes, over any calls of `intern` and `max_load_factor` that keep the table's buckets, the references are those of the linear list, the sizes those of the arithmetic, and the size is the number of distinct strings |
| StrIntern.AllCallsKeepBucketsIff | qnx/lib/libubench/src/str_intern.cpp:195-338 | all calls keep them exactly for limits up to half the range of the type, plus one |
| StrIntern.InternWords | qnx/lib/libubench/src/str_intern.cpp:306-338 | with a limit that is a power of two and the default factor, a run of `intern` moves fewer blocks than twice the strings |
| MonotonicResource.Resource.GetPointer | qnx/lib/libubench/src/str_intern.cpp:102-110 | an aligned region of the free rest, exactly when one fits after padding |
| MonotonicResource.Resource.Allocate | qnx/lib/libubench/src/str_intern.cpp:113-136 | all regions handed out are aligned, inside a block and pairwise disjoint; requests above a sixteenth of a block get their own memory, the others the next aligned place of the newest block, and a new block only if that does not fit; `bad_alloc` comes exactly when neither fits, and never if bytes + alignment - 1 fit a block |
| MonotonicResource.Padding | qnx/lib/libubench/src/str_intern.cpp:103-103 | the padding reaches a multiple of the alignment, and is less than the alignment: the least multiple |
| ReadBuff.WordsSplit | qnx/lib/libubench/benchmark/str_intern/readbuff.cpp:53-107 | each of the six characters of white space, by their codes, splits the words of a stream |
| ReadBuff.WordStaysWhole | qnx/lib/libubench/benchmark/str_intern/readbuff.cpp:60-92 | what holds none of the six is one word |
| ReadBuff.WordsKeepAll | qnx/lib/libubench/benchmark/str_intern/readbuff.cpp:53-107 | the words together are the text without the six, and none is empty or has one of them |
| ReadBuff.TokensKeepAll | qnx/lib/libubench/benchmark/str_intern/readbuff.cpp:53-107 | the same for tokens, none of which is longer than the buffer |
| ReadBuff.TokensSplit | qnx/lib/libubench/benchmark/str_intern/readbuff.cpp:53-107 | tokens are split where words are |
| ReadBuff.LongWordIsCut | qnx/lib/libubench/benchmark/str_intern/readbuff.cpp:83-106 | a word longer than the buffer is cut into pieces of its size |
| ReadBuff.TokensAreWordsIff | qnx/lib/libubench/benchmark/str_intern/readbuff.cpp:83-106 | the tokens of a stream are its words exactly when every word fits the buffer |
| ReadBuff.Reader.Fill | qnx/lib/libubench/benchmark/str_intern/readbuff.cpp:31-51 | in whatever pieces reads come, the buffer holds the next bytes of the file up to its end or the file's |
| ReadBuff.Reader.FindWord | qnx/lib/libubench/benchmark/str_intern/readbuff.cpp:60-78 | the next character that is not white space, over any number of refills |
| ReadBuff.Reader.TakeWord | qnx/lib/libubench/benchmark/str_intern/readbuff.cpp:80-106 | the whole word at the position, shifted and read on where needed, and what follows it is left |
| ReadBuff.Reader.GetToken | qnx/lib/libubench/benchmark/str_intern/readbuff.cpp:53-107 | the first token of the rest of the stream, or failure when only white space is left |
| ReadBuff.AllTokens | qnx/lib/libubench/benchmark/str_intern/readbuff.cpp:53-107 | for every buffer size and every chopping of reads, calls up to the first failure give the tokens of the whole stream |
| Checksum.OnesSumIsFolded | qnx/poc/bpf_udp4/bpf_l2_udp_packet.cpp:72-82 | the sum with end-around carries of section 1 of RFC 1071 is the plain sum, folded |
| Checksum.FoldCarries | qnx/poc/bpf_udp4/bpf_l2_udp_packet.cpp:78-80 | the folding loop ends, with the number congruent modulo 65535 |
| Checksum.AddWords | qnx/poc/bpf_udp4/bpf_l2_udp_packet.cpp:124-131 | the accumulator is the sum of the words and stays below 2^32 |
| Checksum.ChecksumVerifies | qnx/poc/bpf_udp4/bpf_l2_udp_packet.cpp:81-145 | with the checksum in its field the receiver's sum is all ones |
| Checksum.OneWordIsCaught | qnx/poc/bpf_udp4/bpf_l2_udp_packet.cpp:72-82 | a change of one word passes only between the two zeros |
| UdpHeaders.IpVerifies | qnx/poc/bpf_udp4/bpf_l2_udp_packet.cpp:72-82 | a sealed IPv4 header sums to all ones |
| UdpHeaders.UdpVerifies | qnx/poc/bpf_udp4/bpf_l2_udp_packet.cpp:84-146 | pseudo header, UDP header and padded data sum to all ones, and the field is not 0 |
| UdpHeaders.UdpSum | qnx/poc/bpf_udp4/bpf_l2_udp_packet.cpp:113-145 | for payloads up to 65527 bytes, even or odd, the loops give the checksum of RFC 768 without overflow |
| UdpHeaders.HeaderIsUnique | qnx/tools/udp_load/l2_eth_udp_pkt.cpp:137-191 | fields and payload determine every word of the header |
| Fragments.PieceAt | qnx/poc/bpf_udp4/bpf_l2_udp_packet.cpp:247-262 | each fragment starts where the one before ends, and only the last has no more |
| Fragments.ReassembledIffAllArrived | qnx/poc/bpf_udp4/bpf_socket.cpp:151-173 | from any arrivals, in any order and number, a receiver has a datagram exactly when none is missing, and it is the one sent |
| BpfUdp.Packet.GetHeader | qnx/poc/bpf_udp4/bpf_l2_udp_packet.cpp:188-207 | the fields of an unfragmented datagram, both checksums, and nothing else changed |
| BpfUdp.Packet.GetFragment | qnx/poc/bpf_udp4/bpf_l2_udp_packet.cpp:209-272 | lengths, flags, offset and checksums of the first and of later fragments; the UDP checksum is the whole datagram's |
| BpfUdp.DatagramAccepted | qnx/poc/bpf_udp4/bpf_l2_udp_packet.cpp:84-146 | the datagram passes the receiver's UDP check |
| BpfUdp.Socket.SendFragments | qnx/poc/bpf_udp4/bpf_socket.cpp:151-173 | the loop ends, and a receiver reads from the frames exactly the fragments of the datagram, in order, with valid headers and one identification |
| BpfUdp.Socket.Send | qnx/poc/bpf_udp4/bpf_socket.cpp:123-176 | the same for every payload up to 65527 bytes and every MTU from 68, up to the first frame that is not accepted; success exactly if all are |
| BpfUdp.FragmentsFit | qnx/poc/bpf_udp4/bpf_l2_udp_packet.cpp:219-262 | no fragment exceeds the MTU, none but the last leaves room for eight more bytes, there is one exactly if the datagram fits, offsets are in units of 8 bytes and fit their field, all but the last hold a multiple of 8 bytes |
| BpfUdp.DeliveredIffAllArrive | qnx/poc/bpf_udp4/bpf_socket.cpp:123-176 | from frames that arrive in any order and number the receiver has UDP header and payload, with a valid checksum, exactly when every frame has arrived |
| BpfUdp.SendAndReceive | qnx/poc/bpf_udp4/bpf_socket.cpp:123-176 | over any network that drops, repeats and reorders frames, a datagram sent is received whole, with a valid checksum, exactly when every frame is delivered |
| Mixtures.NeverMixedIff | qnx/poc/bpf_udp4/bpf_socket.cpp:151-173 | of any two datagrams in fragments of one size, whatever arrives of them, a receiver has one of the two or none exactly when their identifications differ, or one is the start of the other, or all fragments but one are the same |
| Mixtures.FramesNeverMixIff | qnx/poc/bpf_udp4/bpf_socket.cpp:151-173 | the same for the frames of two calls of `send` that fragment |
| Mixtures.DistinctIdsDoNotMix | qnx/poc/bpf_udp4/bpf_socket.cpp:151-173 | with two identifications, a receiver has a datagram exactly when none of its fragments is missing, whatever of the other one arrives between |
| Mixtures.SharedIdMixes | qnx/poc/bpf_udp4/bpf_socket.cpp:151-173 | with one identification, the first fragment of one datagram and the others of another of any size assemble to a datagram that is one of them exactly if the tails or the heads agree |
| Mixtures.MixtureAcceptedIff | qnx/poc/bpf_udp4/bpf_l2_udp_packet.cpp:84-146 | it passes the receiver's UDP check exactly when both are of one length and their tails have one sum modulo 65535 |
| Mixtures.SharedIdIsMixed | qnx/poc/bpf_udp4/bpf_socket.cpp:151-173 | both of the above for the frames of two calls of `send` |
| EthUdp.EthPacket.BuildPktHdr | qnx/tools/udp_load/l2_eth_udp_pkt.cpp:137-191 | the header of the fields with and without VLAN, only when it was reset, with the identification counted up |
| EthUdp.FieldsInPlace | qnx/tools/udp_load/l2_eth_udp_pkt.cpp:137-191 | every field of that header is at its byte, in network order, with and without VLAN |
| EthUdp.BuildersAgree | qnx/tools/udp_load/l2_eth_udp_pkt.cpp:137-191 | without VLAN and with TTL 1 both builders give the same 42 bytes |
| EthUdp.BuildBoth | qnx/poc/bpf_udp4/bpf_l2_udp_packet.cpp:150-207 | the same for the two objects at work |
| EthUdp.VlanIsInserted | qnx/tools/udp_load/l2_eth_udp_pkt.cpp:139-162 | a VLAN tag is four bytes put in, and changes nothing else |
| Json.EscapeString | qnx/tools/sdd/libsjson/src/json_writer_context.cpp:60-85 | copying runs is the same as escaping character by character |
| Json.NoRawControls | qnx/tools/sdd/libsjson/src/json_writer_context.cpp:36-58 | no character 8, 9, 10, 12 or 13 goes out as it is |
| Json.CopiedIff | qnx/tools/sdd/libsjson/src/json_writer_context.cpp:36-85 | a text goes out as it is exactly if it has no quotation mark, no backslash, none of these characters and, if the setting is on, no solidus |
| Json.SolidusIsEscaped | qnx/tools/sdd/libsjson/src/json_writer_context.cpp:42-44 | all that the setting does is to put a backslash before every solidus |
| Json.StringRoundTrip | qnx/tools/sdd/libsjson/src/json_writer_context.cpp:36-85 | a quoted string reads back as itself, strictly exactly if its characters are from code 0x20 on or 8, 9, 10, 12 or 13 |
| Json.TextRoundTrip | qnx/tools/sdd/libsjson/src/json_writer_object.cpp:6-88 | the text of every value, under both solidus settings, reads back as the value; strictly exactly if it is clean |
| Json.ArrayLayout | qnx/tools/sdd/libsjson/src/json_writer_array.cpp:50-78 | the text of an array: its items with ", " between them and a space inside each bracket |
| Json.ObjectLayout | qnx/tools/sdd/libsjson/src/json_writer_object.cpp:55-88 | the same for an object, each value behind its quoted key and ": " |
| JsonPrefix.NoProperPrefix | qnx/tools/sdd/libsjson/src/json_writer_array.cpp:72-78 | a container's text without its end is no text |
| JsonWriter.Context.Register | qnx/tools/sdd/libsjson/src/json_writer_context.cpp:5-15 | only the innermost token of an open context can register, and errors change nothing |
| JsonWriter.Context.Unregister | qnx/tools/sdd/libsjson/src/json_writer_context.cpp:17-23 | only the innermost token leaves the stack |
| JsonWriter.Context.Write | qnx/tools/sdd/libsjson/src/json_writer_context.cpp:25-34 | text goes out for the innermost token only, silently nowhere after the context is closed |
| JsonWriter.ObjectHandle.WriteValue | qnx/tools/sdd/libsjson/src/json_writer_object.cpp:26-80 | separator, key and value go out in one piece or nothing changes |
| JsonWriter.ObjectHandle.WriteObject | qnx/tools/sdd/libsjson/src/json_writer_object.cpp:12-17 | a nested container is opened with a token of its own, or nothing changes |
| JsonWriter.ObjectHandle.Close | qnx/tools/sdd/libsjson/src/json_writer_object.cpp:82-88 | the innermost container is ended; closing twice is harmless |
| JsonWriter.ArrayHandle.WriteValue | qnx/tools/sdd/libsjson/src/json_writer_array.cpp:24-70 | the same for an item |
| JsonWriter.ArrayHandle.WriteArray | qnx/tools/sdd/libsjson/src/json_writer_array.cpp:18-22 | the same for a nested array |
| JsonWriter.ArrayHandle.Close | qnx/tools/sdd/libsjson/src/json_writer_array.cpp:72-78 | the same for an array |
| JsonWriter.Writer.WriteObject | qnx/tools/sdd/libsjson/src/json_writer.cpp:55-62 | one root only; what the root is written with is `JsonSession.RootTakesConfiguration` |
| JsonTree.WriteDocument | qnx/tools/sdd/libsjson/src/json_writer.cpp:46-81 | any container written through nested handles gives its text, which reads back as the value |
| JsonSession.RejectedChangesNothing | qnx/tools/sdd/libsjson/src/json_writer_context.cpp:25-34 | a call that is not through the innermost handle throws and leaves output, separators and stack as they were |
| JsonSession.ClosedCalls | qnx/tools/sdd/libsjson/src/json_writer_context.cpp:5-34 | on a closed writer values go nowhere without an error, containers and a root are refused, and handles can be closed |
| JsonSession.AcceptedCalls | qnx/tools/sdd/libsjson/src/json_writer_context.cpp:5-23 | an accepted call gives no error; it marks its handle, opens a handle of the right kind on top of the stack, or closes the innermost one |
| JsonSession.RootTakesConfiguration | qnx/tools/sdd/libsjson/src/json_writer.cpp:55-71 | the first call for a root takes the setting of that moment for all that is written after it |
| JsonSession.StepKeepsInv | qnx/tools/sdd/libsjson/src/json_writer_context.cpp:5-34 | every call keeps output, stack and handles in step with one document being built |
| JsonSession.OnlyInnermostWrites | qnx/tools/sdd/libsjson/src/json_writer_context.cpp:25-34 | in every run a call writes exactly if all handles opened later are closed |
| JsonSession.CollapseText | qnx/tools/sdd/libsjson/src/json_writer_object.cpp:55-88 | the output and the missing ends make the text of a document |
| JsonSession.OutputIsPrefix | qnx/tools/sdd/libsjson/src/json_writer.cpp:55-81 | after any calls the output is a prefix of a document |
| JsonSession.CompleteIffRootClosed | qnx/tools/sdd/libsjson/src/json_writer.cpp:55-81 | it reads as a whole text exactly if the root container was closed before the writer |
| Options.BuildOptionMap | qnx/lib/libubench/src/options.cpp:26-53 | the loop gives the map of the specification, or refuses |
| Options.AcceptedIffWellFormed | qnx/lib/libubench/src/options.cpp:31-50 | a string is accepted exactly if it is letters with at most one colon after each |
| Options.LastMentionCounts | qnx/lib/libubench/src/options.cpp:31-50 | a letter takes an argument exactly if its last mention has a colon |
| Options.LettersAreValid | qnx/lib/libubench/src/options.cpp:13-53 | a letter alone is an option string exactly if it is a digit, a letter or a question mark, by its code |
| Options.CommandLine.ParseCluster | qnx/lib/libubench/src/options.cpp:83-122 | the letters of one argument, with attached, following or missing arguments, as the recursive form has them |
| Options.CommandLine.ParseOptions | qnx/lib/libubench/src/options.cpp:61-132 | options, errors and operands of the whole line as the recursive form has them |
| OptionLines.LineParses | qnx/lib/libubench/src/options.cpp:61-132 | every line of letters behind dashes, with arguments attached, following or missing, unknown letters, two dashes and operands, gives just what it spells, errors and all, in its order |
| OptionLines.EveryLineParses | qnx/lib/libubench/src/options.cpp:61-132 | every command line is such a line, so that errors are reported exactly for unknown letters and for an argument missing at the end |
| OptionLines.MissingIsReported | qnx/lib/libubench/src/options.cpp:104-109 | after any options, an argument missing at the end of the line is reported |
| OptionLines.UnexpectedIsReported | qnx/lib/libubench/src/options.cpp:90-97 | after any options, an unknown letter is reported and the rest of the line parsed |
| Options.OperandsAreSuffix | qnx/lib/libubench/src/options.cpp:71-130 | the operands are the last arguments, unchanged |
| Options.PrintedParses | qnx/lib/libubench/src/options.cpp:71-130 | allowed options printed one by one, then two dashes and any operands, parse as themselves |
| Options.SeparateFormParsesSame | qnx/lib/libubench/src/options.cpp:61-132 | every line without errors parses the same as its separate form |
| Options.ClusterParsesAsSeparated | qnx/lib/libubench/src/options.cpp:83-122 | letters behind one dash parse as letters behind dashes of their own |
| Options.AttachedParsesAsSeparate | qnx/lib/libubench/src/options.cpp:101-116 | an attached argument parses as a following one exactly if it is not empty |
| Talker.After | qnx/tools/udp_load/udp_talker.cpp:175-284 | for every clock and every sending the window is at most what is expected, and the total is the window plus the credits taken |
| Talker.OnTimeSendsWhatIsDue | qnx/tools/udp_load/udp_talker.cpp:171-270 | if every group is on time and all sent, the total after n slots is packets * n / slots |
| Talker.SlotKeepsUp | qnx/tools/udp_load/udp_talker.cpp:222-244 | for every clock and every sending the slot is never behind the clock; after a group that took longer than its slot it is the clock's, and it stays exactly while there is time and less was sent than expected |
| Talker.GroupIsSent | qnx/tools/udp_load/udp_talker.cpp:185-214 | a group is at most the rest of what is expected, its share by its number, and 16 bits |
| Talker.CreditsAreDue | qnx/tools/udp_load/udp_talker.cpp:249-267 | when the slot changes after a window was sent, what is due for the slots after the window's last, or after the one at hand, is written off, at most the window; else nothing is |
| Talker.TotalIsAtMostDue | qnx/tools/udp_load/udp_talker.cpp:193-194 | for every clock and every sending, no more is sent than is due for the groups tried |
| Talker.DueRoundsDown | qnx/tools/udp_load/udp_talker.cpp:193-194 | what is due is packets * k / slots, rounded down |
| Talker.Attempt | qnx/tools/udp_load/udp_talker.cpp:184-270 | one group with its slot and credit arithmetic in 32 bits is one step of the specification |
| Talker.Run | qnx/tools/udp_load/udp_talker.cpp:152-294 | both loops in 32 bits do the steps of the specification, without underflow, up to the end of the time; what is reported as expected is at least what was due by the clock, lost slots included |
| Talker.Shares | qnx/tools/udp_load/udp_load.cpp:23-40 | with products of 32 bits, the shares add up to the packets exactly if threads * packets fits 32 bits, and come to the wrapped product over the threads; if it fits, none is empty and each is within one of packets / threads |
| PingPong.FairFinishes | qnx/tools/core_latency/corerw_benchmark.cpp:34-75 | under a fair schedule, what the thread whose turn it is can do gets done |
| PingPong.Two.RunKeepsInv | qnx/tools/core_latency/corerw_benchmark.cpp:43-72 | in any interleaving hand-offs alternate and the counts differ by at most one |
| PingPong.Two.TurnGoesOn | qnx/tools/core_latency/corerw_benchmark.cpp:43-72 | while work is left one thread can go on and the other changes nothing, if the pong thread makes as many hand-offs or one more: no deadlock |
| PingPong.Two.FinishesIff | qnx/tools/core_latency/corerw_benchmark.cpp:43-72 | for any two numbers of hand-offs, under a fair schedule the run ends exactly if they are equal or the pong thread makes one more |
| PingPong.RunEndsIffProductFits | qnx/tools/core_latency/corerw_benchmark.cpp:44-67 | it ends exactly if iterations * samples is below 2^32 |
| PingPong.Two.FlagsAtTheEnd | qnx/tools/core_latency/corerw_benchmark.cpp:43-72 | both flags are the number of hand-offs modulo 2 |
| PingPong.NextRunEndsIffEven | qnx/tools/core_latency/corerw_benchmark.cpp:19-24 | the next run without `init` ends exactly if that number was even |
| PingPong.One.RunKeepsInv | qnx/tools/core_latency/core_benchmark.cpp:52-62 | the flag tells whose turn it is, and the counts differ by at most one |
| PingPong.One.FinishesIff | qnx/tools/core_latency/core_benchmark.cpp:52-62 | for any two numbers of swaps, under a fair schedule the run ends exactly if they are equal or the ping thread makes one more |
| PingPong.One.FlagAtTheEnd | qnx/tools/core_latency/core_benchmark.cpp:52-62 | at the end the flag is as at first exactly if they are equal |
| PingPong.SwapRunEndsIffProductFits | qnx/tools/core_latency/core_benchmark.cpp:225-254 | the run ends, with the flag as at first, exactly if iterations * samples fits `size_t` |

## Left out

- Rcu.StepKeepsInv: takes fewer than 2^32 - 1 handles, so that no count wraps; `update(nullptr)`, which only returns false, and `~rcu` are not modelled. The copy of a handle is one step, since it reads only a handle that its thread owns.
- PidMapping.InsertAllIsCanonical: takes pairwise disjoint, non-empty lines whose end does not wrap around the address space; what any other line does is `PidMapping.StaysRightIff`.
- ShmemMap.Sweep: takes sorted lists, as inserting disjoint lines gives them; names of typed memory are not kept.
- InternSizes.RehashGrows: load factors are exact reals, not floats, and converted without regard to the range of `size_t`, beyond which the conversion is undefined in the source.
- StrIntern.RunCalls: a reference is a string's position in the order of interning; that the nodes of the lists do not move is taken from the allocator, which never frees.
- MonotonicResource.Resource.Allocate: the addresses that operator new returns are inputs, apart from all memory in use.
- ReadBuff.Reader.Fill: errors of `read` are not modelled, and tokens are copies, not views into the buffer.
- BpfUdp.Socket.Send: takes an MTU from 68 to 65535 and payloads up to 65527 bytes, which the source names as its limit. What a receiver does with overlapping fragments is the model's choice: the later one counts.
- Mixtures.FramesNeverMixIff: takes two datagrams that are both fragmented; a receiver does not reassemble one that comes whole.
- Json.TextRoundTrip: numbers are integers, as floating point values are written as quoted strings.
- JsonSession.OutputIsPrefix: takes fewer than 65536 registrations, so that no token comes back; calls that write through a handle after it was closed are undefined in the source and not made. Moving handles is not modelled.
- JsonWriter.Writer.WriteObject: errors of the stream and of opening files are not modelled.
- Options.BuildOptionMap: letters and digits are those of the C locale.
- Talker.Run: takes numbers of groups and slots for which no product leaves 32 bits; the error counter and the log are left out, and sleeping only lets time pass.
- PingPong.FairFinishes: the atomics are sequentially consistent; the acquire, release and relaxed orders of the source are not distinguished, nor are the assembler forms of compare-and-swap.
- The option and result printing, sockets, interfaces, thread pinning, clocks, typed-memory names, process lists and CPU identification call the operating system.
- Statistics, flag sets, string helpers and allocation counters would only add easy members.
