# The capture fast path of pcapy-ng, modelled and proved

pcapy-ng reads packets through libpcap and, on its fast path, classifies them in C before any
Python code sees them. This project models that fast path in Dafny, with the Python code that
decodes, generates and cross-checks what it produces, and proves what its design relies on.

| file | what it holds |
|---|---|
| `words.dfy`, `bitwise.dfy` | 8 to 64-bit words as bounded naturals with explicit wrap-around, byte layouts, bit operators defined one bit at a time and their algebra |
| `slot_table.dfy` | the theory of open addressing with linear probing, for any home-slot function |
| `slot_index.dfy` | the old and the current multiplicative slot index |
| `address_set.dfy`, `probe_analysis.dfy` | the address set of the capture path, and the probe-count study of it |
| `flow_key.dfy`, `flow_table.dfy`, `counting.dfy` | the 64-bit flow key, the lossy direct-mapped flow table, exact accounting |
| `headers.dfy`, `classifier.dfy`, `runs.dfy` | header location, the generic and the security profile, and what whole runs report |
| `records.dfy`, `delivery.dfy`, `buffer.dfy`, `batch.dfy`, `snapshot.dfy` | the record format and its decoders, callback delivery, buffer delivery, batches, counters read from another thread |
| `reference.dfy` | the exact Python reference, and how far the C path agrees with it |
| `frames.dfy`, `frame_classes.dfy`, `reference_frames.dfy` | frame builders, the class of every frame that can be written, and what the reference reads from it |
| `tls.dfy`, `generator.dfy` | the ClientHello builder against the server-name walker; checksums and ground truth of the capture generator |

## What is proved

- **Address set.** Building a set from packed bytes and searching it agrees with the mathematical
  set of the non-zero words, both loops terminate, and which slots are occupied does not depend on
  the order or repetition of the input. Every key is found by its first probe exactly when no two
  keys share a home slot; the current index achieves that on any /24 and, from 2^16 slots on, on any
  /16, while the old one turned a /24 into a linear scan (worst lookup 1 against 256 probes).
- **Flow heads.** After any run, the counter of a key is the length of its unbroken run in its slot,
  modulo 2^32. So no eviction and no counter wrap ever hides a flow head, and after any run the
  excess over exact accounting is at most the cutoff per eviction and per wrap. Keys are evicted
  exactly when two of them share a slot, and the table is exact on every run over a set of keys
  (counter wraps aside) exactly when no two of them do.
- **Flow key.** The finaliser is a bijection of the 64-bit words, so flows that agree in their
  addresses, or in their ports and protocol, never share a key, and every flow has exactly one
  colliding address pair for each choice of ports and protocol.
- **Classification.** The two header walks, written separately, find the same header. Both profiles
  equal a precedence specification, and the class depends on the packet and on the keys counted
  before it alone. For every frame that can be written, byte by byte, the class is stated by what was
  written and the arguments of the call. The admit mask only selects, and both delivery paths deliver
  the same packets, each with its own header, bytes and class id.
- **Delivery.** The filled buffer decodes to the admitted packets kept by greedy fit; bytes past
  `used` are untouched; every packet is accounted for. The batch index tiles the batch, a packet is
  lost exactly when it does not fit and growth is refused, and whatever is refused, reallocation
  copies at most twice the bytes delivered.
- **Against the reference.** On frames both parsers read alike, the C path matches the packets the
  Python reference matches, fills a buffer with the same bytes, and reports at least its flow heads.
- **Round trips.** Built frames parse back to what was written, in both parsers. The server-name walker
  returns the name a ClientHello was built with, the captured part of it when the packet is cut
  anywhere, and nothing for packets without one.

## Conventions

- A frame is the sequence of its captured bytes, so an index that verifies is a read below caplen.
- The host is little-endian, as the address-set comment assumes. Shifted fields that are combined
  with `|` never overlap, so combining them is written as an addition.
- A run is a fold over a finite sequence of packets. What libpcap, the allocator and the Python
  callback do is a parameter: the packets delivered, the allocations refused, the packets at which
  the callback raises.
- Methods that change state name a specification function or predicate over the packets seen so
  far; the theorems are about those functions. Random draws are a parameter too.
- Hypotheses the code needs and does not check: address lists of fewer than 2^31 words, because
  beyond that `n * 2 + 1` wraps and the table can be too small for the search to end; capture
  lengths below 2^32 - 5 on the buffer path, because `5 + cl` is computed in 32 bits; batches below
  2^32 bytes for slicing, because the index stores 32-bit offsets.

## Where code and documentation differ

The model follows the code. Each difference is stated as a theorem or named here.

- README.md:181 says later fragments are not matched as flow heads. The fragment field is never
  read (`Runs.FragmentFieldIgnored`); a fragment with offset 185 is reported
  (`Frames.LaterFragmentIsHead`). The rule holds on a set of packets exactly when none of its later
  fragments reaches the flow counter or the cutoff is 0 (`Runs.FragmentsSparedIffUncounted`).
- README.md:178-180 calls a shared key a negligible event. Exactly when flows share no key does no
  run hide a head (`Runs.HeadsCompleteIffKeysSeparate`); `FlowKey.KeysCollideIff` and
  `FlowKey.ExactlyOneCollider` say when they do, and `Frames.CollidingFrameHidesHead` builds, for any
  two addresses, two UDP frames that share a key and a run that hides a head.
- README.md:228 says VLAN tags are skipped automatically. The version nibble is tested before the
  tag, so a tag control word with top nibble 4 is taken for the IPv4 header, and no more than two
  tags are skipped. `Reference.WalkFindsPayloadIff` states, for every frame and number of tags,
  exactly when the payload is found; `Frames.BuildThenLocate` what is found instead in built frames.
- pcapobj.cc:985 promises a set of the listed addresses. Byte offsets are computed in 32 bits, so the
  words after the first 2^30 are never read. `AddressSet.EveryAddressReadIff` states when that makes
  no difference and `AddressSet.LateAddressUnread` gives a list for which it does.
- pcapobj.cc:1306-1307 says writing stops when the buffer is full. A later, smaller packet is still
  written (`Records.LaterSmallerRecordIsWritten`); `Records.WritingStopsIff` states when writing stops.
- pcapobj.cc:904 and :912 say a DPI packet needs PSH. The flag is not tested; any payload on a watched
  port counts (`Frames.BuiltTcpClass`), as the comment at :963 says.
- README.md:259 gives 59 as the default mask of the security profile; the default is 7 for both
  profiles (pcapobj.cc:1225). The mask is a parameter here.

## Model

| member | source | states |
|---|---|---|
| `Words.ToWordInvolutive` | benchmarks/probe_analysis.py:26-29 | the word the table hashes for an address determines the address: converting twice gives it back |
| `Words.LeBytesOf32` | pcapobj.cc:1326 | the four length bytes of a record read back as the length |
| `Words.AndMaskIsMod` | benchmarks/probe_analysis.py:32-35 | masking with one less than a power of two is the remainder modulo that power, for every word |
| `Words.WrapIsMod` | pcapobj.cc:1072-1077 | what a 32-bit or 64-bit counter holds is the true count modulo the size of its word |
| `SlotTable.PlaceKeepsSound` | pcapobj.cc:1020-1022 | writing a key where its search stopped keeps the no-hole invariant, adds exactly that key, and occupies exactly that slot |
| `SlotTable.AbsentAtHole` | pcapobj.cc:1031 | a search that reaches an empty slot has proved the key absent from the whole table |
| `SlotTable.StopDecidesMembership` | pcapobj.cc:1026-1033 | the slot where a search stops holds the key exactly when the key is in the set |
| `SlotTable.ProbeStep` | pcapobj.cc:1021 | each probe of an unsuccessful search gets one step closer to an empty slot, so the loop ends |
| `SlotTable.OccupiedCountsMembers` | pcapobj.cc:1017-1023 | the number of occupied slots is the number of distinct non-zero keys |
| `SlotTable.OccupiedTransfers` | pcapobj.cc:1017-1023 | a slot occupied in one sound table is occupied in every sound table of that size with the same keys |
| `SlotTable.LayoutIndependentOfOrder` | pcapobj.cc:1017-1023 | tables of one size with the same keys occupy the same slots, whatever the order and number of insertions |
| `SlotTable.ClusterAtHome` | pcapobj.cc:988-1002 | in a cluster, keys with pairwise distinct homes all lie at home |
| `SlotTable.FirstProbeIffHomesDistinct` | pcapobj.cc:988-1002 | every key is found by its first probe if and only if no two keys share a home slot |
| `SlotTable.SharedHomeIsLinearScan` | pcapobj.cc:990-997 | keys that all share one home fill the slots from there on: the table degenerates into a linear scan |
| `SlotIndex.GrowBitsFits` | pcapobj.cc:1009-1010 | below 2^30 entries the chosen table has more than twice as many slots as entries and no smaller size would do; from there on it has 2^31 slots |
| `SlotIndex.MixIsBijective` | pcapobj.cc:1003-1006 | the odd multiplier permutes the 32-bit words: no two words collide before the shift |
| `SlotIndex.HomesInRange` | pcapobj.cc:1003-1006 | both indexes stay below the number of slots |
| `SlotIndex.MaskFromShift` | pcapobj.cc:1029 | the mask the lookup rebuilds from the shift is the capacity minus one used by the build |
| `SlotIndex.MaskedStep` | pcapobj.cc:1021 | adding one and masking is the wrap-around successor slot |
| `SlotIndex.SlotsAreBalanced` | pcapobj.cc:1003-1006 | each of the 2^bits slots is home to exactly 2^(32-bits) of the 2^32 words |
| `SlotIndex.Slash24Spreads` | pcapobj.cc:995-1000 | from 8 bits on, the current index sends the 256 addresses of any /24 to 256 different slots |
| `SlotIndex.Slash16Spreads` | pcapobj.cc:990-1000 | from 16 bits on, the current index sends the 65536 addresses of any /16 to different slots |
| `SlotIndex.Slash24Collapses` | pcapobj.cc:990-996 | up to 24 bits, the original low-bits index sends a whole /24 to one slot |
| `AddressSet.IpSet.constructor` | pcapobj.cc:1011-1016 | a cleared table is a sound table of the empty set |
| `AddressSet.IpSet.Insert` | pcapobj.cc:1020-1022 | one word of the build loop: the set grows by exactly that address and stays sound |
| `AddressSet.IpSet.Fill` | pcapobj.cc:1017-1023 | the build loop leaves a sound table of exactly the non-zero words it reads |
| `AddressSet.IpSet.Build` | pcapobj.cc:1007-1025 | for every list of fewer than 2^31 words the built table is sound and holds exactly the non-zero words read; null only when allocation fails |
| `AddressSet.IpSet.Has` | pcapobj.cc:1026-1033 | membership of the mathematical set of addresses; nothing is in an absent set, and 0.0.0.0 is in none |
| `AddressSet.EveryAddressReadIff` | pcapobj.cc:1017-1018 | the words read are all listed addresses exactly when each word after the first 2^30 is zero or repeats one of them |
| `AddressSet.PackedAddresses` | README.md:187-199 | a set built from addresses packed in network order holds exactly those listed, except 0.0.0.0 |
| `AddressSet.LateAddressUnread` | pcapobj.cc:1017-1018 | an address behind 2^30 zero words is listed and not in the set |
| `AddressSet.BuildThenHas` | pcapobj.cc:1003-1033 | building and then searching finds an address exactly when it is non-zero and one of the words read; up to 2^30 words, one of the listed words |
| `AddressSet.SameAddressesSameSlots` | pcapobj.cc:1017-1023 | two sets of one size with the same addresses occupy the same slots, one per address |
| `AddressSet.BuildReordered` | pcapobj.cc:1007-1025 | reordering, repeating or zeroing entries of a list of fixed length leaves the occupied slots unchanged, one per distinct non-zero address |
| `AddressSet.Slash24FirstProbe` | pcapobj.cc:988-1002 | a set of addresses of one /24 finds each of them on the first probe |
| `AddressSet.Slash16FirstProbe` | pcapobj.cc:988-1002 | so does a set of 2^16 slots or more whose addresses lie in one /16 |
| `AddressSet.BuildSlash16` | pcapobj.cc:990-1000 | a list of 65536 words of one /16 builds a set that finds each of them on the first probe |
| `ProbeAnalysis.WorstAfterInsert` | benchmarks/probe_analysis.py:60-62 | the largest insertion cost stays the largest cost of any later lookup of a stored key, because keys never move |
| `ProbeAnalysis.Grow` | benchmarks/probe_analysis.py:43-48 | the table size is the one the C code chooses, with more than twice as many slots as addresses, up to 2^31 slots |
| `ProbeAnalysis.Walk` | benchmarks/probe_analysis.py:55-59 | a probing walk stops at the key or at the first empty slot, having counted one probe per slot looked at |
| `ProbeAnalysis.InsertWord` | benchmarks/probe_analysis.py:52-62 | one round of the build loop adds one key, keeps the table sound and the worst cost exact |
| `ProbeAnalysis.BuildTable` | benchmarks/probe_analysis.py:43-63 | under either index the table is sound, holds exactly the non-zero words, is less than half full below 2^30 addresses, and the reported worst insertion is the worst lookup of any member |
| `ProbeAnalysis.ProbeCounts` | benchmarks/probe_analysis.py:68-78 | each count is the number of probes the lookup of that key takes, hit or miss |
| `ProbeAnalysis.SortSorts` | benchmarks/probe_analysis.py:79 | sorting keeps the counts and puts them in ascending order |
| `Counting.SumAddsUp` | benchmarks/probe_analysis.py:79-86 | a sum is additive over concatenation and the element itself on one |
| `ProbeAnalysis.ProbeStats` | benchmarks/probe_analysis.py:66-86 | the statistics are the mean, the middle and the largest of the probe counts of the keys, and there are none without keys |
| `ProbeAnalysis.MedianOfTwo` | benchmarks/probe_analysis.py:82-83 | the median of two counts is the larger one |
| `ProbeAnalysis.MaxIsWorst` | benchmarks/probe_analysis.py:43-86 | looking up exactly the stored addresses, the largest count equals the worst insertion of the build |
| `ProbeAnalysis.StopIsDepth` | benchmarks/probe_analysis.py:66-79 | the number of probes is determined by table and key, and for a stored key it is the distance from its home plus one; the stop slot decides membership |
| `ProbeAnalysis.DistinctHomesWorst` | benchmarks/probe_analysis.py:38-40 | with pairwise distinct homes the worst lookup costs one probe |
| `ProbeAnalysis.SharedHomeWorst` | benchmarks/probe_analysis.py:32-35 | with one shared home the worst lookup costs as many probes as there are keys |
| `ProbeAnalysis.Slash24Comparison` | benchmarks/probe_analysis.py:43-63 | on any whole /24 the current index needs at most 1 probe and the original one up to 256 (255 for 0.0.0.0/24, whose first address is not stored) |
| `Bitwise.XorShiftInverts` | pcapobj.cc:1066-1068 | `a ^= a >> k` loses nothing on 64-bit words when 3k is at least 64: it has a two-sided inverse |
| `Bitwise.XorBit` | pcapobj.cc:1065-1068 | bit i of an exclusive or is set exactly when bit i differs |
| `FlowKey.KeyArithmetic` | pcapobj.cc:1057-1070 | the key is the 5-tuple packed, multiplied and finalised in 64-bit arithmetic, with every shift and multiplier written out |
| `FlowKey.GoldenInverts` | pcapobj.cc:1065 | multiplying the port word modulo 2^64 can be undone |
| `FlowKey.Mix1Inverts` | pcapobj.cc:1066 | the first finaliser multiplication has a two-sided inverse modulo 2^64 |
| `FlowKey.Mix2Inverts` | pcapobj.cc:1067 | the second finaliser multiplication has a two-sided inverse modulo 2^64 |
| `FlowKey.FinaliseIsBijective` | pcapobj.cc:1066-1068 | the finaliser is a permutation of the 64-bit words |
| `FlowKey.KeysCollideIff` | pcapobj.cc:1057-1070 | two flows share a key exactly when the differences of their address words and of their multiplied port words coincide |
| `FlowKey.SameAddressesSeparate` | pcapobj.cc:1049-1070 | different flows between the same two addresses never share a key |
| `FlowKey.SamePortsSeparate` | pcapobj.cc:1049-1070 | different flows with the same ports and protocol never share a key |
| `FlowKey.ExactlyOneCollider` | pcapobj.cc:1049-1056 | for every flow and every choice of ports and protocol, exactly one address pair shares its key |
| `FlowTab.CountIsStreak` | pcapobj.cc:1072-1077 | the count handed out for a key is the length of its current unbroken run in its slot, modulo 2^32, including key 0 |
| `FlowTab.SlotIsRemainder` | pcapobj.cc:1074 | two keys share a slot exactly when they agree modulo the number of slots |
| `FlowTab.SlotContents` | pcapobj.cc:1037-1077 | a used slot holds the last key mapped to it with that key's streak, an unused one is clear |
| `FlowTab.HeadIffShortStreak` | pcapobj.cc:1117 | a packet is a head exactly when its current streak, modulo 2^32, is below the cutoff |
| `FlowTab.NoHeadHidden` | pcapobj.cc:1049-1056 | a packet among the first n of its key is reported after any run, whatever was evicted or wrapped |
| `FlowTab.AtLeastExactHeads` | pcapobj.cc:1072-1077 | a run reports at least the sum over keys of min(n, occurrences) heads |
| `FlowTab.HeadsPerKey` | pcapobj.cc:1072-1077 | after any run a key has at most n heads per eviction of it and per wrap of its counter, plus those of the current cycle |
| `FlowTab.ExcessBounded` | benchmarks/README.md:88-95 | after any run the heads exceed exact accounting by at most n per eviction and per counter wrap |
| `FlowTab.NoWrapBelow` | pcapobj.cc:1076 | no counter wraps in a run in which no key has more than 2^32 packets, however long it is |
| `FlowTab.VictimStep` | pcapobj.cc:1075 | a key is evicted exactly when another key of its slot arrives while its streak is running |
| `FlowTab.EvictionsIffSlotsShared` | pcapobj.cc:1075 | keys are evicted exactly when two keys of the run share a slot |
| `FlowTab.ExactWhenSlotsUnshared` | benchmarks/README.md:88-95 | without shared slots and wraps the lossy table reports exactly the heads of exact accounting |
| `FlowTab.ExactIffSlotsUnshared` | benchmarks/README.md:88-95 | every run over a set of keys without wraps is exact if and only if no two of the keys share a slot |
| `FlowTab.SharedSlotOvercounts` | pcapobj.cc:1075 | two keys of one slot: n packets of the one, one of the other and one more of the first report a head too many |
| `FlowTab.FlowTable.constructor` | pcapobj.cc:1038-1048 | the cleared table is that of the empty run |
| `FlowTab.FlowTable.Seen` | pcapobj.cc:1072-1077 | returns the streak of the key before this packet, modulo 2^32, and leaves the table of the longer run |
| `Counting.FirstCopiesCounts` | benchmarks/pyequiv.py:109-128 | exact accounting reports min(n, occurrences) packets of each key |
| `Counting.OccIsMultiplicity` | benchmarks/pyequiv.py:109-128 | the occurrences counted for a key are its multiplicity |
| `Counting.ExactHeadTotal` | benchmarks/pyequiv.py:109-128 | exact accounting reports, in total, the sum over distinct keys of min(n, occurrences) |
| `Counting.CountsBoundLength` | benchmarks/README.md:88-95 | per-key bounds on heads and evictions add up to a bound on the totals |
| `Counting.RenamingKeepsFirstCopies` | pcapobj.cc:1057-1070 | counting by key instead of by 5-tuple never reports more heads, and as many when the 5-tuples have distinct keys |
| `Headers.LocatedIff` | pcapobj.cc:1081-1093 | an offset is found exactly when a header follows there after at most two skipped tags, and it is unique |
| `Headers.LocateIpv4` | pcapobj.cc:1081-1093 | returns that offset, or -1 exactly when there is none |
| `Classifier.ClassGiven` | pcapobj.cc:925-926 | the precedence specification of both profiles never leaves their class ranges |
| `Classifier.ContainsPort` | pcapobj.cc:975-980 | true exactly when one of the two ports is listed |
| `Classifier.MtClassify` | pcapobj.cc:928-974 | class DNS before bare SYN before payload on a watched port before noise; the header found is the one `locate_ipv4` finds; offsets and ports are set exactly for TCP and UDP with captured ports |
| `Classifier.ClassifyTransport` | pcapobj.cc:949-973 | the transport part of the same, from the located header on |
| `Classifier.AddressHit` | pcapobj.cc:1107-1108 | true exactly when source or destination is in the mathematical address set |
| `Classifier.CountFlow` | pcapobj.cc:1111-1119 | counts the 5-tuple of a TCP or UDP packet with captured ports once, and leaves the table alone otherwise |
| `Classifier.GenericAt` | pcapobj.cc:1107-1122 | an address hit wins and touches no flow; otherwise the flow is counted and its head reported |
| `Classifier.ClassifyGeneric` | pcapobj.cc:1101-1123 | the class is that of the precedence specification for the keys counted before, and those keys grow by this packet's key if it is counted |
| `Classifier.RefineNoise` | pcapobj.cc:1132-1141 | on IPv4 packets left as noise: address hit for any protocol first, then the head of a flow on a TLS port; flows are counted in no other case |
| `Classifier.ClassifyRefine` | pcapobj.cc:1126-1143 | the security profile equals the precedence specification and keeps the count history |
| `Classifier.ClassifyDispatch` | pcapobj.cc:1147-1154 | in both profiles the class depends only on the packet and the keys counted before it |
| `Runs.HeadClassIff` | pcapobj.cc:1095-1143 | a packet gets the head class exactly when it reaches the counter and its streak is short |
| `Runs.RunSnoc` | pcapobj.cc:1147-1154 | each packet of a run gets the class determined by the keys counted before it |
| `Runs.HeadTotal` | pcapobj.cc:1110-1120 | the packets a run reports as heads are the heads of the lossy table |
| `Runs.NoFlowHeadHidden` | README.md:178-180 | a counted packet among the first `cutoff` of its key is delivered as a head after any traffic |
| `Runs.FlowHeadsAgainstExact` | benchmarks/README.md:88-95 | with distinct keys a run reports at least the exact heads per 5-tuple, at most `cutoff` more per eviction and per wrap, and exactly those when no slot is shared and no counter wraps |
| `Runs.HeadsCompleteIffKeysSeparate` | README.md:178-180 | no run over a universe of packets hides the head of a flow if and only if its flows have distinct keys |
| `Runs.SharedKeyHidesHead` | pcapobj.cc:1049-1056 | two flows with one key: after `cutoff` packets of the one, the first packet of the other is not reported |
| `Runs.DroppedMeansInert` | tests/test_fast.py:589-635 | under mask 59 a packet is dropped exactly when it is not DNS, not a bare SYN, not payload on a watched port, not an address hit and not a TLS flow head |
| `Runs.AdmitsIsBit` | pcapobj.cc:1177 | a class is admitted exactly when its bit of the mask is set, for negative masks too |
| `Runs.AddressHitsLeaveNoTrace` | pcapobj.cc:1108-1109 | removing an address hit from a run changes the class of no other packet |
| `Runs.FragmentFieldIgnored` | pcapobj.cc:1107-1120 | changing the fragment field changes neither the class nor what is counted |
| `Runs.FragmentsSparedIffUncounted` | README.md:181 | no run over a set of packets reports a later fragment as a head if and only if none of them reaches the counter, or the cutoff is 0 |
| `Delivery.Tally` | pcapobj.cc:1176-1178 | counters after a packet are those of the longer run: its class, and admitted or dropped by its mask bit |
| `Delivery.Engine.constructor` | pcapobj.cc:1253-1264 | the classifier state of a run that has seen nothing |
| `Delivery.Engine.Classify` | pcapobj.cc:1175 | each packet extends the classes of the run as the run specification says |
| `Delivery.BuildSet` | pcapobj.cc:1262 | the set holds exactly the addresses read, also when it is absent because fewer than four bytes were given; it is empty when its allocation fails |
| `Delivery.BuildFlowTable` | pcapobj.cc:1263-1264 | there is a flow table exactly when the cutoff is positive and its allocation succeeds, and it starts empty |
| `Delivery.SetUp` | pcapobj.cc:1250-1264 | a run starts from its arguments and the outcome of its allocations, with nothing counted |
| `Delivery.WatchesListed` | pcapobj.cc:1262 | a run watches exactly the listed addresses except 0.0.0.0, if its set could be allocated |
| `Delivery.HeadIffBelowArgument` | pcapobj.cc:1263-1264 | a packet is a flow head exactly when a table could be allocated, it is counted, and its streak modulo 2^32 is below the cutoff asked for |
| `Delivery.HeadsForArguments` | pcapobj.cc:1263-1264 | a run reports no heads without a cutoff or table; with distinct keys at least min(cutoff asked for, occurrences) per flow, and exactly that without shared slots and wraps |
| `Delivery.FilteredContext.constructor` | pcapobj.cc:1265-1266 | the counters start at zero and no callback has happened |
| `Delivery.FilteredContext.Deliver` | pcapobj.cc:1176-1188 | the callback gets exactly the header and bytes of the admitted packet with its public class id; counters and calls are those of the longer run |
| `Delivery.FilteredContext.FilteredCallBack` | pcapobj.cc:1171-1194 | one packet keeps calls and counters in step with the packets seen; the loop is stopped exactly when an admitted packet's callback raises |
| `Delivery.FilteredContext.Loop` | pcapobj.cc:1269 | the packets read are all of them without a raise, or those up to the first raising callback |
| `Delivery.LoopFiltered` | pcapobj.cc:1250-1287 | one call per admitted packet, in order up to the first raise, with its own header and bytes and its class index plus 100 in the security profile; counters of admitted, dropped and each class; head counter by the cutoff asked for; the result is the counters of the profile, and none exactly after a raise |
| `Delivery.CallsCarrySelection` | pcapobj.cc:1176-1188 | the calls carry exactly the packets the mask selects |
| `Delivery.CallsAt` | pcapobj.cc:1179-1188 | call k is for the k-th packet whose class the mask admits: its header, its bytes, its class index plus 100 in the security profile |
| `Delivery.SelectAt` | pcapobj.cc:1327-1328 | record k is the k-th packet whose class the mask admits, with its class index plus 100 in the security profile |
| `Delivery.MaskOnlySelects` | pcapobj.cc:1147-1154 | what a mask delivers is the full delivery filtered by class; the mask changes no class |
| `Delivery.AdmittedCountIsLength` | pcapobj.cc:1177-1178 | the admitted counter is the number of delivered packets |
| `Delivery.ClassCountsAddUp` | pcapobj.cc:1176 | the class counts of a run add up to its packets |
| `Records.RecordAt` | examples/05_shared_memory_ring.py:38-47 | record i lies right behind the records before it: four length bytes, least significant first, the class byte, the packet |
| `Records.WalkDecodes` | tests/test_fast.py:272-281 | decoding a buffer that starts with encoded records gives the records back, in order, and ends where they end |
| `Records.Decode` | tests/test_fast.py:272-281 | the decoder returns what the length walk defines, and fails exactly when an index is out of range |
| `Records.SlotOffsets` | examples/05_shared_memory_ring.py:38-47 | the offsets are exactly the record boundaries |
| `Records.Consume` | examples/05_shared_memory_ring.py:21-35 | a worker's tally is the class counts of exactly the records between its boundaries |
| `Records.SplitOverWorkers` | examples/05_shared_memory_ring.py:64-73 | the workers together tally every record exactly once, for any number of workers |
| `Records.KeptFits` | pcapobj.cc:1324 | the records kept by greedy fit never exceed the buffer |
| `Records.KeptSnoc` | pcapobj.cc:1324 | each record is kept exactly when it fits behind those kept before it |
| `Records.KeptAll` | pcapobj.cc:1324 | everything is kept exactly when everything fits |
| `Records.WritingStopsIff` | pcapobj.cc:1306-1307 | writing stops for good after m records exactly when none of the later ones fits in the room they leave |
| `Records.LaterSmallerRecordIsWritten` | pcapobj.cc:1324 | a packet that overflows does not stop a smaller later one from being written |
| `Records.CopyInto` | pcapobj.cc:1328 | a copy changes exactly its range of the buffer |
| `Buffer.BufferContext.constructor` | pcapobj.cc:1362-1375 | nothing is stored and every counter is zero |
| `Buffer.BufferContext.Append` | pcapobj.cc:1325-1328 | exactly one record is spliced in at `used`; every other byte keeps its value |
| `Buffer.BufferContext.Place` | pcapobj.cc:1322-1330 | an admitted packet is written if it fits and counted as overflow otherwise, in step with greedy fit |
| `Buffer.BufferContext.Store` | pcapobj.cc:1320-1330 | contents and counters are those of the longer run |
| `Buffer.BufferContext.BufferCallBack` | pcapobj.cc:1315-1331 | one packet keeps buffer and counters in step with the packets seen |
| `Buffer.BufferContext.Loop` | pcapobj.cc:1378 | so does a whole capture |
| `Buffer.RunIntoBuffer` | pcapobj.cc:1362-1378 | the run leaves the encoding of the records kept by greedy fit, everything else untouched, and the counters of the run |
| `Buffer.AdmittedByArguments` | pcapobj.cc:1373-1374 | the admitted records are the packets at the admitted positions with their class ids, and the head counter follows the cutoff asked for |
| `Buffer.LoopToBuffer` | pcapobj.cc:1362-1390 | after any run the buffer starts with the encoding of the records kept by greedy fit among the packets at the admitted positions, with their class ids; the rest is untouched; written, overflow, dropped and class counters are exact; the head counter follows the cutoff asked for |
| `Buffer.EveryPacketAccounted` | pcapobj.cc:1320-1330 | written, dropped and overflow add up to the packets, and so do the class counts |
| `Buffer.BufferHoldsCallbackSequence` | pcapobj.cc:1302-1307 | with room for everything, decoding the buffer gives exactly the sequence callback delivery would have made |
| `Buffer.FillThenDecode` | tests/test_fast.py:272-281 | filling a buffer and decoding it by the returned count gives the admitted packets kept by greedy fit and ends at `used`; with room for all, item k is the class id and the bytes of the k-th admitted packet |
| `Batch.IndexAt` | pcapobj.cc:1411-1413 | the index record of a packet points behind the packets before it, and its bytes lie there |
| `Batch.SlicingRecovers` | README.md:269-275 | slicing by offset and length returns each packet with its time stamp, in order |
| `Batch.PackedAt` | README.md:269-275 | reading the packed index as 16-byte records of four words gives every record back |
| `Batch.ConsumerRecovers` | README.md:269-275 | reading a record of the packed index and slicing by it gives the time stamp and bytes of that packet |
| `Batch.IndexTiles` | pcapobj.cc:1411-1413 | the index records tile the bytes from 0 to `used` without gap or overlap |
| `Batch.Resize` | pcapobj.cc:1403 | growing a block keeps its contents at its start |
| `Batch.BatchContext.constructor` | pcapobj.cc:1425-1428 | an empty batch with the initial capacity |
| `Batch.BatchContext.Reserve` | pcapobj.cc:1401-1404 | growth succeeds exactly when it is granted or not needed; contents survive; the capacity is at most max(65536, twice the bytes seen), pays for everything copied so far, and is unchanged by a refusal |
| `Batch.FirstGrowth` | pcapobj.cc:1401-1404 | the capacity a first packet leaves: 65536 if it fits or growth is refused, else the larger of 131072 and 4096 more than needed |
| `Batch.BatchContext.ReserveMeta` | pcapobj.cc:1405-1409 | the index grows exactly when it is full and the allocation is granted, keeping its records |
| `Batch.BatchContext.Put` | pcapobj.cc:1410-1413 | bytes and index are those of the batch with this packet appended |
| `Batch.BatchContext.BatchCallBack` | pcapobj.cc:1396-1414 | a packet is stored unless an allocation it needs is refused, and then only that packet is lost; the invariant is kept either way |
| `Batch.NothingLostIff` | pcapobj.cc:1401-1403 | nothing is lost exactly when every packet whose growth is refused fits in the room there is |
| `Batch.NextBatch` | pcapobj.cc:1416-1448 | bytes and packed index are those of the packets that fit or were granted growth, in order; the capacity is at most max(65536, twice the returned bytes) and at most twice the returned bytes were copied, whatever was refused |
| `Snapshot.EveryMomentGood` | pcapobj.cc:1172-1179 | between any two single-counter updates the counters are those of a sequential count modulo 2^64, with at most the last outcome missing |
| `Snapshot.IdleIsTallied` | pcapobj.cc:1172-1179 | between packets the counters are those the callback leaves |
| `Snapshot.TwoStepsPerPacket` | pcapobj.cc:1176-1178 | the updates of one callback are two steps: the class first, then the outcome by its mask bit |
| `Snapshot.OutcomeLagsByAtMostOne` | pcapobj.cc:1172-1179 | before 2^64 packets, class sum minus admitted minus dropped is 1 inside a packet and 0 between packets |
| `Snapshot.CountersNeverDecrease` | pcapobj.cc:1289-1291 | before 2^64 packets each counter is monotone over the run |
| `Snapshot.SnapshotsNeverDecrease` | pcapobj.cc:1292-1300 | successive snapshots are pointwise non-decreasing, in whatever order each fetched its counters |
| `Snapshot.ReadOrderDecides` | pcapobj.cc:1296-1299 | fetching outcomes before classes never shows more outcomes than packets; fetching classes first leaves at most one packet without outcome |
| `Reference.ParseIpv4` | benchmarks/pyequiv.py:29-62 | returns the fields of a complete IPv4 header behind any number of tags, ports (0, 0) when not captured, and nothing in every other case |
| `Reference.WalksAgree` | pcapobj.cc:934-948 | with at most two tags the version-nibble walk finds the ethertype walk's payload when no control word starts with nibble 4, and stops early when one does |
| `Reference.WalkFindsPayloadIff` | README.md:228 | behind any number of tags, the version-nibble walk finds the ethertype walk's payload exactly when there are at most two, no control word starts with nibble 4 and the payload does |
| `Reference.NibbleWalk` | pcapobj.cc:1081-1093 | the same at any link-layer offset, for tag positions alone |
| `Reference.ParsersAgree` | benchmarks/pyequiv.py:29-62 | on regular frames both parsers accept the same packets and read the same addresses, protocol and ports |
| `ReferenceFrames.BuildThenParseReference` | benchmarks/pyequiv.py:29-62 | from every written frame, behind any number of tags, the reference reads protocol and addresses, ports only of TCP and UDP with four segment bytes and 0 otherwise, and nothing from a short or incomplete header |
| `ReferenceFrames.NoPortsRead` | benchmarks/pyequiv.py:57-62 | frames of other protocols, and TCP or UDP frames cut before their ports, have ports 0 |
| `ReferenceFrames.OtherTypeNotParsed` | benchmarks/pyequiv.py:43-44 | a frame whose ethertype behind its tags is not IPv4 is not parsed |
| `ReferenceFrames.BuiltPayload` | benchmarks/pyequiv.py:36-42 | the ethertype walk passes any number of built tags |
| `ReferenceFrames.BuiltIsRegular` | tests/_pcapgen.py:15-56 | every built frame with up to two tags, control words not starting with nibble 4, and its ports there is one on which the parsers are compared |
| `ReferenceFrames.EitherTagSkipped` | pcapobj.cc:942 | a tag of either protocol identifier, 0x8100 or 0x88a8, is skipped by both parsers |
| `Reference.AddrSetMatch` | benchmarks/pyequiv.py:93-106 | counts the packets one of whose addresses is in the set |
| `Reference.FlowHeads` | benchmarks/pyequiv.py:109-128 | the dictionary admits the first `cutoff` packets of every 5-tuple: the sum of min(cutoff, occurrences) |
| `Reference.SetMatchesAgree` | benchmarks/pyequiv.py:93-106 | on regular frames the C path reports SET_MATCH for exactly the packets the reference matches |
| `Reference.FlowHeadsAgainstReference` | benchmarks/pyequiv.py:109-128 | on regular frames with distinct keys the C path reports at least the reference's heads, at most `cutoff` more per eviction and per wrap, and exactly as many when no slot is shared and no counter wraps |
| `Reference.PackInto` | benchmarks/pyequiv.py:183-184 | packing head and bytes splices in exactly one record |
| `Reference.BufferAddrSet` | benchmarks/pyequiv.py:164-188 | the buffer starts with the matching packets kept by greedy fit as class-2 records, the rest is untouched, and the counts are theirs |
| `Reference.AdmittedAreMatches` | benchmarks/pyequiv.py:164-188 | on regular frames the records admitted under mask 4 are the records of the matching packets |
| `Reference.BuffersAgree` | benchmarks/pyequiv.py:131-135 | on regular frames and the same addresses, the C path and the reference fill equal buffers with the same bytes |
| `Frames.EthVlan` | tests/_pcapgen.py:15-21 | the loop prints the addresses, one tag per round, and the inner ethertype |
| `Frames.BuildThenLocate` | tests/_pcapgen.py:15-40 | the located offset of a built frame with any number of tags: where the header was put for up to two tags, none beyond, and the first tag when control words start with nibble 4 |
| `Frames.BuildThenParse` | tests/_pcapgen.py:15-56 | for all addresses, ports, protocols, options, payloads and up to two tags the parser recovers the header offset, the 5-tuple and the segment that were written |
| `Frames.TcpIsPorted` | tests/_pcapgen.py:54-56 | the printed TCP header carries ports, data offset, flags and payload where the parser looks for them |
| `Frames.UdpIsPorted` | tests/_pcapgen.py:50-51 | the printed UDP header carries its ports where the parser looks for them |
| `Frames.BuiltTcpClass` | tests/_pcapgen.py:54-56 | a built TCP frame is DNS, bare SYN or watched payload exactly when its ports, flags and data offset say so; PSH plays no part |
| `FrameClasses.BuiltUdpClass` | tests/_pcapgen.py:50-51 | a built UDP frame is DNS exactly when a port is the DNS port, a TLS candidate by its ports, and never a SYN or watched payload |
| `FrameClasses.LinkThenLocate` | pcapobj.cc:934-948 | behind a link header of the configured length, whatever it holds, the IPv4 header is found at once |
| `FrameClasses.WrittenReadsBack` | pcapobj.cc:949-973 | addresses, ports, flags and payload of every written frame are read where they were written, and no ports behind a header shorter than 20 bytes |
| `FrameClasses.SecurityClassOfFrame` | pcapobj.cc:928-974 | the class of every written frame in the security profile, 0 to 5, in order of precedence, by its bytes, the watched addresses and its streak; and what it adds to the counted keys |
| `FrameClasses.GenericClassOfFrame` | pcapobj.cc:1101-1123 | the same for the classes 0 to 2 of the generic profile |
| `FrameClasses.ClassWithoutIpv4` | pcapobj.cc:939-945 | a frame without an IPv4 header is class 2 of the security profile or 0 of the generic one, and not counted |
| `FrameClasses.ListedAddressMatches` | README.md:187-199 | from the packed list to the class: a frame is SET_MATCH exactly when one of its addresses is listed and not 0.0.0.0 |
| `FrameClasses.SecurityClassOfSegment` | pcapobj.cc:1126-1143 | the security class of Ethernet frames with up to two tags by their transport segment |
| `FrameClasses.SecurityClassOfUdp` | pcapobj.cc:925-926 | the security class of every built UDP frame: 0, 3, 4 or 2 |
| `FrameClasses.SecurityClassOfTcp` | pcapobj.cc:925-926 | the security class of every built TCP frame: 0, 5, 1, 3, 4 or 2 |
| `FrameClasses.FirstTlsFrameIsHead` | pcapobj.cc:1137-1139 | the first frame of a flow on a TLS port is class 4 after any capture |
| `Frames.CollidingFrameHidesHead` | README.md:178-180 | for any two addresses, two UDP frames of different flows that share a key: after `cutoff` copies of the one, the first packet of the other is not reported |
| `Frames.LaterFragmentIsHead` | README.md:181 | a UDP fragment with offset 185 is reported as a flow head |
| `Tls.SkipHello` | examples/04_flow_heads.py:30-35 | the cursor steps reach the extension block, or fail exactly where an index error would be raised |
| `Tls.WalkExtensions` | examples/04_flow_heads.py:36-43 | the loop over the extensions terminates and finds the first server_name entry, if any |
| `Tls.TlsServerName` | examples/04_flow_heads.py:21-45 | returns the name the walk defines, and None on every index error |
| `Tls.WalkSkips` | examples/04_flow_heads.py:37-43 | any well-formed list of other extensions is skipped |
| `Tls.NameFound` | examples/04_flow_heads.py:37-42 | the server name is found behind any list of other extensions, whatever follows it |
| `Tls.NoNameNotFound` | examples/04_flow_heads.py:37-45 | a block without server_name yields no name |
| `Tls.NoNameWithoutHello` | examples/04_flow_heads.py:27-31 | no name for a packet that is not TCP, or whose payload is shorter than 43 bytes or does not start a ClientHello record |
| `Tls.PlainTcpHasNoName` | examples/04_flow_heads.py:29-31 | no name for a TCP packet with a plain header and any other payload |
| `Tls.HelloWithoutName` | examples/04_flow_heads.py:36-45 | no name from a ClientHello without a server_name extension |
| `Tls.PacketWithoutName` | examples/04_flow_heads.py:21-45 | no name from a built packet with such a ClientHello |
| `Tls.CutNameFound` | examples/04_flow_heads.py:37-42 | walking captured bytes that end anywhere finds the captured part of the name, and nothing if they end before it |
| `Tls.CutServerName` | examples/04_flow_heads.py:21-45 | for a built packet cut after any number of bytes, the captured part of its name, and None when the capture does not reach it |
| `Tls.HelloBytes` | tests/_pcapgen.py:67-77 | the ClientHello of a name, byte by byte |
| `Tls.BlockReached` | tests/_pcapgen.py:67-77 | the fixed part of any ClientHello leads the walker to its extension block |
| `Tls.HelloCarriesName` | tests/_pcapgen.py:67-77 | a built ClientHello carries its name wherever it lies in the captured bytes |
| `Tls.AsciiRoundTrip` | examples/04_flow_heads.py:42 | decoding the encoding of an ASCII name gives the name |
| `Tls.ServerNameRoundTrip` | tests/_pcapgen.py:67-87 | the walker returns the name the TLS packet was built with, for every ASCII name that fits the length fields |
| `Generator.Checksum` | benchmarks/gen_pcap.py:42-48 | the complement of the one's complement sum: determined modulo 65535, and 65535 only for all-zero data |
| `Generator.CarryStep` | benchmarks/gen_pcap.py:46-47 | folding the carry preserves the value modulo 65535, never turns non-zero into zero, and shrinks the sum |
| `Generator.CarriedIsRemainder` | benchmarks/gen_pcap.py:46-48 | end-around carry keeps the value modulo 65535 and tells zero from everything else |
| `Generator.OddByteIsHigh` | benchmarks/gen_pcap.py:43-44 | the last of an odd number of bytes is summed as a high byte |
| `Generator.ComplementCompletes` | benchmarks/gen_pcap.py:42-48 | adding the complement of a carried sum completes it to all ones |
| `Generator.CompletedHeaderChecks` | benchmarks/gen_pcap.py:42-63 | whatever a header holds, storing its checksum in a zeroed, aligned field makes the checksum of the completed header 0 |
| `Generator.Ipv4` | benchmarks/gen_pcap.py:58-63 | every field of the printed header and the payload are in place, and its checksum is 0 |
| `Generator.BuildFlows` | benchmarks/gen_pcap.py:122-157 | the packet counts add up to exactly the requested number; all but the last are as drawn, and none is empty |
| `Generator.HeadCounts` | benchmarks/gen_pcap.py:228-234 | for every cutoff the online total is the sum over flows of min(cutoff, packets) |
| `Generator.SetForFraction` | benchmarks/gen_pcap.py:241-250 | the chosen addresses are the shortest prefix of the ranking that covers the wanted packets, or all of it |

## Left out

- Argument parsing, reference counts, the GIL, type objects, live capture, filters, dumping and sending packets: glue around libpcap and CPython.
- Errors `pcap_loop` itself returns, and its packet limit: a run is whatever packets it delivers.
- Links other than Ethernet in the comparison with the Python reference, which reads the ethertype at byte 12 whatever its offset argument.
- Port lists given as Python sequences (`seq_to_ports`): the lists are parameters.
- `filtered_stats` before the first run reads counters nobody has initialised; the model starts at the reset.
- ProbeAnalysis.ProbeStats: leaves out the 99th percentile, whose index is a floating-point product.
- The sequential and random address lists of the probe study, and the 2^-64 estimate for shared keys: statistics over what is modelled here.
- `classify_all`, `classify_none` and `buffer_all` of the reference, which classify nothing, and `buffer_flow_heads`, which buffers the heads of exact accounting modelled in `Reference.FlowHeads`.
- Random choices, payload contents and pcap file writing of the capture generator; IPv6, cooked-link, DNS and ICMP builders of the test helper.
- The Windows interface scanner, benchmark timing and the live examples.
- AddressSet.IpSet.Build: assumes fewer than 2^31 words; beyond that `n * 2 + 1` wraps and the search need not end.
- AddressSet.BuildThenHas: the same bound.
- AddressSet.BuildReordered: the same bound.
- ProbeAnalysis.BuildTable: assumes fewer than 2^31 different addresses; more would fill the table, and a search for any other address would not end.
- Buffer.LoopToBuffer: assumes capture lengths below 2^32 - 5, because `5 + cl` is computed in 32 bits, and the address bound above.
- Batch.BatchContext.ReserveMeta: does not follow an index of 2^31 records or more, whose doubled size wraps in 32 bits; `next_batch` never grows the index, since it starts with room for every packet asked for.
- Batch.NextBatch: relies on `pcap_dispatch` delivering at most the packets asked for, and counts the bytes an allocator copies as those of the old block.
- Snapshot.CountersNeverDecrease: holds before 2^64 packets; at the wrap a counter restarts at 0, as Snapshot.EveryMomentGood says.
- FrameClasses.SecurityClassOfFrame: the claimed length and the bytes behind the first 20 must fit the 16-bit total length the builder writes; the classifiers never read that field.
- FrameClasses.GenericClassOfFrame: the same bound.
- Frames.BuildThenParse: the total length must fit its 16-bit field, as `struct.pack` demands, and the builder's override of that length is not modelled.
- Tls.TlsServerName: a name with bytes above 127 decodes to replacement characters one for one; Python code points beyond ASCII are not modelled further.
