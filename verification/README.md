# Verified models of libevent's buffers, resolver and rate limiter, and of the System and Ssu libraries

A Dafny model of the parts of the repository that keep a simple promise by complicated means, with proofs that
they keep it. `dafny verify dfyconfig.toml` checks everything.

| modules | part of the repository | what is proved |
|---|---|---|
| `Chunks`, `EvChain`, `EvBuffer`, `EvBufferSearch`, `EvBufferRun` | event/buffer.c | a list of chunks with a cached `last_with_datap` always reads as one flat byte string |
| `DnsName`, `DnsLabels` | event/evdns.c | compressed names read back as they were written |
| `DnsServers`, `DnsQueues`, `DnsRing`, `DnsRequests` | event/evdns.c | the inflight and waiting queues and the choice of nameservers, over every run |
| `Getaddrinfo` | event/evdns.c | the A/AAAA race: one answer, one free, in every interleaving |
| `TokenBucket`, `RateLimit` | event/bufferevent_ratelim.c, event/bufferevent.c | the token bucket's bound, and that no suspended side is forgotten |
| `Sha1Spec`, `Sha1Engine` | System/SHA1Engine.cpp | the streaming engine is SHA-1 of the whole message |
| `TimerHeap`, `TimerQueue`, `UniqueId` | System/Timer.cpp, System/UniqueID.h | which timers fire how often; ids are never handed out twice |
| `EventTagging`, `Serialize`, `SsuUtils`, `SsuFields` | event/event_tagging.c, System/Serialize.cpp, Ssu/SsuUtils.h | encoders and decoders are inverse, on whole streams |

`Octets` and `Arith` hold bytes, options and division facts.

## How the code is modelled

Structs that the code updates in place are classes with the same fields, loops are loops, and each method is proved
against a function or predicate on values. Linked lists are sequences; a pointer to a chain is its index, and a pointer
to a slot is the index of the chain in it, so `last_with_datap` is an index that can be wrong. For the circular
request lists, `DnsRing` shows that the operations on the links do to the order of members what the sequences do.
What the outside decides is a parameter or an arbitrary choice: the clock, what a callback does, whether sendto
succeeds, when a reply comes, which random id is drawn. Integers are unbounded except where width matters: 64-bit sizes
and 32-bit ticks in the token bucket, the words of SHA-1, 16 bits of a name pointer, and the wire formats are explicit.

Where the C code would read or write outside a buffer, or fail an assertion, the model has an outcome that says so,
and the contracts say exactly when it comes about.

## What the proofs found

- evbuffer_add leaves `last_with_datap` behind when empty chains follow it and the data go into the last one. The exact
  condition is `EvBuffer.AddSafe`; `EvBufferRun.AddLeavesPointerBehind` builds such a buffer. It always holds if no
  chain is empty (or the list has one chain), and every operation in `EvBufferRun.Run` keeps that.
- evbuffer_remove_buffer goes wrong for the same reason when the moved chains are not one run of data; the exact
  condition is `EvBuffer.EvBuffer.CanMove`, and `EvBufferRun.MoveStopsAtGap` is a run that fails it. Its own assertion
  never fails.
- dnsname_to_labels writes its last zero without checking for room; `DnsLabels.WrotePastIff` says for which names,
  tables and buffers it goes past the end, and `DnsLabels.WritesBehindBuffer` is one. An empty label inside a name ends
  it for the reader; `DnsLabels.SameNameIff` says which names come back, and `DnsLabels.LosesBehindEmptyLabel` is one that
  does not.
- name_parse copies a label without checking that the packet holds all of it. `DnsName.NameParse` says exactly when,
  and `DnsName.ReadsBehindPacket` shows a packet.
- With no nameserver configured, a request that ends while another one waits, or a resume while one waits, sends to a
  null server: the outcome `NullServer` of `DnsRequests.EvdnsBase.Finish`, `Pump` and `Resume`, which comes about exactly
  then. `DnsRequests.CancelWithoutServer` is a run.
- evdns_base_clear_nameservers_and_suspend cancels the probes while it frees the nameservers, and a cancelled probe can
  make room for a waiting request: the outcome `FreedServer` of `DnsRequests.EvdnsBase.Suspend`, with its condition.
  `DnsRequests.SuspendWithProbes` is a run.
- A SERVFAIL answer ends the request, though its log message says the request will be allowed to time out
  (event/evdns.c:886-897 and 922-924).
- A user who cancels evdns_getaddrinfo can be told of a failure instead; `Getaddrinfo.HeardCancel` says when.
- The token bucket's division is right for limits up to the maximum; a bucket that a refund lifted above it is not brought
  back down (`TokenBucket.RefilledExact`), and if the sum overflows it is exhausted by an update that suspends nothing
  (`TokenBucket.RefilledSign`, `RateLimit.RefundLosesWakeup`).
- Timer::process reads the front of an empty vector when every timer has fired for the last time or was cancelled.
  `TimerQueue.TimerSet.Process` has the exact condition on the timers before the call and the callbacks that ran,
  and `TimerQueue.LastFireUnsafe` is a run.
- evtag_unmarshal takes a payload length from 2^31 to 2^32 - 2 for a success of negative length, if the buffer holds that
  much (`EventTagging.TakeBlob`, `EventTagging.NegativeLength`).
- A tag of more than five continuation bytes is looked for behind the five bytes pulled up (`EventTagging.DecodeTag`,
  `EventTagging.TagRunsOn`).
- A reader that reads on at the end of its text looks past the buffer if payload and header are whole groups of three
  (`Serialize.PastIff`, `Serialize.ReadsBehindTwoBytes`).
- The comment at event/event_tagging.c:83 shows a tag with its most significant part first; the code, which the model
  follows, writes the least significant first.

## Model

| member | source | states |
|---|---|---|
| `EvChain.ChainNew` | event/buffer.c:154-181 | a new chain is empty and has at least the room asked for; requests up to 976 bytes all get the least size |
| `EvChain.Append` | event/buffer.c:1558-1579 | data copied behind a chain's data become its end; its other bytes and bounds stay |
| `EvChain.Align` | event/buffer.c:1694-1706 | realigning moves the data to the start of the chain without changing them |
| `EvChain.TrimFront` | event/buffer.c:1003-1007 | advancing `misalign` drops bytes from the front |
| `EvChain.PushFront` | event/buffer.c:1647-1666 | data copied before a chain's data become its beginning |
| `EvBuffer.EvBuffer.AllEmpty` | event/buffer.c:240-248 | true exactly if no chain from there on holds data |
| `EvBuffer.EvBuffer.FindVictim` | event/buffer.c:293-296 | the scan stops at the first empty chain from `*last_with_datap` on |
| `EvBuffer.EvBuffer.ChainInsert` | event/buffer.c:282-311 | which chains the new one replaces, where `last_with_datap` goes, and that its assertion fails exactly when data follow an empty chain |
| `EvBuffer.EvBuffer.AddToLast` | event/buffer.c:1558-1609 | in place, realigned or in a second chain: the effect on chunks and pointer is the abstract one |
| `EvBuffer.EvBuffer.Add` | event/buffer.c:1533-1616 | appends to the flat contents, with chunks, pointer and remaining space as `AddView` gives them; `last_with_datap` is right afterwards if and only if `AddSafe` held before; on lists without empty chains it always is; a frozen end refuses and changes nothing |
| `EvBuffer.AddViewFlat` | event/buffer.c:1533-1616 | the contents grow by the data wherever `last_with_datap` stood |
| `EvBuffer.AddViewKeeps` | event/buffer.c:1547-1609 | `AddSafe`, a condition on chunks, pointer and free space, is necessary and sufficient for evbuffer_add to keep `last_with_datap` right |
| `EvBuffer.AddViewGap` | event/buffer.c:282-311 | an empty chain between `last_with_datap` and data is never repaired by adding |
| `EvBuffer.AddViewTight` | event/buffer.c:1533-1616 | without empty chains adding is always safe and leaves none |
| `EvBuffer.EvBuffer.Prepend` | event/buffer.c:1619-1691 | prepends to the flat contents and keeps the invariant; a frozen start refuses |
| `EvBuffer.EvBuffer.PrependToFirst` | event/buffer.c:1640-1683 | all, some or none of the data fit before the first chain's data: the contents are data ++ old in each case |
| `EvBuffer.EvBuffer.DrainPoint` | event/buffer.c:982-1001 | the loop stops in the chain where the drained bytes end, with `last_with_datap` reset if its chain goes |
| `EvBuffer.EvBuffer.Drain` | event/buffer.c:950-1018 | drops min(len, total) bytes from the front and keeps the invariant; a frozen start refuses unless empty |
| `EvBuffer.EvBuffer.CopyOut` | event/buffer.c:1034-1078 | the first min(len, total) bytes, nothing changed |
| `EvBuffer.EvBuffer.Remove` | event/buffer.c:1020-1032 | returns those bytes and drops them |
| `EvBuffer.EvBuffer.AddBuffer` | event/buffer.c:858-902 | outbuf ++ inbuf and an empty inbuf, both valid, the chains one list behind the other; adding a buffer to itself does nothing |
| `EvBuffer.EvBuffer.PrependBuffer` | event/buffer.c:904-948 | inbuf ++ outbuf and an empty inbuf, both valid |
| `EvBuffer.EvBuffer.Absorb` | event/buffer.c:812-856 | COPY_CHAIN, APPEND_CHAIN and PREPEND_CHAIN carry list, pointer and length over |
| `EvBuffer.EvBuffer.PullPoint` | event/buffer.c:1244-1257 | which chains are pulled whole and whether the chain or slot of `last_with_datap` is among them |
| `EvBuffer.EvBuffer.Pullup` | event/buffer.c:1173-1283 | the first `size` bytes become contiguous in the first chain, the contents do not change, `last_with_datap` is right through every branch |
| `EvBuffer.PulledLast` | event/buffer.c:1259-1276 | where `last_with_datap` belongs after pulling |
| `EvBuffer.EvBuffer.InsertNew` | event/buffer.c:313-321 | a new empty chain at the end, contents unchanged |
| `EvBuffer.EvBuffer.ExpandSingleChain` | event/buffer.c:1719-1826 | returns a chain with the room asked for, behind which there are no data; the chunks stay, or end in a new empty one, exactly by which branch is taken; `last_with_datap` stays |
| `EvBuffer.EvBuffer.MovePoint` | event/buffer.c:1117-1128 | the assertion of line 1121 holds on every turn, and the loop stops in the chain that is split |
| `EvBuffer.EvBuffer.Advance` | event/buffer.c:645-659 | `last_with_datap` moves to the end of the run of data chains |
| `EvBuffer.EvBuffer.Splice` | event/buffer.c:1132-1146 | the target keeps its data, takes the chains and advances its pointer |
| `EvBuffer.EvBuffer.Receive` | event/buffer.c:1130-1151 | the target holds old ++ moved chains ++ copied bytes and is valid if and only if `ReceiveSafe` |
| `EvBuffer.SpliceKeeps` | event/buffer.c:1132-1146 | the advanced pointer is right if and only if the moved chains are one run of data |
| `EvBuffer.ReceiveKeeps` | event/buffer.c:1130-1151 | `ReceiveSafe` is necessary and sufficient for the target to stay valid |
| `EvBuffer.EvBuffer.MovePart` | event/buffer.c:1116-1166 | the part that keeps some of the source: contents of both, and validity of both if and only if `CanMove` |
| `EvBuffer.EvBuffer.RemoveBuffer` | event/buffer.c:1083-1171 | moves exactly min(n, total) bytes, dst ++ src is unchanged, both stay valid if and only if `CanMove`, always without empty chains; a frozen end refuses |
| `EvBufferRun.Perform` | event/buffer.c:950-1691 | one operation on two buffers does to the contents what it does to two strings, and returns the same bytes |
| `EvBufferRun.Run` | event/buffer.c:282-1691 | any run of add, prepend, drain, copyout, remove, add_buffer, prepend_buffer, remove_buffer and pullup on two buffers refines the same run on two flat strings and keeps both invariants |
| `EvBufferRun.AddLeavesPointerBehind` | event/buffer.c:1547-1579 | a run: after evbuffer_add fills a chain, evbuffer_expand_singlechain puts an empty one behind it, and the next evbuffer_add leaves `last_with_datap` on the first |
| `EvBufferRun.MoveStopsAtGap` | event/buffer.c:1143-1146 | a run: data added behind that empty chain by evbuffer_add_buffer, and evbuffer_remove_buffer across the gap does not leave both buffers valid |
| `EvBufferSearch.PtrSet` | event/buffer.c:2410-2450 | set or advanced: fails exactly at or past the end, or if the place to advance from was past it; otherwise chain and position denote the offset asked for |
| `EvBufferSearch.PtrMatches` | event/buffer.c:2456-2488 | equality with the bytes of the flat contents at the offset, across chains |
| `EvBufferSearch.CompareChains` | event/buffer.c:2469-2485 | the chain-by-chain comparison decides equality on the flat contents |
| `EvBufferSearch.NextCandidate` | event/buffer.c:2523-2531 | bytes skipped by memchr start no match |
| `EvBufferSearch.SearchRange` | event/buffer.c:2496-2559 | the leftmost match from `start` on if it ends by `end`, else none; chain and position of the result denote its offset; an empty needle is found at the start |
| `UniqueId.UniqueIdPool.Next` | System/UniqueID.h:25-39 | hands out the smallest positive id that is not live; only that id becomes live |
| `UniqueId.UniqueIdPool.AddFree` | System/UniqueID.h:49-99 | in all its branches exactly the range stops being live, and the intervals stay sorted, disjoint and not adjacent |
| `UniqueId.UniqueIdPool.UpperBound` | System/UniqueID.h:51-52 | the first interval that starts after the range |
| `UniqueId.NextLemma` | System/UniqueID.h:28-38 | the first interval starts at the smallest free id |
| `UniqueId.GapLemma` | System/UniqueID.h:52-97 | a range of live ids lies strictly between the intervals around it |
| `UniqueId.PutCoalesced` | System/UniqueID.h:53-98 | bridging the neighbours it touches keeps the list sorted, disjoint and not adjacent |
| `UniqueId.PutCovers` | System/UniqueID.h:53-98 | the new list covers what the old one did and the range |
| `UniqueId.Run` | System/UniqueID.h:25-99 | over any run of takes and give-backs, each id handed out is the smallest positive one not held, so none is handed out twice |
| `SsuUtils.ParseVarint` | Ssu/SsuUtils.h:219-249 | any number followed by any bytes parses to the number and its length |
| `SsuUtils.SizeUInt32` | Ssu/SsuUtils.h:59-76 | the branches give the length of the varint for every 32-bit value |
| `SsuUtils.SizeUInt64` | Ssu/SsuUtils.h:88-134 | the branches give the length of the varint for every 64-bit value |
| `SsuUtils.PackUInt` | Ssu/SsuUtils.h:219-249 | the loop writes exactly the varint and nothing else |
| `SsuUtils.UnpackUInt` | Ssu/SsuUtils.h:456-510 | on any bytes the loop returns what the reference parser finds, modulo the width, and advances past it, or fails with nothing left |
| `SsuFields.ZzEncode` | Ssu/SsuUtils.h:683-698 | 2n for n >= 0, -2n-1 below, within the width |
| `SsuFields.ZzDecode` | Ssu/SsuUtils.h:689-703 | halves and negates by parity, within the range |
| `SsuFields.FlipIsXor` | Ssu/SsuUtils.h:683-703 | flipping all bits of a number of any width, or none, is exclusive or with all ones, or zero |
| `SsuFields.ZigzagIsXor` | Ssu/SsuUtils.h:683-703 | in both widths the zigzag functions are what the code writes: (n << 1) ^ (n >> (bits - 1)) and (n >> 1) ^ -(n & 1) |
| `SsuFields.UnwireWire` | Ssu/SsuUtils.h:200-249 | every value of the six integer kinds survives conversion to the wire's number and back, a negative int32 through 64 bits |
| `SsuFields.SizeOf` | Ssu/SsuUtils.h:41-134 | each size function predicts the bytes its pack function writes |
| `SsuFields.SizeAll` | Ssu/SsuUtils.h:181-191 | a repeated field's size is the bytes of its elements together |
| `SsuFields.SizeBody` | Ssu/SsuUtils.h:41-198 | the size functions of integers, strings and packed fields, length prefix included, predict the bytes written after the tag |
| `SsuFields.ParseKindWire` | Ssu/SsuUtils.h:428-510 | any value of any kind, followed by anything, unpacks to itself |
| `SsuFields.ParseAllBytes` | Ssu/SsuUtils.h:615-633 | the elements of a packed field unpack to the same list |
| `SsuFields.FieldRoundTrip` | Ssu/SsuUtils.h:303-426 | a tagged integer, string or packed field, followed by anything, reads back and leaves exactly what follows |
| `SsuFields.MessageRoundTrip` | Ssu/SsuUtils.h:303-681 | so does a list of fields |
| `SsuFields.PackField` | Ssu/SsuUtils.h:303-426 | writes exactly the field's bytes and nothing else |
| `SsuFields.PackAll` | Ssu/SsuUtils.h:415-426 | the element loop writes the elements' bytes in order |
| `SsuFields.PackBinary` | Ssu/SsuUtils.h:267-278 | copies the bytes |
| `SsuFields.UnpackKind` | Ssu/SsuUtils.h:428-510 | agrees with the reference parser on any bytes |
| `SsuFields.UnpackAll` | Ssu/SsuUtils.h:615-633 | agrees with the reference parser of a packed body on any bytes |
| `SsuFields.UnpackField` | Ssu/SsuUtils.h:456-681 | agrees with the reference parser of a tagged field on any bytes and advances by what was used |
| `EventTagging.EncodeIntInternal` | event/event_tagging.c:115-136 | the loop fills the bytes with the nibble count and the nibbles, least significant first |
| `EventTagging.IntRoundTrip` | event/event_tagging.c:115-136 | an encoded integer of either width, followed by anything, decodes to itself and its length |
| `EventTagging.WidthBounds` | event/event_tagging.c:138-148 | 32-bit integers take at most 8 nibbles and 64-bit ones 16 |
| `EventTagging.PutInt` | event/event_tagging.c:150-164 | appends the encoding to the buffer |
| `EventTagging.PutTag` | event/event_tagging.c:171-192 | appends the tag in base 128, least significant first |
| `EventTagging.DecodeTag` | event/event_tagging.c:207-222 | on any bytes the loop finds the tag modulo 2^32, no tag, or runs past the five bytes pulled up |
| `EventTagging.GetTag` | event/event_tagging.c:194-237 | reads the tag and drains it or not, as asked |
| `EventTagging.GetInt` | event/event_tagging.c:304-358 | on any bytes: the integer and its length if the nibbles announced are there, nothing changed |
| `EventTagging.GatherNibbles` | event/event_tagging.c:323-330 | the loop gathers the number in the nibbles |
| `EventTagging.TakeInt` | event/event_tagging.c:360-378 | reads an integer and drains exactly its bytes |
| `EventTagging.Marshal` | event/event_tagging.c:245-286 | appends tag, length and payload; an integer's payload is its encoding |
| `EventTagging.HeaderRoundTrip` | event/event_tagging.c:245-252 | tag and length, followed by anything, read back |
| `EventTagging.PeekLengths` | event/event_tagging.c:386-418 | evtag_peek_length and evtag_payload_length on any bytes: record and payload length without draining, a failure, or, exactly for a tag that runs past the five bytes pulled up, an outcome of its own |
| `EventTagging.TakeHeader` | event/event_tagging.c:422-436 | on any bytes: drains what it reads of the header and gives the payload length, as an int, if the payload is there; a length of 2^32 - 1 is taken for a failure; a tag that runs past the bytes pulled up is an outcome of its own, exactly then |
| `EventTagging.TakeBlob` | event/event_tagging.c:451-465 | on any bytes: tag and payload, draining exactly the record; a failure, draining at most the header; a negative length that passes for success, exactly between 2^31 and 2^32 - 2; or the tag that runs past the bytes pulled up, exactly then |
| `EventTagging.TakeNum` | event/event_tagging.c:469-519 | on any bytes, what it returns and leaves: the integer of a record that is there with the right tag; which part is drained for a wrong tag, a record cut short or an integer that is too long; the tag that runs past the bytes pulled up, exactly then |
| `EventTagging.TagRunsOn` | event/event_tagging.c:194-222 | a run: seven bytes, five of them continuation bytes, on which reading a record goes past the bytes pulled up |
| `EventTagging.NegativeLength` | event/event_tagging.c:422-465 | a run: a record of 2^31 bytes, all there, whose length passes for success as a negative int |
| `EventTagging.Unmarshal` | event/event_tagging.c:451-519 | the record at the front reads back as it was sent, leaving what follows |
| `EventTagging.PeekThenTake` | event/event_tagging.c:386-519 | for every record sent, the lengths peeked at are those of the record and payload that reading then consumes |
| `EventTagging.Stream` | event/event_tagging.c:245-519 | any list of records and 32- or 64-bit integers marshalled into an evbuffer unmarshals to the same list and leaves the buffer empty |
| `Serialize.WordRoundTrip` | System/Serialize.cpp:31-55 | a 32-bit word in any of the five widths, followed by anything, reads back with its width |
| `Serialize.CastRoundTrip` | System/Serialize.cpp:57-98 | widening each integer type to words and truncating back is the identity |
| `Serialize.TextRoundTrip` | System/Serialize.cpp:117-178 | the base-64 text of any bytes decodes to them, padded to whole groups of three, in all three padding cases |
| `Serialize.AcceptsIff` | System/Serialize.cpp:106-188 | the reader accepts ToString's text if and only if the payload has at most 65535 bytes |
| `Serialize.SerializeInfo.constructor` | System/Serialize.cpp:25-29 | three bytes for the header, then the version |
| `Serialize.SerializeInfo.WriteWord` | System/Serialize.cpp:31-55 | appends the word's bytes |
| `Serialize.SerializeInfo.Write` | System/Serialize.cpp:57-98 | appends the words of a typed integer |
| `Serialize.SerializeInfo.ToString` | System/Serialize.cpp:106-145 | patches length and checksum into the header and returns the text of all bytes |
| `Serialize.EncodeText` | System/Serialize.cpp:117-144 | the loop and its three tails give the text |
| `Serialize.DecodeText` | System/Serialize.cpp:159-178 | on any text the loop gives the bytes, their count, or a failure outside the alphabet |
| `Serialize.DeserializeInfo.constructor` | System/Serialize.cpp:147-189 | valid exactly if the text decodes, its length field matches and its checksum does |
| `Serialize.DeserializeInfo.ReadWord` | System/Serialize.cpp:212-241 | on any bytes: the word at the cursor, 0 and the end if it is cut short, or a look past the buffer |
| `Serialize.DeserializeInfo.Read` | System/Serialize.cpp:212-297 | on any bytes: the integer of one or two words at the cursor, and where the cursor ends |
| `Serialize.ItemReads` | System/Serialize.cpp:212-297 | where an item was written, whatever follows, it is read with its type and the cursor ends behind it |
| `Serialize.PastIff` | System/Serialize.cpp:106-297 | for the text of any payload up to 65535 bytes, after any part of it was read: the next read looks past the buffer exactly when payload and header fill groups of three and the word it reads, or the second of two, begins at the end |
| `Serialize.ReadOn` | System/Serialize.cpp:25-297 | writing any items, reading them all and reading on looks past the buffer exactly when (payload + 4) % 3 == 0 |
| `Serialize.ReadsBehindTwoBytes` | System/Serialize.cpp:25-297 | a run: two bytes written and read, and the next read looks past the buffer |
| `Serialize.RoundTrip` | System/Serialize.cpp:25-303 | for every version and list of typed integers the text is valid if and only if the payload fits 65535 bytes, and then version and values come back and the reader is at its end |
| `Sha1Spec.BlocksSplit` | System/SHA1Engine.cpp:53-64 | hashing whole blocks first and the rest later is hashing all |
| `Sha1Engine.Engine.Reset` | System/SHA1Engine.cpp:74-85 | the initial state |
| `Sha1Engine.Engine.ByteReverse` | System/SHA1Engine.cpp:29-39 | every word of the block is reversed |
| `Sha1Engine.ReverseBlock` | System/SHA1Engine.cpp:29-39 | a full buffer becomes the block's big-endian words |
| `Sha1Engine.Engine.Expand` | System/SHA1Engine.cpp:210-227 | the eighty words are the message schedule |
| `Sha1Engine.Engine.Transform` | System/SHA1Engine.cpp:203-264 | the digest becomes the compression of the block, as section 7 of FIPS 180-1 defines it |
| `Sha1Engine.Engine.CountUpdate` | System/SHA1Engine.cpp:48-51 | the two counter words, with the carry found by overflow |
| `Sha1Engine.CountLemma` | System/SHA1Engine.cpp:48-51 | the two words add 8 * count without loss while the message is under 2^61 bytes |
| `Sha1Engine.Engine.Absorb` | System/SHA1Engine.cpp:56-63 | one byte more: buffer and digest stay those of the message so far |
| `Sha1Engine.Engine.CloseBlock` | System/SHA1Engine.cpp:59-62 | a full buffer goes into the digest |
| `Sha1Engine.Engine.Update` | System/SHA1Engine.cpp:42-65 | slop is bytes mod 64, the counter is 8 * bytes, and the digest that of the whole blocks, for the message with the new bytes |
| `Sha1Engine.Engine.Pad` | System/SHA1Engine.cpp:97-116 | one or two lots of padding leave 56 bytes of the last block |
| `Sha1Engine.LastBlock` | System/SHA1Engine.cpp:117-121 | the reversed bytes and the bit count are the last block |
| `Sha1Engine.FinalState` | System/SHA1Engine.cpp:97-123 | hashing the padded tail from the state of the whole blocks is hashing the padded message |
| `Sha1Engine.Engine.Digest` | System/SHA1Engine.cpp:88-133 | SHA-1 of the message, and the engine is back in its initial state |
| `Sha1Engine.HashPieces` | System/SHA1Engine.cpp:42-133 | for every way of splitting a message under 2^61 bytes into updates the digest is SHA-1 of the whole |
| `TimerHeap.PushHeap` | System/Timer.cpp:40-41 | std::push_heap by due time keeps the heap and its members; a front that is due no later stays |
| `TimerHeap.PopHeap` | System/Timer.cpp:59-60 | std::pop_heap moves the front to the end and leaves a heap |
| `TimerHeap.FrontIsLeast` | System/Timer.cpp:16-19 | the front of a heap is due first |
| `TimerQueue.TimerSet.Add` | System/Timer.cpp:31-43 | one more timer, due first_interval from now; a front that is due no later stays in front |
| `TimerQueue.TimerSet.Remove` | System/Timer.cpp:45-48 | the count becomes 0, the heap stays |
| `TimerQueue.TimerSet.RunCallback` | System/Timer.cpp:68 | callbacks that add only timers not yet due, or remove, leave the timer being fired in front |
| `TimerQueue.TimerSet.FireFront` | System/Timer.cpp:65-81 | the timer popped is the one just fired: it is dropped if its count ran out or it was removed, else due one interval later |
| `TimerQueue.ExpectedStep` | System/Timer.cpp:65-79 | one fire takes one from min(count, floor((now - due) / interval) + 1) |
| `TimerQueue.AccountedStep` | System/Timer.cpp:65-81 | fires so far and fires to come always add up to the fires expected at the start |
| `TimerQueue.TrackedStep` | System/Timer.cpp:65-81 | a timer never removed is due k intervals later with k off its count after k fires, and gone exactly when that count is 0 |
| `TimerQueue.FiredWork` | System/Timer.cpp:52-83 | every fire takes away work, so the loop ends |
| `TimerQueue.TimerSet.Process` | System/Timer.cpp:50-84 | terminates; fires in order of due time; each timer no callback cancels fires min(count, floor((now - due) / interval) + 1) times and is left where its fires took it; none fires after its removal; nothing due is left, and the timers left were there or were started by a callback; the front of an empty vector is read if and only if there were timers and none is `Lasting` |
| `TimerQueue.LastingIff` | System/Timer.cpp:50-84 | some timer is live in the end if and only if one from before has a count above its fires and is cancelled by no callback that ran, or a callback started one that no later action cancelled |
| `TimerQueue.LastingIdle` | System/Timer.cpp:50-84 | with callbacks that neither start nor cancel, if and only if a timer from before has an unlimited count or one above min(count, floor((now - due) / interval) + 1) |
| `TimerQueue.BroughtMore` | System/Timer.cpp:31-81 | over all callbacks so far, the timers started and still live are those the actions, in order, start and do not cancel |
| `TimerQueue.LastFireUnsafe` | System/Timer.cpp:50-84 | a run: one timer with count 1 falls due, and process reads the front of an empty vector |
| `DnsName.NameParse` | event/evdns.c:935-989 | on any packet, offset and output size: what a reader that follows pointers finds, the failure of each malformed case, and, exactly when the output has room for a label that leaves the packet, the read past it |
| `DnsName.ReadsBehindPacket` | event/evdns.c:974-984 | a packet of two bytes for which bytes behind it are copied |
| `DnsName.NameParses` | event/evdns.c:951-966 | names whose pointers go strictly backwards never use up the jump limit |
| `DnsName.NameStable` | event/evdns.c:935-989 | a name still reads the same when bytes are added behind |
| `DnsLabels.LabelTable.GetPos` | event/evdns.c:1537-1546 | the first entry with that name, or none |
| `DnsLabels.LabelTable.Add` | event/evdns.c:1549-1564 | one more entry, unless 128 are there |
| `DnsLabels.PointerTarget` | event/evdns.c:1604-1607 | the two bytes keep 14 bits of the offset: they point where they should if and only if it is below 0x4000 |
| `DnsLabels.OldEntry` | event/evdns.c:1603-1607 | a pointer never refers to the name being written |
| `DnsLabels.ClosedByPointer` | event/evdns.c:1604-1607 | labels followed by a pointer read as the whole name |
| `DnsLabels.ClosedByZero` | event/evdns.c:1608-1637 | labels followed by a zero byte read as the name up to its first empty label |
| `DnsLabels.TableGrows` | event/evdns.c:1613-1625 | every entry of the table still denotes its name |
| `DnsLabels.PutNext` | event/evdns.c:1608-1631 | one label more, and its entry |
| `DnsLabels.Terminate` | event/evdns.c:1634-1638 | the terminator is added unless an empty last label is one; it is written past the buffer exactly when the buffer is full |
| `DnsLabels.ToLabels` | event/evdns.c:1577-1641 | the name written at `start` reads back there, the index ends behind it, the table stays right and other bytes are untouched; for every name, table and buffer size the outcome, success or error, and the table left are those `Outcome` and `After` give; the zero is written past the buffer if and only if the labels fit exactly, none is over 63 bytes, the last is not empty and no suffix of the name is in the table |
| `DnsLabels.WriteLabels` | event/evdns.c:1597-1641 | the loop ends, and leaves the table, as `Ends` and `Grown` say for what remains of the name |
| `DnsLabels.EndsPast` | event/evdns.c:1597-1641 | from any label on, the zero goes past the buffer exactly when the rest of the name and one byte for its first length fill the buffer, its labels are short, the last is not empty, and no suffix of the rest is in the table |
| `DnsLabels.WrotePastIff` | event/evdns.c:1577-1641 | the same for the whole name, by conditions on the call's arguments |
| `DnsLabels.WritesBehindBuffer` | event/evdns.c:1634-1638 | a one-letter name and a buffer of two bytes for which the zero goes behind the buffer |
| `DnsLabels.SameNameIff` | event/evdns.c:1577-1641 | a name comes back as it was written if and only if it is empty or has no empty label |
| `DnsLabels.LosesBehindEmptyLabel` | event/evdns.c:935-1641 | a run: a name with two dots in a row is written and parsed, and only what is before them comes back |
| `DnsLabels.WriteNames` | event/evdns.c:1577-1641 | any names with any bytes between them, with one table: all are written if and only if `Plan` foresees it, at the offsets it foresees; if each starts at 0x4000 or below, all read back there |
| `DnsLabels.PlanLaid` | event/evdns.c:1577-1641 | the names lie one behind the other, each with its gap behind it |
| `DnsLabels.RoomPlans` | event/evdns.c:1577-1641 | with room for the names uncompressed all can be written, and none starts behind where it would lie uncompressed |
| `DnsLabels.ReadBack` | event/evdns.c:935-989 | name_parse at such an offset gives the name up to its first empty label and the index behind it |
| `DnsLabels.RoundTrip` | event/evdns.c:935-1641 | writing any list of names with the table and parsing each at its offset works if and only if all fit and start at 0x4000 or below; then each comes back up to its first empty label, with the index behind it, and as it was exactly if it has none or is empty |
| `DnsServers.CountFlip` | event/evdns.c:556-635 | one server changing state changes the number that are up by one |
| `DnsServers.InsertedOk` | event/evdns.c:2504-2515 | a new server goes in behind the head and is counted |
| `DnsServers.RoundEnd` | event/evdns.c:1312-1345 | as many picks as servers are up meet each of them once |
| `DnsQueues.FindExact` | event/evdns.c:478-493 | the search of one bucket finds an id if and only if it is inflight anywhere |
| `DnsQueues.FreeIdExists` | event/evdns.c:1295-1307 | while fewer than 65535 requests are inflight there is an id to pick |
| `DnsQueues.Insert` | event/evdns.c:2655-2669 | a fresh id filed in its bucket keeps all of the queue invariant |
| `DnsQueues.RemoveInflight` | event/evdns.c:2617-2652 | so does removing an inflight request |
| `DnsQueues.RemoveWaiting` | event/evdns.c:2617-2652 | so does removing a waiting one |
| `DnsQueues.MoveOne` | event/evdns.c:3330-3336 | rehashing one request keeps each inflight request in exactly one of its two buckets |
| `DnsRing.Links.Insert` | event/evdns.c:2655-2669 | on the links, the request becomes the last of the circle; other lists are untouched |
| `DnsRing.Links.Remove` | event/evdns.c:2617-2652 | on the links, exactly the request leaves the circle and the head moves on if it was the head |
| `DnsRing.Links.ShiftBack` | event/evdns.c:2404-2409 | moving the head back by one puts the last first |
| `DnsRequests.EvdnsBase.NameserverPick` | event/evdns.c:1312-1345 | the first server up from the head on; when none is up the one behind the head; the head ends behind the pick; going round and failing the assertion never happens |
| `DnsRequests.EvdnsBase.PickRound` | event/evdns.c:1312-1345 | with unchanged states, as many picks as servers are up give each of them exactly once |
| `DnsRequests.EvdnsBase.AddServer` | event/evdns.c:2504-2515 | the server goes in behind the head and the count of good ones stays exact |
| `DnsRequests.EvdnsBase.TransactionIdPick` | event/evdns.c:1295-1307 | an id below 0xffff that no inflight request has |
| `DnsRequests.EvdnsBase.Failed` | event/evdns.c:556-614 | the server is down and counted so; if another is up no request that was never sent is left with it |
| `DnsRequests.EvdnsBase.Up` | event/evdns.c:616-635 | the server is up and counted so; at most its probe is cancelled |
| `DnsRequests.EvdnsBase.Transmit` | event/evdns.c:2207-2250 | whatever sendto answers the invariant stays: counted as sent, or marked to be sent again with its server choked; the assertion on its id holds |
| `DnsRequests.EvdnsBase.TransmitAll` | event/evdns.c:2308-2330 | the same for the walk over all buckets |
| `DnsRequests.EvdnsBase.Submit` | event/evdns.c:2681-2773 | straight to a server if there is room and a server, else to the end of the waiting list; no request waits while there is room |
| `DnsRequests.EvdnsBase.Probe` | event/evdns.c:2278-2303 | forced inflight under an id of its own |
| `DnsRequests.EvdnsBase.Pump` | event/evdns.c:730-751 | the first in the waiting list go out, exactly as many as there is room for, in order; a null server is used if and only if none is configured and a request waits |
| `DnsRequests.EvdnsBase.Finish` | event/evdns.c:647-697 | exactly the request is gone, the room is filled from the front of the waiting list, and no request waits while there is room; a null server is used if and only if none is configured and another request waits |
| `DnsRequests.EvdnsBase.Reissue` | event/evdns.c:705-726 | another server or a refusal if it would be the same |
| `DnsRequests.EvdnsBase.Timeout` | event/evdns.c:2138-2173 | the request is given up after its last retransmission, else sent to the next server |
| `DnsRequests.EvdnsBase.Reply` | event/evdns.c:845-933 | the request ends unless it is reissued; others stay inflight under their ids |
| `DnsRequests.EvdnsBase.SetMax` | event/evdns.c:3314-3343 | every inflight request is in the bucket of its id among the new ones; limit and bucket count as clipped |
| `DnsRequests.EvdnsBase.Suspend` | event/evdns.c:2360-2422 | the waiting list is pumped while servers are freed exactly when `Dismissed` foresees it from the queues and probes; otherwise the probes are gone, all other requests wait, the inflight ones before the others, whose order stays, and no server is left |
| `DnsRequests.EvdnsBase.Dismiss` | event/evdns.c:2366-2390 | the loop over the nameservers: each probe that is out is cancelled, and the queues are as foreseen |
| `DnsRequests.FreesIff` | event/evdns.c:2366-2390 | once the first server is freed, a waiting request goes out if and only if requests wait, a probe is out, and cancelling those that are out makes room |
| `DnsRequests.NoProbeOut` | event/evdns.c:2366-2390 | without a probe out the queues stay as they were |
| `DnsRequests.EvdnsBase.Resume` | event/evdns.c:2432-2439 | the waiting list is pumped; a null server is used if and only if none is configured and a request waits |
| `DnsRequests.OneList` | event/evdns.c:303-311 | each request is in exactly one list, once: waiting if it has no nameserver, else the bucket of its id |
| `DnsRequests.Do` | event/evdns.c:556-3343 | each step keeps the invariant, and the rule that none waits while there is room unless servers or limit are taken away, or goes through a null server, exactly when `Strands`, or a freed one, exactly when `Frees` |
| `DnsRequests.Run` | event/evdns.c:556-3343 | over every run: one list each, a nameserver exactly if inflight, distinct ids, buckets by id, both counters and the count of good servers exact; a null or freed server is never used once there is a server, as long as none are taken away; between suspends with a fixed limit a nonempty waiting list means inflight >= max |
| `DnsRequests.CancelWithoutServer` | event/evdns.c:647-751 | a run: two requests, no nameserver, one is cancelled, and the other is sent to a null server |
| `DnsRequests.SuspendWithProbes` | event/evdns.c:2360-2390 | a run: two servers with their probes out, one request waiting, and a suspend pumps it out while the first server is freed |
| `Getaddrinfo.Request.GotResolve` | event/evdns.c:4280-4455 | each branch keeps: told at most once, freed exactly when both subrequests have ended, and the right reply |
| `Getaddrinfo.EndsTelling` | event/evdns.c:4357-4454 | the last to end gives all addresses, A before AAAA, the answer beside an error, the later of two errors, or the cancel |
| `Getaddrinfo.EndsFirst` | event/evdns.c:4346-4434 | the first to end is remembered and starts the timer |
| `Getaddrinfo.EndsTold` | event/evdns.c:4322-4335 | after the timer answered, the other only frees the request |
| `Getaddrinfo.Request.SkewTimeout` | event/evdns.c:4214-4264 | never both timed out and never neither; the user hears of the first alone |
| `Getaddrinfo.Request.UserCancel` | event/evdns.c:4640-4655 | the timer is off and both subrequests are cancelled; nothing is told or freed yet |
| `Getaddrinfo.HeardCancel` | event/evdns.c:4346-4383 | a user who cancelled hears so if and only if the timer did not fire |
| `Getaddrinfo.CancelHeardAsFailure` | event/evdns.c:4346-4358 | a run in which a user who cancelled is told of a failure, because the first cancelled subrequest starts the timer again |
| `Getaddrinfo.Run` | event/evdns.c:4214-4655 | in every interleaving the user callback runs at most once and the request is freed at most once, exactly when both subrequests have ended; by then the user has been told exactly once |
| `Getaddrinfo.Finish` | event/evdns.c:4214-4455 | from any reachable state the outstanding callbacks end it: told once, freed once |
| `TokenBucket.RefilledIsMin` | event/bufferevent_ratelim.c:95-104 | the division-based update in size_t arithmetic equals min(limit + ticks * rate, maximum), for every deficit |
| `TokenBucket.RefilledExact` | event/bufferevent_ratelim.c:95-104 | for every limit, above the maximum too, exactly when the update gives min(limit + ticks * rate, maximum) |
| `TokenBucket.RefilledSign` | event/bufferevent_ratelim.c:95-104 | a bucket with tokens is exhausted by an update exactly when it is above its maximum and limit + ticks * rate leaves the range of ssize_t but not that of size_t |
| `TokenBucket.SignedSum` | event/bufferevent_ratelim.c:98 | the sum in size_t is exact in ssize_t |
| `TokenBucket.ElapsedAtMost` | event/bufferevent_ratelim.c:77-84 | the ticks counted are at most those that passed, through wrap-around |
| `TokenBucket.Bucket.Init` | event/bufferevent_ratelim.c:48-70 | a new bucket holds one tick's rate; a changed configuration only clips |
| `TokenBucket.Bucket.Update` | event/bufferevent_ratelim.c:72-110 | both limits as the size_t arithmetic gives them, from any level; min(limit + ticks * rate, maximum) up to the maximum; no ticks, or a clock gone back, change nothing |
| `RateLimit.SuspendSide` | event/bufferevent.c:65-75 | the flag is set and the backend stops |
| `RateLimit.UnsuspendSide` | event/bufferevent.c:77-87 | the flag is cleared and the backend runs again if it was the last and the user enabled it |
| `RateLimit.Switched` | event/bufferevent.c:406-427 | the backend runs exactly if enabled and not suspended |
| `RateLimit.BufferEvent.GetMax` | event/bufferevent_ratelim.c:199-260 | the bucket is brought up to date and its limit returned, zero for a deficit; the wakeup invariant breaks exactly if that drowns a side that nothing suspends |
| `RateLimit.BufferEvent.ChargeRead` | event/bufferevent_ratelim.c:274-310 | for charges and refunds of any size: read is suspended for bandwidth, with its refill pending, exactly if its bucket is exhausted |
| `RateLimit.BufferEvent.ChargeWrite` | event/bufferevent_ratelim.c:312-348 | the same for writing |
| `RateLimit.BufferEvent.DecrementReadLimit` | event/bufferevent_ratelim.c:900-925 | for decrements of either sign: an exhausted bucket is suspended with its refill pending; one lifted above zero is not |
| `RateLimit.BufferEvent.DecrementWriteLimit` | event/bufferevent_ratelim.c:927-954 | the same for writing |
| `RateLimit.BufferEvent.Refill` | event/bufferevent_ratelim.c:395-441 | suspensions end exactly for buckets that are no longer exhausted, and the timer stays exactly while one is; the wakeup invariant breaks exactly if a side that nothing suspends drowns |
| `RateLimit.BufferEvent.SetRateLimit` | event/bufferevent_ratelim.c:558-635 | levels, flags and timer are exact for the new configuration; without one nothing is suspended for bandwidth |
| `RateLimit.BufferEvent.SwitchSide` | event/bufferevent.c:406-510 | enabling and disabling leave the suspensions alone |
| `RateLimit.Run` | event/bufferevent_ratelim.c:274-954 | over every run, refunds above the maximum included, an exhausted bucket is suspended, its backend is off and its refill is pending, until a step drowns a side that nothing suspends; without refunds that never happens |
| `RateLimit.RefundLosesWakeup` | event/bufferevent_ratelim.c:95-104 | a run: after a refund to the largest ssize_t one tick exhausts the bucket, nothing may be read, and neither suspension nor timer is there to end it |
| `RateLimit.WakeUp` | event/bufferevent_ratelim.c:395-441 | if no refund went above the maximum, refills, one a tick, end every suspension for bandwidth, from any deficit |
| `RateLimit.TakeTurn` | event/bufferevent_ratelim.c:199-441 | one turn, reading, writing or refilling, keeps both directions within the tokens given; what is charged is all that is ready or uses up what the bucket allows |
| `RateLimit.FairTopped` | event/bufferevent_ratelim.c:72-110 | bringing the bucket up to date gives each direction no more than its rate for the time that passed |
| `RateLimit.TransferRun` | event/bufferevent_ratelim.c:199-441 | reads, writes and refills in any order, with charges of at most get_rlim_max: in each direction the limit stays at most maximum and does not fall below zero, and the bytes over T ticks are at most maximum + rate * T |

## Left out

- Pinned, immutable and reference chains, file segments, sockets and iovecs, and evbuffer callbacks with their counters: they do not change the flat contents.
- EvBuffer: chains are values in a sequence, so aliasing of chains and use of freed memory are not captured; `last` is the last element.
- Allocation failure and overflow of size_t in lengths, everywhere.
- Locks: every operation is one step.
- SsuFields.UnpackField: a packed length beyond the bytes left, which the code would read past, is an outcome of its own; shifts of 32 or 64 bits and more in over-long varints are taken modulo the width.
- Floating point, bool, enum, object and referred fields of Ssu/SsuUtils.h: raw copies, or the same varints.
- EventTagging.DecodeTag: for more than five continuation bytes the model stops with an outcome; what the bytes behind those pulled up hold is not modelled.
- EventTagging.TakeBlob: for a length that is negative as an int, which the code passes on to evbuffer_pullup and evbuffer_add, the model stops with an outcome; no record is sent that long.
- evtag_unmarshal_fixed, evtag_unmarshal_string and evtag_unmarshal_timeval: TakeBlob and TakeNum with one more check.
- Sha1Engine.Engine.Transform: the unrolled macros of the source are loops over the same steps; the big-endian build is not modelled.
- Sha1Engine.Engine.Digest: the last byteReverse of scratch data before reset is not modelled, since reset overwrites it.
- TimerHeap.PushHeap: one standard sift-up; the C++ library may order equal timers differently.
- TimerQueue.TimerSet.Process: a removal naming a timer that no longer exists is skipped, where the code would touch freed memory; due times do not wrap around.
- UniqueId.Run: ids do not wrap around; addFreeN, setMax and the mutex are not modelled.
- DnsRequests.EvdnsBase.TransactionIdPick: an arbitrary free id stands for the loop that draws until one is free.
- DnsRequests.EvdnsBase.Suspend: when the waiting list is pumped while servers are freed, the model stops with an outcome; which of the freed ones the code then touches is not modelled.
- DnsRequests.EvdnsBase.Timeout: whether the server has timed out too often is a parameter.
- DnsRequests.Do: a step that names an unknown request or server is skipped.
- DnsRequests.EvdnsBase.Reply: the domain search of a failed lookup is not modelled.
- Domain search, resolv.conf, hosts files, the DNS server side, and the parsing of replies beyond names.
- The backoff of nameserver probes, which only sets timers.
- Getaddrinfo.Run: canonical names, numeric hosts and hosts-file answers are left out, and no address allocation fails.
- RateLimit.TransferRun: starts without a refund above the maximum and charges only what get_rlim_max allows.
- RateLimit.Run: charges and refunds whose result does not fit ssize_t are skipped, since that overflow is undefined.
- RateLimit.BufferEvent.ChargeRead: the group's bucket is not modelled.
- RateLimit.BufferEvent.ChargeWrite: the group's bucket is not modelled.
- RateLimit.BufferEvent.GetMax: the share of a rate-limit group is not modelled.
- Rate-limit groups: their flag takes part as one more reason for suspension, their buckets and try-locks do not.
- ev_token_bucket_get_tick and the configuration's tick length: a tick is a number given by the caller.
- epoll, devpoll, evport, IOCP, OpenSSL and arc4random code, and the string, file and thread wrappers of System.
