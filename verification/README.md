# RFC 5444 and its surroundings: a verified model

The repository carries the OONF implementation of RFC 5444 (the packet format of mobile ad hoc networks), the AODVv2
routing protocol on top of it, and the cJSON library. This project models their most intricate parts in Dafny and proves
what they are relied on for.

- `Seqs.dfy`, `Ring.dfy`, `Avl.dfy`: the threaded AVL tree, on the heap. Nodes carry parent and child pointers, stored
  balances and the links of a ring in key order; nodes with a key already present hang in the ring as followers. The ghost
  state is `groups`: the leaders in order, each with its followers. One invariant ties all of it together and survives
  every rotation and every unlinking step.
- `Wire.dfy`, `Tlv.dfy`, `AddressTlvs.dfy`, `Duplicates.dfy`, `AddressBlocks.dfy`, `AddressSection.dfy`: bytes, the TLV
  codec with its index and length forms, runs of address TLVs and which duplicate types break them, address blocks, and the
  address section of a message. Encoders and parsers are functions; the loops of the source are methods proved against them.
- `WireGrammar.dfy`, `BlockGrammar.dfy`, `SectionGrammar.dfy`, `HeaderGrammar.dfy`: the layouts of RFC 5444 as relations on
  bytes, with the bits written out, and that the reader accepts from any bytes exactly what is laid out so.
- `Compression.dfy`, `LongLists.dfy`, `Generator.dfy`: the address compression session, the backward walk over block starts,
  lists that become one block, and the creation of a whole message with exactly when it reads back.
- `Estimates.dfy`, `SectionSizes.dfy`: what the session thinks TLVs and blocks cost, and what they take when written.
- `TlvWriter.dfy`, `Message.dfy`, `Packet.dfy`: the accounting of added, allocated and set TLVs in a buffer, message header
  and body, the packet buffer and its flush.
- `Schedule.dfy`, `Delivery.dfy`: the walk over two sorted lists that hands TLVs to consumers, exactly when it equals a
  filter, and what a consumer gets of what was attached to an address.
- `Json.dfy`, `JsonValues.dfy`, `JsonBuffers.dfy`, `JsonGrammar.dfy`, `JsonLayout.dfy`, `SiblingList.dfy`: cJSON's strings,
  recursive parser and printer, the grammar of what it accepts, how its two layouts relate, and its lists of children.
- `Codes.dfy`, `SeqNums.dfy`: the time code of RFC 5497, the metric code of RFC 7181, and sequence numbers that wrap.
- `McMsg.dfy`, `Flood.dfy`: AODVv2's set of multicast messages, and route requests and replies as a protocol of steps.

Some things one would expect of this code fail, and the project says exactly where. A type that appears twice on one
address is written wrongly if and only if its last value there differs from the first, is as long, and the addresses
behind repeat the first until the run ends (`Misleads`, `AddressTlvRoundTrip`). Addresses that share a head are put into
one block even if there are more than 255 of them, and then are lost (`LongListIsLost`); the prefix length 255 does not
come back (`PlenSurvives`). The estimate that keeps a list in one fragment is too small where prefix lengths differ, by twice
the addresses before the first change but one byte if the first has a prefix, and where short values need a long size field
(`PlenErrorIs`, `PrefixesOverrun`, `ValuesOverrun`); lists of one prefix length without such values always fit
(`PlainListFits`). Consumer entries that overlap miss TLVs (`MergeIsFilterIff`). JSON nested more than 1000
deep is refused (`JsonRoundTrip`). Sequence numbers half the range apart are each smaller than the other
(`HalfTheRange`). An entry of the multicast message set that is past its removal time protects against nothing
(`GapForgets`). A route reply does not carry its metric on: what goes out is a count of the router's own that grows with
the replies, and at 254 none goes on until the router answers a request (`ReplyKeepsSumIff`, `RepliesRunOut`).

`dafny verify dfyconfig.toml` checks everything.

## Model

| member | source | states |
|---|---|---|
| Ring.ListAdd | core/contrib/oonf_api/common/list.h:96-102 | linking a node between two neighbours of a ring inserts it at that place and keeps forward and backward links mirrored |
| Ring.AddBefore | core/contrib/oonf_api/common/list.h:130-132 | a node added before another comes right before it in the ring |
| Ring.AddAfter | core/contrib/oonf_api/common/list.h:140-142 | a node added after another comes right behind it in the ring |
| Ring.ListRemove | core/contrib/oonf_api/common/list.h:149-163 | removing a node takes exactly it out of the ring and clears its links |
| Ring.ListMerge | core/contrib/oonf_api/common/list.h:215-227 | merging appends one ring to the other and leaves the merged one empty |
| Avl.AvlTree.constructor | core/contrib/oonf_api/common/avl.c:75-81 | a new tree satisfies the whole tree-and-ring invariant |
| Avl.AvlTree.RotateRight | core/contrib/oonf_api/common/avl.c:373-410 | a right rotation keeps search order, links and positions and reweighs the two nodes |
| Avl.AvlTree.RotateLeft | core/contrib/oonf_api/common/avl.c:418-455 | the same for a left rotation |
| Avl.AvlTree.PostInsert | core/contrib/oonf_api/common/avl.c:463-507 | where a subtree grew by one, the climb ends with all stored balances right again |
| Avl.AvlTree.PostRemove | core/contrib/oonf_api/common/avl.c:554-612 | where a subtree shrank by one, the climb ends with all stored balances right again |
| Avl.AvlTree.RemoveWorker | core/contrib/oonf_api/common/avl.c:644-777 | unlinking any tree node, with two children too, keeps order, links and balances and removes just that node |
| Avl.AvlTree.FindRec | core/contrib/oonf_api/common/avl.c:344-365 | the descent ends at the key, or at the node under which it would be attached |
| Avl.AvlTree.Find | core/contrib/oonf_api/common/avl.c:91-102 | finds the leader with the key, null exactly if no node has it |
| Avl.AvlTree.FindLessEqual | core/contrib/oonf_api/common/avl.c:112-145 | the last ring node with a key at most the given one, as a linear scan finds it |
| Avl.AvlTree.FindGreaterEqual | core/contrib/oonf_api/common/avl.c:154-185 | the first ring node with a key at least the given one, as a linear scan finds it |
| Avl.AvlTree.FindLast | core/contrib/oonf_api/common/avl.c:194-204 | following the ring from a leader ends at the last node of its group |
| Avl.AvlTree.Insert | core/contrib/oonf_api/common/avl.c:214-282 | refused exactly if the key exists and duplicates are off; otherwise adds just the node, a duplicate right behind its leader, and keeps the invariant |
| Avl.AvlTree.Remove | core/contrib/oonf_api/common/avl.c:290-332 | removes just the node from tree and ring, whichever role it has, clears its links and keeps the invariant |
| Avl.AvlTree.InOrderRange | core/contrib/oonf_api/common/avl.c:214-332 | walking the tree in order lists the leaders |
| Avl.AvlTree.TreeAndRingAgree | core/contrib/oonf_api/common/avl.c:214-332 | the leaders among the ring nodes are the tree in order |
| Avl.AvlTree.BalanceIsReal | core/contrib/oonf_api/common/avl.c:463-612 | a stored balance is the height of the right subtree minus that of the left, and at most one away from 0 |
| Avl.AvlTree.DepthIsLogarithmic | core/contrib/oonf_api/common/avl.c:463-612 | a tree of height h has at least fib(h+2)-1 leaders |
| Avl.AddedThenRemoved | core/contrib/oonf_api/common/avl.c:214-332 | adding a node and removing it gives back the groups there were |
| Tlv.FlagsRoundTrip | core/contrib/oonf_api/rfc5444/rfc5444_reader.c:446-546 | all TLV flag combinations survive coding |
| Tlv.ParsesRun | core/contrib/oonf_api/rfc5444/rfc5444_msg_generator.c:1068-1136 | an address TLV is read back whatever index form, length form and value form was picked |
| WireGrammar.ParsesIffMeans | core/contrib/oonf_api/rfc5444/rfc5444_reader.c:446-546 | for any bytes: a TLV is read, with what is stored of it and where it ends, if and only if the bytes are a TLV of that meaning |
| WireGrammar.TlvErrors | core/contrib/oonf_api/rfc5444/rfc5444_reader.c:446-546 | which error is given for any bytes that are no TLV |
| AddressTlvs.RunsSayTheBlock | core/contrib/oonf_api/rfc5444/rfc5444_msg_generator.c:1147-1205 | the runs formed for a block say exactly what its addresses say, duplicates counted |
| AddressTlvs.RunsAreGood | core/contrib/oonf_api/rfc5444/rfc5444_msg_generator.c:1147-1205 | the runs of any block are contiguous and of one value length, and marked single-valued exactly if each value was found equal to the first one of its type on the address before |
| AddressTlvs.WrittenIffHonest | core/contrib/oonf_api/rfc5444/rfc5444_msg_generator.c:1068-1136 | what the written TLVs say is what was meant exactly if every run marked single-valued has one value: errors of several runs do not cancel |
| AddressTlvs.WriteAddressTlvs | core/contrib/oonf_api/rfc5444/rfc5444_msg_generator.c:1147-1205 | the nested loops write the encodings of the runs of the block |
| AddressTlvs.ParseTlvBlockLoop | core/contrib/oonf_api/rfc5444/rfc5444_reader.c:558-609 | the loop computes the TLV block function, errors included |
| SectionGrammar.TlvBlockIffThere | core/contrib/oonf_api/rfc5444/rfc5444_reader.c:558-609 | for any bytes: a TLV block is read if and only if its size fits and TLVs follow one another until it is reached; the last may reach further |
| AddressTlvs.ParseProgress | core/contrib/oonf_api/rfc5444/rfc5444_reader.c:446-546 | a parsed TLV takes at least two bytes and ends inside the buffer |
| AddressTlvs.ParsedValuesInside | core/contrib/oonf_api/rfc5444/rfc5444_reader.c:665-671 | for any input, the share of a multivalue TLV for an address of its range lies inside its value |
| Duplicates.HonestIffHarmless | core/contrib/oonf_api/rfc5444/rfc5444_msg_generator.c:1147-1205 | the runs are all honest exactly if no address misleads the writer: none shows a type twice, first with one value and last with another of the same length, where the addresses behind show the first value until the run ends |
| Duplicates.AddressTlvRoundTrip | core/contrib/oonf_api/rfc5444/rfc5444_msg_generator.c:1068-1205 | for every block whose size field holds: expanding what is read gives exactly what was attached, if and only if no address misleads the writer |
| Duplicates.UniqueIsHarmless | core/contrib/oonf_api/rfc5444/rfc5444_msg_generator.c:919-933 | with at most one TLV of a type per address no address misleads |
| Duplicates.DuplicatesGetLost | core/contrib/oonf_api/rfc5444/rfc5444_msg_generator.c:919-933 | a type twice on the only address does no harm; twice on one address and once on the next it does |
| AddressBlocks.MeasureTail | core/contrib/oonf_api/rfc5444/rfc5444_msg_generator.c:1264-1278 | the loops measure the tail of the addresses |
| AddressBlocks.TailIsLongest | core/contrib/oonf_api/rfc5444/rfc5444_msg_generator.c:1257-1278 | the tail is shared by all addresses, and no longer one is unless the head leaves no room |
| AddressBlocks.WriteAddrBlock | core/contrib/oonf_api/rfc5444/rfc5444_msg_generator.c:1257-1337 | the loops write the encoding of the block |
| AddressBlocks.AddressBlockRoundTrip | core/contrib/oonf_api/rfc5444/rfc5444_reader.c:807-905 | the addresses and prefix lengths of a block come back in order, whatever head, tail, zero-tail and prefix form was picked |
| BlockGrammar.ParsesIffFormed | core/contrib/oonf_api/rfc5444/rfc5444_reader.c:807-905 | for any bytes: an address block is read up to a place if and only if the bytes up to there are laid out as one |
| BlockGrammar.BlockGives | core/contrib/oonf_api/rfc5444/rfc5444_reader.c:807-905 | and then its addresses can be put together exactly if head and tail leave them room: each is the head, its middle part and the tail, zeros for a zero tail, with its prefix length |
| BlockGrammar.BlockErrors | core/contrib/oonf_api/rfc5444/rfc5444_reader.c:807-905 | which error is given for any bytes that are no address block |
| AddressBlocks.ReadsAddress | core/contrib/oonf_api/rfc5444/rfc5444_reader.c:974-984 | head, middle and tail put together are the address that was written |
| AddressBlocks.AtMost255 | core/contrib/oonf_api/rfc5444/rfc5444_reader.c:807-905 | for any input, a parsed block has 1 to 255 addresses, so larger blocks never come back |
| AddressBlocks.PlenSurvives | core/contrib/oonf_api/common/netaddr.c:190-194 | a prefix length survives exactly if it is not 255 |
| AddressSection.AddressSectionRoundTrip | core/contrib/oonf_api/rfc5444/rfc5444_msg_generator.c:1213-1362 | reading the section gives the blocks, all addresses in order, and exactly what their TLVs say, if and only if no block has more than 255 addresses and no address misleads the writer |
| AddressSection.ParseSectionLoop | core/contrib/oonf_api/rfc5444/rfc5444_reader.c:1151-1180 | the loop over address blocks computes the section function, errors included |
| SectionGrammar.SectionIffThere | core/contrib/oonf_api/rfc5444/rfc5444_reader.c:1151-1180 | for any bytes: an address section is read if and only if pairs of an address block and a TLV block follow one another up to its end, and gives what they say |
| Compression.HeadIsLongest | core/contrib/oonf_api/rfc5444/rfc5444_msg_generator.c:899-905 | the common head of two neighbours is the longest; it is the whole address exactly for equal addresses |
| Compression.Best | core/contrib/oonf_api/rfc5444/rfc5444_msg_generator.c:815-823 | the candidate picked has the least total from the common head on, and of those the shortest head |
| Compression.ClosedIsSound | core/contrib/oonf_api/rfc5444/rfc5444_msg_generator.c:807-838 | closing a block makes the address before remember a well-formed block and keeps all candidates well formed |
| Compression.NextIsCandidate | core/contrib/oonf_api/rfc5444/rfc5444_msg_generator.c:937-1042 | the addresses of a candidate share its head length and, unless marked, their prefix length |
| Compression.AddressIsSound | core/contrib/oonf_api/rfc5444/rfc5444_msg_generator.c:851-1066 | every address keeps the session sound: all candidates end with it, all addresses before remember blocks that end with them |
| Compression.SessionIsSound | core/contrib/oonf_api/rfc5444/rfc5444_msg_generator.c:286-391 | the session is sound after any number of addresses |
| Compression.FinalMarks | core/contrib/oonf_api/rfc5444/rfc5444_msg_generator.c:393-398 | when all addresses are in, every one of them remembers a well-formed block that ends with it |
| Compression.WalkPartitions | core/contrib/oonf_api/rfc5444/rfc5444_msg_generator.c:1455-1472 | the backward walk ends at the first address and splits the list into contiguous well-formed blocks |
| Compression.Session.CloseAddrBlock | core/contrib/oonf_api/rfc5444/rfc5444_msg_generator.c:807-838 | the loops over the slots compute the session after closing a block |
| Compression.Session.CompressSlot | core/contrib/oonf_api/rfc5444/rfc5444_msg_generator.c:937-1057 | continues or restarts the candidate of one head length by the cost comparison |
| Compression.Session.CompressAddress | core/contrib/oonf_api/rfc5444/rfc5444_msg_generator.c:851-1066 | the session after an address is the one proved sound, slot by slot |
| Compression.Session.BestSize | core/contrib/oonf_api/rfc5444/rfc5444_msg_generator.c:324-336 | says whether some candidate of at most 255 addresses fits the message |
| Compression.Session.Compress | core/contrib/oonf_api/rfc5444/rfc5444_msg_generator.c:286-396 | ends with the session of the whole list, and gives up exactly if for some address no candidate fits |
| Estimates.RunTakes | core/contrib/oonf_api/rfc5444/rfc5444_msg_generator.c:1068-1136 | a run of TLVs takes exactly what the session thinks it costs, less the indices left out, and one byte more where short values need a long size field together |
| Estimates.TlvCostIs | core/contrib/oonf_api/rfc5444/rfc5444_msg_generator.c:973-996 | the cost of a TLV is what a run of one value takes that is for several addresses but not the whole block; no run of one value takes more |
| Estimates.AddressAdds | core/contrib/oonf_api/rfc5444/rfc5444_msg_generator.c:967-1057 | for every head length and every address, what the session adds is what the runs of the block cost more with it, and its counts are those of the runs |
| Estimates.ListInAccount | core/contrib/oonf_api/rfc5444/rfc5444_msg_generator.c:851-1066 | after any number of addresses the total of every candidate is the sum of what its blocks are thought to take |
| Estimates.FitsAtIff | core/contrib/oonf_api/rfc5444/rfc5444_msg_generator.c:324-336 | an address is kept in the fragment exactly if a candidate of at most 255 addresses and the blocks before it are thought to take no more than there is |
| SectionSizes.FitsIfEstimated | core/contrib/oonf_api/rfc5444/rfc5444_msg_generator.c:324-336 | the last address is kept only if the blocks that are sent in the end are thought to fit; up to 255 addresses, exactly then |
| SectionSizes.OneAddressTakes | core/contrib/oonf_api/rfc5444/rfc5444_msg_generator.c:945-963 | a block of one address takes no more than the session thinks |
| SectionSizes.SectionTakes | core/contrib/oonf_api/rfc5444/rfc5444_msg_generator.c:1213-1362 | blocks take exactly what the session thinks, plus the errors of prefix lengths and size fields, less common tails and indices left out |
| SectionSizes.PlenErrorIs | core/contrib/oonf_api/rfc5444/rfc5444_msg_generator.c:955-963 | the error is none for one prefix length; otherwise twice the addresses before the first change, less one if the first has a prefix |
| SectionSizes.SectionWithin | core/contrib/oonf_api/rfc5444/rfc5444_msg_generator.c:324-345 | every list kept in one fragment takes at most what there is and these errors |
| SectionSizes.WithinIff | core/contrib/oonf_api/rfc5444/rfc5444_msg_generator.c:324-345 | up to 255 addresses the section never takes more than there is if and only if what its blocks save makes up for these errors |
| SectionSizes.PlainListFits | core/contrib/oonf_api/rfc5444/rfc5444_msg_generator.c:324-345 | a list of one prefix length, no values of which need a long size field only together, never takes more than there is |
| SectionSizes.PrefixesOverrun | core/contrib/oonf_api/rfc5444/rfc5444_msg_generator.c:955-963 | two addresses of different prefix lengths are kept with 6 bytes left and take 8 |
| SectionSizes.ValuesOverrun | core/contrib/oonf_api/rfc5444/rfc5444_msg_generator.c:973-996 | three addresses of one prefix length, two with different values of 200 bytes, are kept with 412 bytes left and take 413 |
| Compression.Session.Link | core/contrib/oonf_api/rfc5444/rfc5444_msg_generator.c:1455-1472 | the walk leaves every block of the list at the address that starts it |
| Compression.Session.WriteAddresses | core/contrib/oonf_api/rfc5444/rfc5444_msg_generator.c:1213-1362 | the walk over the blocks writes the address section |
| LongLists.UniformIsOneBlock | core/contrib/oonf_api/rfc5444/rfc5444_msg_generator.c:850-1066 | three addresses or more without TLVs, of one prefix length, that share a head of exactly h bytes one after the other are sent in one block of that head, however many they are |
| LongLists.UniformFitsIff | core/contrib/oonf_api/rfc5444/rfc5444_msg_generator.c:324-336 | where the message has room for it and two blocks more, such a list is not fragmented exactly if its addresses have two bytes or more or there are at most 255 of them |
| Generator.CreateMessage | core/contrib/oonf_api/rfc5444/rfc5444_msg_generator.c:111-404 | a message is created exactly if no address fragments it and the section fits the buffer; where its size field holds it reads back as the header, TLVs and addresses given if and only if its blocks have at most 255 addresses and no address misleads the writer, so always for at most 255 addresses without a type twice; a list of one prefix length without values that only together need a long size field never takes more than there is |
| Generator.LongListIsLost | core/contrib/oonf_api/rfc5444/rfc5444_msg_generator.c:324-336 | a list that shares a head, of more than 255 addresses of two bytes or more, is not fragmented and does not read back |
| Generator.HostsAreLost | core/contrib/oonf_api/rfc5444/rfc5444_msg_generator.c:324-336 | as 10.0.0.0 to 10.0.0.255, or 10.0.0.0 to 10.0.255.0, with 1400 bytes left |
| TlvWriter.SizeIsRight | core/contrib/oonf_api/rfc5444/rfc5444_tlv_writer.c:165-181 | the size calculated for a TLV is the number of bytes written |
| TlvWriter.ParsesTlv | core/contrib/oonf_api/rfc5444/rfc5444_tlv_writer.c:193-232 | a written TLV is read back, for all indices |
| TlvWriter.WriteTlv | core/contrib/oonf_api/rfc5444/rfc5444_tlv_writer.c:193-232 | writes the encoding at the pointer and nothing else |
| TlvWriter.TlvData.Init | core/contrib/oonf_api/rfc5444/rfc5444_tlv_writer.c:66-77 | empties the counters |
| TlvWriter.TlvData.Add | core/contrib/oonf_api/rfc5444/rfc5444_tlv_writer.c:90-105 | succeeds exactly if header, added, allocated and the TLV fit; appends the TLV to those added, in the place of those set before |
| TlvWriter.TlvData.Allocate | core/contrib/oonf_api/rfc5444/rfc5444_tlv_writer.c:116-128 | succeeds exactly if the space fits; the total never exceeds the maximum |
| TlvWriter.TlvData.Set | core/contrib/oonf_api/rfc5444/rfc5444_tlv_writer.c:142-156 | succeeds exactly if the TLV fits what was allocated; what was added and what lies behind stays |
| Message.FinishMessage | core/contrib/oonf_api/rfc5444/rfc5444_msg_generator.c:1516-1525 | copies header, TLVs added, TLVs set and address section together with no gap, with right size fields |
| Message.HeaderLength | core/contrib/oonf_api/rfc5444/rfc5444_msg_generator.c:695-722 | the space set aside for the header is what it takes |
| Message.ReadsHeader | core/contrib/oonf_api/rfc5444/rfc5444_reader.c:1096-1142 | every combination of header fields is read back, and the TLV block comes next |
| HeaderGrammar.WrittenHeader | core/contrib/oonf_api/rfc5444/rfc5444_msg_generator.c:1370-1412 | a written header is laid out as one, with its flags, size and fields where a reader looks for them |
| HeaderGrammar.MessageRead | core/contrib/oonf_api/rfc5444/rfc5444_reader.c:1073-1149 | for any bytes: a message is read if and only if its header fits, with the fields its flags announce, and its body is read behind it |
| Message.ParsesTlvBlock | core/contrib/oonf_api/rfc5444/rfc5444_reader.c:558-609 | the message TLVs are read back and the address section begins right behind them |
| Message.MessageRoundTrip | core/contrib/oonf_api/rfc5444/rfc5444_reader.c:1073-1180 | header, message TLVs and the end of the message are recovered from every message that parses; the addresses and their TLVs exactly if every block is readable |
| Packet.Target.BeginPacket | core/contrib/oonf_api/rfc5444/rfc5444_pkt_generator.c:63-103 | a packet begins with the TLVs and the space its handlers asked for, as far as they fit |
| Packet.Target.AppendMessage | core/contrib/oonf_api/rfc5444/rfc5444_msg_generator.c:1544-1569 | a message goes right behind those in the packet |
| Packet.Target.Flush | core/contrib/oonf_api/rfc5444/rfc5444_pkt_generator.c:112-202 | sends exactly header, TLVs added, TLVs set and messages, with no gap; nothing if there is nothing and it is not forced |
| Packet.Compacts | core/contrib/oonf_api/rfc5444/rfc5444_pkt_generator.c:152-172 | writing the header and moving the messages down leaves no gap, with and without TLVs |
| Packet.HeaderRoundTrip | core/contrib/oonf_api/rfc5444/rfc5444_reader.c:157-182 | the packet header is read back, and the TLV block or the first message follows |
| HeaderGrammar.WrittenPacket | core/contrib/oonf_api/rfc5444/rfc5444_pkt_generator.c:112-172 | the first byte of a packet and where its number and the size of its TLVs are |
| HeaderGrammar.PacketRead | core/contrib/oonf_api/rfc5444/rfc5444_reader.c:157-182 | for any bytes: what a packet header says, and which error is given |
| Schedule.OverlapMeansShared | core/contrib/oonf_api/rfc5444/rfc5444_reader.c:366-381 | two consumer entries overlap exactly if some TLV belongs to both |
| Schedule.StepKeepsInvariant | core/contrib/oonf_api/rfc5444/rfc5444_reader.c:650-754 | each round leaves every entry with what a filter of the TLVs passed gives it |
| Schedule.MergeIsFilterIff | core/contrib/oonf_api/rfc5444/rfc5444_reader.c:623-754 | the merge equals a plain filter on all lists exactly if no type and extension belongs to two entries |
| Schedule.FilterIs | core/contrib/oonf_api/rfc5444/rfc5444_reader.c:650-754 | the filter holds in their order exactly the TLVs of the type asked for that are for the address and were not dropped |
| Schedule.MergeGivesWanted | core/contrib/oonf_api/rfc5444/rfc5444_reader.c:650-754 | whatever the entries ask for, the merge gives none of them a TLV it does not ask for, nor one twice |
| Schedule.ScheduleTlvBlock | core/contrib/oonf_api/rfc5444/rfc5444_reader.c:623-754 | the walk with pointers ends; the links of each entry spell its TLVs, which show their value for the address |
| Delivery.StoreKeepsOrder | core/contrib/oonf_api/rfc5444/rfc5444_reader.c:600-603 | a TLV put into the tree keeps it sorted |
| Delivery.StorePlace | core/contrib/oonf_api/rfc5444/rfc5444_reader.c:600-603 | a TLV goes right behind the first one of its type |
| Delivery.BlockIsSorted | core/contrib/oonf_api/rfc5444/rfc5444_reader.c:558-609 | whatever is parsed, the TLVs of a block are sorted as the walk needs them |
| Delivery.ConsumerGetsAttached | core/contrib/oonf_api/rfc5444/rfc5444_reader.c:623-754 | writer, reader and walk together: an entry gets for an address exactly the TLVs of its type that were attached there, with their values |
| Schedule.AddConsumer | core/contrib/oonf_api/rfc5444/rfc5444_reader.c:1290-1322 | the list is built by stable insertion |
| Schedule.ListedIsSorted | core/contrib/oonf_api/rfc5444/rfc5444_reader.c:1290-1322 | the list is sorted by type and extension and holds every entry once |
| Schedule.ListedIsStable | core/contrib/oonf_api/rfc5444/rfc5444_reader.c:1290-1322 | entries of one type and extension keep the order they were given in |
| Schedule.FixedTakes | core/contrib/oonf_api/rfc5444/rfc5444_reader.c:1319-1322 | a length range that ends before it starts is taken as its start |
| Json.ParsesString | core/contrib/cjson/cJSON.c:764-1012 | a printed string is read back, whatever was escaped |
| Json.Utf8RoundTrip | core/contrib/cjson/cJSON.c:706-757 | every Unicode code point is encoded so that its bytes tell it |
| Json.SurrogatesRoundTrip | core/contrib/cjson/cJSON.c:659-699 | a surrogate pair is read as its code point |
| JsonGrammar.UnicodeString | core/contrib/cjson/cJSON.c:606-757 | every code point written as one or two `\uXXXX`, with digits of either case, is read as its UTF-8 bytes |
| JsonGrammar.ParsedString | core/contrib/cjson/cJSON.c:764-889 | for any bytes: a string that is read is one of the grammar: plain bytes, one-letter escapes and code points; four bytes that are no digits count as 0, as in the source |
| JsonGrammar.WrittenString | core/contrib/cjson/cJSON.c:764-889 | and every string of the grammar is read, with what it stands for and where it ends |
| JsonGrammar.ParsedValue | core/contrib/cjson/cJSON.c:1303-1702 | for any bytes: a value that is read is one of the grammar, at most 1000 deep |
| JsonGrammar.WrittenValue | core/contrib/cjson/cJSON.c:1303-1702 | and every value of the grammar is read |
| JsonGrammar.ParsedText | core/contrib/cjson/cJSON.c:1070-1131 | a text that is read is one of the grammar, with nothing behind it where that is refused |
| JsonGrammar.WrittenText | core/contrib/cjson/cJSON.c:1070-1131 | and every such text is read |
| JsonValues.JsonRoundTrip | core/contrib/cjson/cJSON.c:1303-1816 | parsing either layout of a printed value gives the value back, exactly if it is nested at most 1000 deep |
| JsonValues.PrintInjective | core/contrib/cjson/cJSON.c:1358-1816 | different values are printed differently, across the layouts too |
| JsonLayout.FormattedIsPretty | core/contrib/cjson/cJSON.c:1358-1816 | for every value, the formatted text is the compact one with new lines, tabs and spaces put in by a scan that knows only which containers are open |
| JsonGrammar.EscapeIsShortest | core/contrib/cjson/cJSON.c:893-1012 | of all ways to write a byte without control characters the printer takes a shortest one |
| JsonBuffers.ParseBuffer.ReadString | core/contrib/cjson/cJSON.c:764-889 | the two passes over a string literal compute the string function |
| JsonBuffers.ParseBuffer.ReadValue | core/contrib/cjson/cJSON.c:1303-1355 | the descent gives the value, moves the offset behind it and restores the depth |
| JsonBuffers.ParseBuffer.ReadArray | core/contrib/cjson/cJSON.c:1432-1527 | the same for an array |
| JsonBuffers.ParseBuffer.ReadObject | core/contrib/cjson/cJSON.c:1592-1702 | the same for an object |
| JsonBuffers.ParseWithOpts | core/contrib/cjson/cJSON.c:1070-1131 | the entry point, with or without refusing trailing text |
| JsonBuffers.PrintBuffer.WriteString | core/contrib/cjson/cJSON.c:893-1012 | appends the escaped string, by copying or by escaping |
| JsonBuffers.PrintBuffer.WriteValue | core/contrib/cjson/cJSON.c:1358-1429 | appends the printed value and restores the depth |
| JsonBuffers.PrintText | core/contrib/cjson/cJSON.c:1178-1251 | prints a value in either layout; what is printed parses back exactly if it is nested at most 1000 deep |
| SiblingList.Item.AddItemToArray | core/contrib/cjson/cJSON.c:1947-1987 | appends the item; afterwards the head knows the tail |
| SiblingList.Item.InsertItemInArray | core/contrib/cjson/cJSON.c:2263-2290 | inserts at the place, or at the end, and keeps the links |
| SiblingList.Item.DetachItem | core/contrib/cjson/cJSON.c:2187-2221 | removes the item, clears its links and keeps those of the others |
| SiblingList.Item.DetachItemFromArray | core/contrib/cjson/cJSON.c:2223-2231 | the same by index; nothing for an index out of range |
| SiblingList.Item.ReplaceItem | core/contrib/cjson/cJSON.c:2292-2339 | puts the replacement where the item was and keeps the links |
| SiblingList.Item.GetArrayItem | core/contrib/cjson/cJSON.c:1842-1859 | the item at the index or null |
| SiblingList.Item.GetArraySize | core/contrib/cjson/cJSON.c:1819-1839 | the walk counts the items |
| Codes.EncodeTime | core/contrib/oonf_api/rfc5444/rfc5444.c:90-126 | the loops compute the time code |
| Codes.HalvedTime | core/contrib/oonf_api/rfc5444/rfc5444.c:106-115 | repeated round-up halving is one division by a power of two, rounded up |
| Codes.TimeCodeGalois | core/contrib/oonf_api/rfc5444/rfc5444.c:90-173 | for every time and every code: the code is at least the code of the time exactly if its value is at least the time, 255 standing for more than any |
| Codes.TimeValueMonotone | core/contrib/oonf_api/rfc5444/rfc5444.c:136-173 | values do not fall as codes rise |
| Codes.TimeCodePrecision | core/contrib/oonf_api/rfc5444/rfc5444.c:90-173 | coding rounds up by less than an eighth |
| Codes.EncodeMetric | core/contrib/oonf_api/rfc5444/rfc5444.c:185-220 | the loop computes the metric code |
| Codes.HalvedMetric | core/contrib/oonf_api/rfc5444/rfc5444.c:204-211 | repeated round-up halving is one division by a power of two, rounded up |
| Codes.MetricCodeGalois | core/contrib/oonf_api/rfc5444/rfc5444.c:185-230 | for every metric: its code is the least that reaches it; no code for 0 and for the infinite, the last one above the largest that can be coded |
| Codes.MetricExact | core/contrib/oonf_api/rfc5444/rfc5444.c:185-230 | all 4096 codes stand for metrics in range and are given back |
| SeqNums.NewerIsOne | core/contrib/oonf_api/rfc5444/rfc5444.c:239-250 | the comparisons of RFC 5444 and AODVv2 agree: newer is less than half the range ahead |
| SeqNums.HalfTheRange | core/contrib/oonf_api/rfc5444/rfc5444.h:95-115 | of two different numbers exactly one is newer, unless they are half the range apart |
| SeqNums.Counter.Increment | mesh/sys/net/aodvv2/aodvv2_seqnum.c:35-40 | the counter steps around 1 to 65535 and is never 0 |
| SeqNums.NewerAfter | mesh/sys/include/net/aodvv2/seqnum.h:65-69 | exactly 1 to 32766 increments make the counter newer wherever it started |
| McMsg.MessageSet.FindComparable | mesh/sys/net/aodvv2/aodvv2_mcmsg.c:102-116 | finds the first comparable live entry and clears only stale ones |
| McMsg.MessageSet.Add | mesh/sys/net/aodvv2/aodvv2_mcmsg.c:118-143 | stores in the first unused entry, if there is one |
| McMsg.MessageSet.Process | mesh/sys/net/aodvv2/aodvv2_mcmsg.c:156-223 | keeps one entry per key, touches no other key, and calls a message redundant exactly if the number stored is newer, or the same with the same metric |
| McMsg.StepsForward | mesh/sys/net/aodvv2/aodvv2_mcmsg.c:172-199 | while an entry lives, a message that is no older puts its number and metric there, and an older one changes only the timing; after its removal time exactly an older message takes the number back |
| McMsg.LookupLater | mesh/sys/net/aodvv2/aodvv2_mcmsg.c:39-53 | nothing but time passing: what is stored stays until its removal time |
| McMsg.RunIsRegister | mesh/sys/net/aodvv2/aodvv2_mcmsg.c:156-223 | over every run of messages and times the set is, for each key, a register that forgets: whatever comes between and whichever stale entries were cleared when |
| McMsg.GapForgets | mesh/sys/net/aodvv2/aodvv2_mcmsg.c:39-53 | over every run, a message that comes later than the lifetime after the one before of its key finds nothing stored |
| McMsg.RepetitionIsRedundant | mesh/sys/net/aodvv2/aodvv2_mcmsg.c:172-192 | over every run, repeating a message that was taken in is redundant until its removal time, whatever messages of other keys and redundant ones come between; only the timing changes |
| McMsg.NewestIsStored | mesh/sys/net/aodvv2/aodvv2_mcmsg.c:156-223 | over every run within half the range in which no message of the key comes too late, the newest number seen is stored, with the metric of the last message that had it, until the lifetime has passed since the last message, and then nothing |
| Flood.Reader.RreqAddress | mesh/sys/net/aodvv2/aodvv2_reader.c:312-376 | an address of a request is refused exactly if one of metric and originator number comes without the other; what it does not say is left as it was |
| Flood.Reader.RrepAddress | mesh/sys/net/aodvv2/aodvv2_reader.c:136-189 | an address of a reply never changes the metric of the target: the metric received is stored for the originator |
| Flood.Reader.Receive | mesh/sys/net/aodvv2/aodvv2_reader.c:118-376 | the callbacks in their order change what the reader remembers and send what the router says |
| Flood.Reader.EndRreq | mesh/sys/net/aodvv2/aodvv2_reader.c:378-494 | a request goes on, or a reply back, exactly if both addresses and the number are there, hops are left, the metric can grow, and neither the set of messages nor a route that is no worse stops it; its way is one hop longer |
| Flood.Reader.EndRrep | mesh/sys/net/aodvv2/aodvv2_reader.c:191-292 | a reply goes on exactly if both addresses and numbers are there, the metric can grow, the router did not ask for it itself and has no route that is no worse; it is the metric left over for the target that grows by the hop and goes out |
| Flood.MetricGoesToOrig | mesh/sys/net/aodvv2/aodvv2_reader.c:175-187 | whatever the message, its metric ends up with the originator and that of the target is left over |
| Flood.OneHopLess | mesh/sys/net/aodvv2/aodvv2_reader.c:294-310 | whatever the router remembers, a message causes at most one, with one hop less; a reply never causes a request |
| Flood.RequestKeepsSum | mesh/sys/net/aodvv2/aodvv2_reader.c:405-419 | hops behind, as the metric tells, and hops to go of a request keep their sum |
| Flood.ReplyKeepsSumIff | mesh/sys/net/aodvv2/aodvv2_reader.c:183-222 | those of a reply do exactly if the metric left over for the target equals the one received |
| Flood.FirstReplyLosesMetric | mesh/sys/net/aodvv2/aodvv2_reader.c:183-222 | the first reply a router hears goes on with metric 1, whatever metric it came with |
| Flood.WrittenIsHeard | mesh/sys/net/aodvv2/aodvv2_writer.c:90-163 | the next router hears exactly the addresses, numbers and metric of what a router sends, the metric of a reply with the originator |
| Flood.RequestGoesOnIff | mesh/sys/net/aodvv2/aodvv2_reader.c:378-494 | whatever the next router remembers, a request written by one goes on there or is answered exactly if hops and metric are left, it is not redundant and the router has no route that is no worse |
| Flood.ReplyGoesOnIff | mesh/sys/net/aodvv2/aodvv2_reader.c:191-292 | the same of a reply |
| Flood.RequestTravels | mesh/sys/net/aodvv2/aodvv2_reader.c:378-494 | along every line of routers that know no better a request goes on for as many hops as its limit and metric leave, counts them, and is answered by the router of the target |
| Flood.ReplyTravels | mesh/sys/net/aodvv2/aodvv2_reader.c:191-292 | along every line of routers that know no better a reply goes back for as many hops as its limit leaves and their leftovers can grow |
| Flood.Leftover | mesh/sys/net/aodvv2/aodvv2_reader.c:214-222 | an answered request clears the metric left over, other requests keep it, a reply adds at most one and exactly one if it goes on |
| Flood.RepliesRunOut | mesh/sys/net/aodvv2/aodvv2_reader.c:214-222 | over every run of messages a router passes on at most 254 replies, and 254 more for each request it answers |
| Flood.EventLowersWeight | mesh/sys/net/aodvv2/aodvv2_reader.c:118-494 | a reception or loss lowers the sum of (n+1)^hops over the copies on their way |
| Flood.FloodsDieOut | mesh/sys/net/aodvv2/aodvv2_reader.c:118-494 | in any network of n routers finitely many requests cause finitely many receptions, replies included |

## Left out

- Tree keys are integers and the comparison is subtraction of order; a comparator that is not a total order is not modelled.
- The head of a ring is a node like the others, and the count of a tree is not bounded by 32 bits.
- The iteration and remove-all macros of the tree: loops of the operations that are here.
- Compression.Session.Compress: stops where the message would be fragmented; messages of several fragments are not modelled.
- Generator.CreateMessage: one fragment; compares the address section with the space in the buffer, where the source trusts its estimate of the size; `SectionWithin` says how far that is off.
- AddressBlocks.AddressBlockRoundTrip: needs blocks of at most 255 addresses, as the count is one byte; `LongIsLost` and `LongListIsLost` say what becomes of longer ones.
- McMsg.MessageSet.Process: for messages without a SeqNoRtr address; others are never comparable with what is stored, so each takes a new entry.
- Packet.Target.AppendMessage: that the message fits behind the allocated space is the caller's part.
- Packet.Target.Flush: without post-processors, and with the sequence number set when the packet begins.
- Schedule.ScheduleTlvBlock: without mandatory entries, TLV callbacks and values copied for the consumer.
- JsonBuffers.ParseBuffer.ReadValue: without numbers.
- JsonBuffers.ParseWithOpts: does not give the position where the parsed text ends.
- JsonBuffers.PrintBuffer.WriteValue: without numbers and raw items.
- SiblingList.Item.AddItemToArray: the item brings no others with it; the source would append those behind it too.
- SiblingList.Item.InsertItemInArray: likewise where the item goes to the end.
- Flood.Reader.Receive: prefix lengths, the sender and the time stamp are left out.
- Flood.WrittenIsHeard: which byte of a sequence number the reader looks at is an input.
- Neighbours with equal address bytes and different prefix lengths: the session would look at the slot behind its last one. `HeadIsLongest` says exactly when.
- Flood.Reader.EndRreq: whether the message is redundant and what the route set says are inputs; the update of the route set is not modelled.
- Flood.Reader.EndRrep: likewise; that there is a next hop back to the originator is not checked, as in the source.
- The order of packet TLVs in the reader, whose tree compares more bits than a key has; post-processors and several targets.
- A TLV that runs past the end of its block but not of the buffer is accepted, as in the source.
- cJSON numbers, raw and reference items, allocation failures, comparison and minifying. A text with a number does not parse in the model.
- A string that would begin behind the end of a buffer does not parse in the model; the source looks at the byte there.
- The AODVv2 local route set, timers, sockets and everything of the operating system.
