# Wi-Fi driver and DHCP/DNS server: a verified model

This project models, in Dafny, the parts of the Wi-Fi driver (`wifidriver/`) and of the small DHCP and DNS server
(`dhcpd/`) whose behaviour is hardest to see from the code, and proves what they keep over whole runs.

| files | what they model |
|---|---|
| `RxReorderModel`, `RxReorderTable`, `RxReorderLemmas`, `RxReorderRuns`, `RxReorderOrder`, `RxReorderStartUp`, `RxReorderAccept` | the receive reorder buffer of one (transmitter, TID) pair: section 10.24.7.6 of IEEE Std 802.11-2016 |
| `Amsdu` | forming an A-MSDU, counting its subframes, and unpacking it in its own buffer: section 9.3.2.2 of IEEE Std 802.11-2016 |
| `DhcpModel`, `DhcpSearch`, `DhcpRuns`, `DhcpAcks`, `DhcpRoom`, `DhcpReplies`, `DhcpServer`, `DhcpMessages` | the lease table, the address search, the option loop and the replies: sections 4.3.1 and 4.3.2 of RFC 2131 |
| `Subbands`, `LearnedChannels`, `ScanRoom`, `ScanOverrun`, `CountryLearned` | Country element triples (section 9.4.2.9 of IEEE Std 802.11-2016) and the channel table learned from a scan |
| `DnsNames`, `DnsServer`, `DnsAnswers` | the QNAME encoder, the two label walks and the answers: sections 3.1, 4.1.2 and 4.1.4 of RFC 1035 |
| `BeaconReport` | splitting beacon reports of a scan table over a bounded buffer |
| `Bits`, `Bytes`, `Seqs` | machine words, buffers and sequences |

Where the driver works step by step, the model does: a class or an array method with the driver's loops and
comparisons, proved against a function on values. What the driver promises is then proved about those functions. A
long C function is split into several methods; the row of each cites its part. What a function of the model
comes to is said outright by lemmas, in numbers and bytes. Where the source would read or write outside an array, or
search for ever, the method stops and says so, and when it does is proved exactly.

**The reorder buffer.** `RxReorderModel` says what each event does in terms of distances on the circle of 4096
sequence numbers; `RxReorderTable.Entry` does it with the driver's comparisons, slot array and bitmap. `laps` and
`log` are ghost state: they unwrap the window start and record what is dispatched. The unmasked window start 4096
after start-up and the flush of the whole window on a move past 4095 are kept as they are. The second one breaks
ordered delivery: `OrderedExactlyWhenSafe` gives the exact condition, which can be checked before the event, and
`WrapFlushesAhead` an input on which it fails. How long start-up lasts, what goes out while it does and where the
window then starts is in `RxReorderStartUp`; `RxReorderAccept` says which arrivals are accepted and what every event
leaves in the buffer.

**A-MSDU.** Unpacking in place visits the same subframes as the counter before it, for any content. It delivers the
frames a copying parser would exactly when no delivered subframe follows a SNAP header that does not fit its own
subframe and whose source address changes the next one (`InPlaceIsFaithful`). What the driver forms is never of that
kind. `FormAmsduPkt`, `VisitsChained` and `DeliveredOutright` give the bytes. The parser does not check that a subframe
lies in its buffer; `ReachExactly` says when none reaches out of it, and `OutsideExample` is one that does.

**DHCP.** Addresses are in host order and the netmask is contiguous. The search for an address ends exactly when the
leases and the reserved addresses are fewer than the subnet has (`HasFreeExactly`); `HangExample` is a run to one that
does not. Once the table is full, an address is offered without being recorded; two offers in a row still differ
(`OffersDiffer`). With two different addresses in one request the verdict on the first can outlive the second
(`TwoAddressesUnsound`); `AckSoundExactly` says for every request when it does. With one address the answer is
characterised exactly (`AckExactly`).

## Model

| member | source | states |
|---|---|---|
| RxReorderTable.WindowArithmetic | wifidriver/mlan_11n_rxreorder.c:851-944 | for every window start up to the unmasked 4096: the staleness test refuses exactly forward distances above 2048, and 2048 itself when the start is in the upper half; the outside test, the new start and the insert index are what distances say, and after a move the index is the last slot |
| RxReorderTable.MoveArithmetic | wifidriver/mlan_11n_rxreorder.c:886-944 | with a BAR's number replaced by the window end it asks for, the driver moves the window, chooses the new start and the slot as the model does |
| RxReorderTable.StartUpArithmetic | wifidriver/mlan_11n_rxreorder.c:826-833 | the start-up test on the last forwarded number accepts exactly those inside the window, its last slot excepted |
| RxReorderTable.RebaseArithmetic | wifidriver/mlan_11n_rxreorder.c:824-847 | the driver's two tests adopt the last forwarded number exactly if it lies in the window, its last slot excepted, or between the arrival and the window start |
| RxReorderTable.Entry.constructor | wifidriver/mlan_11n_rxreorder.c:445-500 | a new entry satisfies the invariant: empty, in start-up, timer off |
| RxReorderTable.Entry.Rotate | wifidriver/mlan_11n_rxreorder.c:171-176 | for a shift of at least one, the loop moves all slots down and fills with empty ones |
| RxReorderTable.Entry.DispatchFirst | wifidriver/mlan_11n_rxreorder.c:146-164 | empties the first slots and dispatches what they held, in slot order |
| RxReorderTable.Entry.DispatchPktUntilStartWin | wifidriver/mlan_11n_rxreorder.c:137-185 | a window move: which slots are flushed, what stays where, bitmap and start; nothing else changes |
| RxReorderTable.Entry.DispatchRun | wifidriver/mlan_11n_rxreorder.c:261-273 | dispatches exactly the run of full slots at the front |
| RxReorderTable.Entry.ScanAndDispatch | wifidriver/mlan_11n_rxreorder.c:252-297 | refines the scan: the run goes out and the start moves past it, modulo 4096 |
| RxReorderTable.Entry.FindLastSeqNum | wifidriver/mlan_11n_rxreorder.c:353-368 | the last full slot, or -1 if there is none |
| RxReorderTable.Entry.FlushData | wifidriver/mlan_11n_rxreorder.c:377-410 | a timer firing keeps the invariant and always leaves slots and bitmap empty and the timer off |
| RxReorderTable.Entry.ReAddba | wifidriver/mlan_11n_rxreorder.c:439-443 | a repeated ADDBA moves the window to its number and keeps the invariant |
| RxReorderTable.Entry.FreeRxReorderPkt | wifidriver/mlan_11n_rxreorder.c:194-223 | frees every held frame once and leaves the slots empty |
| RxReorderTable.Entry.Delete | wifidriver/mlan_11n_rxreorder.c:308-344 | at the end what is held is dispatched, or freed in a reset, and nothing is left |
| RxReorderTable.Entry.SettleTimerFlag | wifidriver/mlan_11n_rxreorder.c:958-968 | afterwards the timer is armed iff the bitmap is not zero |
| RxReorderTable.Entry.ForwardEarly | wifidriver/mlan_11n_rxreorder.c:803-821 | an early frame is forwarded unless it repeats the last one |
| RxReorderTable.Entry.AdoptLastSeq | wifidriver/mlan_11n_rxreorder.c:823-847 | when and how the start is rebased at the end of start-up, unmasked |
| RxReorderTable.Entry.CheckStartWin | wifidriver/mlan_11n_rxreorder.c:794-849 | refines start-up and keeps the invariant; how long that lasts is `StartUpExactly` |
| RxReorderTable.Entry.MoveWindow | wifidriver/mlan_11n_rxreorder.c:886-915 | refines the window move and leaves the local variables such that the insert index is the model's slot |
| RxReorderTable.Entry.Insert | wifidriver/mlan_11n_rxreorder.c:921-968 | a frame is stored, or refused if its slot is taken, and the run at the front is dispatched |
| RxReorderTable.Entry.AdmitPkt | wifidriver/mlan_11n_rxreorder.c:886-968 | window move, insertion and scan together |
| RxReorderTable.Entry.ReorderPkt | wifidriver/mlan_11n_rxreorder.c:851-972 | refines the reordering from the staleness test on |
| RxReorderTable.Entry.RxReorderPkt | wifidriver/mlan_11n_rxreorder.c:758-972 | the whole arrival: keeps the invariant, and new state, dispatches and verdict are the model's |
| RxReorderLemmas.FlushInv | wifidriver/mlan_11n_rxreorder.c:137-185 | every window move keeps the invariant, wrapped or not |
| RxReorderLemmas.ScanInv | wifidriver/mlan_11n_rxreorder.c:252-297 | the scan restores the invariant after a frame was stored, also from the unmasked start 4096 |
| RxReorderLemmas.MovedSlotIsFree | wifidriver/mlan_11n_rxreorder.c:897-945 | after a move the last slot is free |
| RxReorderLemmas.ApplyInv | wifidriver/mlan_11n_rxreorder.c:377-972 | every event keeps the invariant |
| RxReorderLemmas.BitmapBits | wifidriver/mlan_11n_rxreorder.c:178-180 | bit i of the bitmap a slot sequence calls for is set iff slot i is full |
| RxReorderRuns.ReachableWellKept | wifidriver/mlan_11n_rxreorder.c:424-972 | over every run from a fresh agreement: a frame in slot i has number start + i modulo 4096 and the timer is armed; bit i of the bitmap iff slot i is full; nothing is held during start-up or while the start is 4096 |
| RxReorderRuns.Conservation | wifidriver/mlan_11n_rxreorder.c:137-972 | over every run, the frames held before and handed in are those dispatched, refused and held after, counted with multiplicity |
| RxReorderRuns.ConservationToTheEnd | wifidriver/mlan_11n_rxreorder.c:194-344 | from an empty buffer to its deletion every frame is dispatched once, refused, or freed in a reset |
| RxReorderRuns.NothingStranded | wifidriver/mlan_11n_rxreorder.c:353-410 | after an arrival that goes through the window the timer is armed iff something is held, and the front slot is empty if the arrival was accepted; a firing timer empties the buffer |
| RxReorderStartUp.StartUpForwards | wifidriver/mlan_11n_rxreorder.c:803-821 | while start-up lasts every arrival is counted, exactly the frames that do not repeat the number before them go out, each forwarded at once, and the others are refused |
| RxReorderStartUp.StartUpExactly | wifidriver/mlan_11n_rxreorder.c:794-849 | over every run of arrivals from a fresh agreement: start-up lasts iff fewer than half a window of them have come and none had the agreed number; until then the output is the frames forwarded and nothing is held |
| RxReorderStartUp.StartAdopted | wifidriver/mlan_11n_rxreorder.c:823-847 | the start after start-up, in numbers modulo 4096: when the number behind the last one forwarded is adopted, and that it is not masked |
| RxReorderStartUp.StartUpExample | wifidriver/mlan_11n_rxreorder.c:794-849 | window 4 from 100: of the frames 102, 103, 105 the first is forwarded, the second delivered through the window, and the third held |
| RxReorderAccept.AcceptedExactly | wifidriver/mlan_11n_rxreorder.c:851-945 | an arrival is accepted iff it is less than half the circle ahead, the opposite point as told, or that test is switched off once, and no held frame has its number |
| RxReorderAccept.AcceptedLeaves | wifidriver/mlan_11n_rxreorder.c:868-953 | every slot and the start after an accepted arrival: a frame outside the window becomes its last number, a BAR its first, a move past 4095 keeps nothing, and the run at the front is gone |
| RxReorderAccept.TimerLeaves | wifidriver/mlan_11n_rxreorder.c:353-410 | a firing timer leaves the start one behind the last number held, modulo 4096, and nothing held |
| RxReorderAccept.ReAddbaLeaves | wifidriver/mlan_11n_rxreorder.c:439-443 | a repeated ADDBA leaves its own number as the start, and what the window still covers only after a move forward that does not pass 4095 |
| RxReorderAccept.SleepAccepts | wifidriver/mlan_11n_rxreorder.c:861-866 | after a host sleep the next arrival is accepted however old, unless its number is held |
| RxReorderAccept.BypassExactly | wifidriver/mlan_11n_rxreorder.c:779-784 | an A-MSDU of an agreement without A-MSDUs goes up at once and changes nothing |
| RxReorderRuns.MoverAccepted | wifidriver/mlan_11n_rxreorder.c:897-945 | a frame that moves the window is never dropped as a duplicate |
| RxReorderRuns.BarMovesStart | wifidriver/mlan_11n_rxreorder.c:868-953 | after an accepted BAR with number s the start is s plus the run of frames held from s on; the one other case needs the staleness test switched off |
| RxReorderOrder.OrderedDelivery | wifidriver/mlan_11n_rxreorder.c:851-956 | over every safe run, frames come out at strictly increasing unwrapped numbers between the old and the new window start: in order, without duplicates |
| RxReorderOrder.AcceptedIsDelivered | wifidriver/mlan_11n_rxreorder.c:851-956 | an accepted frame goes out, at the latest at the next timer firing and whatever events come before it, at the place its number has ahead of the start |
| RxReorderOrder.HeldIsDelivered | wifidriver/mlan_11n_rxreorder.c:137-410 | over every run up to a timer firing a held frame is dispatched at the position of its slot |
| RxReorderOrder.DeliveredAtTrueNumber | wifidriver/mlan_11n_rxreorder.c:868-877 | for a transmitter number less than half the circle away, exactly the frames behind the start are refused, and an accepted one is delivered at that number |
| RxReorderOrder.UnsafeRepeats | wifidriver/mlan_11n_rxreorder.c:146-148 | after a flush ahead of the window a retransmission is delivered a second time |
| RxReorderOrder.OrderedExactlyWhenSafe | wifidriver/mlan_11n_rxreorder.c:146-148 | every safe continuation stays ordered iff the event does not move the window past 4095 while a frame is held at or beyond the new start |
| RxReorderOrder.WrapFlushesAhead | wifidriver/mlan_11n_rxreorder.c:146-148 | a run from a fresh agreement and a next frame for which it does |
| Amsdu.FormAmsduPkt | wifidriver/mlan_11n_aggr.c:156-194 | writes exactly the subframe, byte by byte: addresses, length, aa aa 03 00 00 00, the frame from its type field on, zeros to a multiple of four; and nothing else |
| Amsdu.GetNumAggrPkts | wifidriver/mlan_11n_aggr.c:46-63 | ends, and counts the subframes the length fields chain, unless a header lies outside the buffer |
| Amsdu.CountOffsets | wifidriver/mlan_11n_aggr.c:46-114 | the count is the number of frames delivered, plus one exactly when the length check breaks out |
| Amsdu.UnpackInPlace | wifidriver/mlan_11n_aggr.c:120-131 | after the overlapping move the frame stands in the buffer as it was sent |
| Amsdu.InPlaceVisits | wifidriver/mlan_11n_aggr.c:46-148 | for any content the in-place parser visits exactly the offsets the counter counted before, in order, up to the overlong subframe where it stops |
| Amsdu.InPlaceIsFaithful | wifidriver/mlan_11n_aggr.c:103-148 | the same, and it delivers the frames a copying parser would iff no delivered subframe is changed by a SNAP header running into it |
| Amsdu.DisturbedExample | wifidriver/mlan_11n_aggr.c:120-131 | an aggregate of two subframes for which it does not |
| Amsdu.SlackIsEnough | wifidriver/mlan_11n_aggr.c:103-148 | with 19 bytes behind the aggregate nothing outside the buffer is read or written, whatever the content |
| Amsdu.ReachExactly | wifidriver/mlan_11n_aggr.c:103-148 | the highest byte the walk over the changing buffer touches is in the buffer iff the original bytes say that no header or claim reaches out of it |
| Amsdu.OutsideExample | wifidriver/mlan_11n_aggr.c:110-114 | an aggregate that passes the length check and reaches out of its buffer |
| Amsdu.Deaggregate | wifidriver/mlan_11n_aggr.c:77-153 | for every buffer: it reaches out of the buffer iff the bytes say so, and otherwise delivers, in order, what the bytes of the subframes say, with the counter's value and the verdict |
| Amsdu.VisitsChained | wifidriver/mlan_11n_aggr.c:103-148 | the subframes visited, said of the original bytes: each at the next multiple of four behind what the one before claims, up to the end or one that claims more than is left |
| Amsdu.DeliveredOutright | wifidriver/mlan_11n_aggr.c:120-140 | each frame delivered, said of the original bytes: behind aa aa 03 00 00 00 without those and the length, else with the length set to zero; its first four bytes may be the previous subframe's |
| Amsdu.RoundTrip | wifidriver/mlan_11n_aggr.c:77-194 | reading the printed subframes gives every list of frames back, with the last padding present or not, and touches nothing outside them |
| Amsdu.FormThenDeaggregate | wifidriver/wifi.c:2747-2768 | former and in-place parser undo each other in a buffer of just the aggregate's size, the last padding dropped or not, if what is sent is within the receive limit |
| DhcpServer.Dhcps.constructor | dhcpd/dhcp-server.c:612-660 | an empty, sound table |
| DhcpServer.Dhcps.AcAdd | dhcpd/dhcp-server.c:43-59 | appends a binding, or reports that the table is full and changes nothing |
| DhcpServer.Dhcps.AcLookupMac | dhcpd/dhcp-server.c:61-78 | the address of the first binding of a client, or not found |
| DhcpServer.Dhcps.AcLookupIp | dhcpd/dhcp-server.c:80-92 | the client of the first binding of an address, or none |
| DhcpServer.Dhcps.AcValidIp | dhcpd/dhcp-server.c:100-115 | not the server's, network or broadcast address, and not bound |
| DhcpServer.Dhcps.Search | dhcpd/dhcp-server.c:155-159 | the unbounded loop ends, at the first assignable candidate, an address of the subnet |
| DhcpServer.Dhcps.NextYiaddr | dhcpd/dhcp-server.c:143-171 | offers the client's own address or an assignable one, records it, keeps the table sound |
| DhcpServer.Dhcps.JudgeAddress | dhcpd/dhcp-server.c:348-402 | the verdict on the client's address, and the binding it makes |
| DhcpServer.Dhcps.ScanOne | dhcpd/dhcp-server.c:313-411 | one turn of the option loop is one step of the model's scan |
| DhcpServer.Dhcps.ScanMessage | dhcpd/dhcp-server.c:311-412 | the loop over the bytes is the scan of the options they encode |
| DhcpServer.Dhcps.ProcessDhcpMessage | dhcpd/dhcp-server.c:268-427 | for every message: header errors change nothing; the search goes on for ever iff the request meets a full subnet; otherwise table and answer are the model's, the kind of reply is what the header and the message types say, and the table stays sound |
| DhcpSearch.Masks | dhcpd/dhcp-server.c:105-106 | with a contiguous netmask, masking is the remainder modulo the subnet size and its complement |
| DhcpSearch.NextIs | dhcpd/dhcp-server.c:155-158 | the next candidate is the network address plus the next host number modulo the subnet size |
| DhcpSearch.CandidateIs | dhcpd/dhcp-server.c:155-159 | the j-th candidate, in closed form |
| DhcpSearch.FreeIsFound | dhcpd/dhcp-server.c:156-159 | one of the first count + 4 candidates is assignable, if any address of the subnet is |
| DhcpSearch.RoomLeavesFree | dhcpd/dhcp-server.c:100-115 | with count + 3 below the subnet size an assignable address is left |
| DhcpSearch.SearchEndsExactly | dhcpd/dhcp-server.c:143-171 | the search ends iff the subnet has an assignable address left, and then within count + 4 candidates |
| DhcpRoom.HasFreeExactly | dhcpd/dhcp-server.c:100-115 | an assignable address is left iff the leases and the distinct reserved addresses are fewer than the subnet has |
| DhcpRoom.SearchEndsByCount | dhcpd/dhcp-server.c:143-171 | so the search ends iff the count leaves an address |
| DhcpRoom.HangsExactly | dhcpd/dhcp-server.c:156-159 | the server never answers exactly the discoveries of clients without a lease that meet a full subnet |
| DhcpRoom.HangExample | dhcpd/dhcp-server.c:156-159 | a run of one request in a subnet of four addresses after which a discovery is never answered |
| DhcpReplies.ReplyExactly | dhcpd/dhcp-server.c:313-426 | no reply iff there is neither a discovery nor a request among the options; an offer iff there is a discovery and no request; an ACK or a NAK iff there is a request |
| DhcpReplies.TableAfter | dhcpd/dhcp-server.c:143-171 | what each reply leaves: the first usable address a client without a lease names is recorded while there are fewer than 8; an offer to one that still has none is, too, and is where the next search starts |
| DhcpReplies.OfferedInTurn | dhcpd/dhcp-server.c:143-171 | a client without a lease is offered the first assignable address behind the one offered last, going round the subnet |
| DhcpReplies.OffersDiffer | dhcpd/dhcp-server.c:143-171 | two offers in a row to clients without a lease differ if two addresses are assignable, also with a full table |
| DhcpMessages.HeaderExactly | dhcpd/dhcp-server.c:279-303 | which messages are turned away, and why, from the length and the first three bytes |
| DhcpMessages.RequestRead | dhcpd/dhcp-server.c:313-412 | client, address field and every option are read from their bytes, whatever else the message holds |
| DhcpMessages.MessageRead | dhcpd/dhcp-server.c:268-412 | reading a printed request gives the request back, whatever stands behind it |
| DhcpRuns.ServeSound | dhcpd/dhcp-server.c:268-427 | one request keeps bound clients and addresses distinct and assignable, the count at most 8, and only appends |
| DhcpRuns.RunSound | dhcpd/dhcp-server.c:43-98 | over every sequence of requests the table stays sound, no entry is changed or removed, and there are at most 8 |
| DhcpRuns.BoundForever | dhcpd/dhcp-server.c:143-171 | whatever requests came in between, and whatever options its own has, a bound client is never offered another address |
| DhcpRuns.DiscoveryOffered | dhcpd/dhcp-server.c:313-412 | and its discovery is answered by that offer |
| DhcpRuns.LargeSubnetNeverHangs | dhcpd/dhcp-server.c:143-171 | in a subnet of more than 11 addresses no sequence of requests makes the search endless |
| DhcpRuns.AckExactly | dhcpd/dhcp-server.c:313-412 | a request with one address is acknowledged iff the address is in the subnet and the client's own, or assignable if it has none; otherwise refused |
| DhcpRuns.AckSound | dhcpd/dhcp-server.c:185-186 | an acknowledged address is in the subnet, not reserved, and bound to no other client |
| DhcpRuns.OtherAddressNak | dhcpd/dhcp-server.c:351-372 | a client bound to another address is refused, whatever options surround the request |
| DhcpAcks.AnswerExactly | dhcpd/dhcp-server.c:313-412 | the answer to every request, from the addresses it supplies and the table it meets: the last one is acknowledged iff they are granted |
| DhcpAcks.AckSoundExactly | dhcpd/dhcp-server.c:348-402 | for every request, the answer is sound iff it has no address, or the last one is in the subnet and settled by a lease or its being free, or the addresses before it are not granted |
| DhcpAcks.ScanTracks | dhcpd/dhcp-server.c:311-412 | after any number of options, verdict and lease table are what the addresses supplied so far call for |
| DhcpRuns.TwoAddressesUnsound | dhcpd/dhcp-server.c:348-402 | with a second address outside the subnet, that address is acknowledged |
| DhcpRuns.TwoAddressesExample | dhcpd/dhcp-server.c:348-402 | a configuration and a request for which it is |
| Subbands.CompressionUnique | wifidriver/mlan_11d.c:285-349 | a channel list has only one compression into non-empty, maximal runs |
| Subbands.GenerateDomainInfo | wifidriver/mlan_11d.c:285-349 | the generated triples are that compression, and the rest of the array is cleared |
| Subbands.GetChan | wifidriver/mlan_11d.c:419-468 | the k-th channel from the first on in the band's table, or none |
| Subbands.AppendTriple | wifidriver/mlan_11d.c:923-946 | the rows of one triple, up to the capacity, and the last channel |
| Subbands.ParseDomainInfo | wifidriver/mlan_11d.c:880-958 | fails exactly on a missing code or a short length; otherwise the rows are the parsed channels and the others are untouched |
| Subbands.ListedIsExpanded | wifidriver/mlan_11d.c:419-468 | a triple whose channels are in a universal table is parsed to exactly its channels |
| Subbands.ParseInvertsCompress | wifidriver/mlan_11d.c:880-958 | triples that stand for a strictly increasing list from either universal table, compressed or not, are parsed to that list |
| Subbands.CompressThenParse | wifidriver/mlan_11d.c:285-349 | the driver's own loops, one after the other, give channels and powers back |
| Subbands.TableByBits | wifidriver/mlan_11d.c:426-443 | bits 0, 1 and 3 of a band select the 2.4 GHz table, else bits 2 and 4 the 5 GHz table |
| Subbands.AjChannels | wifidriver/mlan_11d.c:68-76 | the 31 channels of the 5 GHz table, in order, by rule |
| CountryLearned.SegmentsParsed | wifidriver/mlan_11d.c:912-949 | triples that start in a table, each beyond the last channel of the one before, are parsed to their segments of the table, as far as there is room |
| CountryLearned.NoCountry | wifidriver/mlan_11d.c:1353-1365 | an access point without a Country element teaches its own channel only |
| CountryLearned.CountrySegments | wifidriver/mlan_11d.c:478-545 | so an access point's Country element teaches exactly those segments, of at most 40 channels |
| CountryLearned.CountryExpanded | wifidriver/mlan_11d.c:478-545 | and all channels its triples stand for, whatever their number, if these ascend in the band's table |
| CountryLearned.EveryNamedChannel | wifidriver/mlan_11d.c:1341-1382 | after a 2.4 GHz scan every channel that any access point's triples stand for has its row, with the triple's power if it is the last one's |
| LearnedChannels.SightRow | wifidriver/mlan_11d.c:360-406 | a sighting with a power leaves the lower of the two and marks the row seen; one without leaves it alone |
| LearnedChannels.ListedRow | wifidriver/mlan_11d.c:497-536 | a listed channel has the listed power afterwards, and is seen only if it was |
| LearnedChannels.SightLookup | wifidriver/mlan_11d.c:360-406 | a bare sighting only lowers the power of its channel and band, marks it seen, and changes no other |
| LearnedChannels.MergeLookup | wifidriver/mlan_11d.c:497-536 | a country element overrides the power of the channels it lists, and changes no other; one row per channel and band |
| LearnedChannels.LearnLookup | wifidriver/mlan_11d.c:1353-1365 | one scan entry does both, in that order |
| LearnedChannels.LearnedTable | wifidriver/mlan_11d.c:1353-1365 | what a scan teaches, if there is room: one row per channel and band, saying exactly what the entries made of it |
| LearnedChannels.ParsedAscends | wifidriver/mlan_11d.c:912-949 | in the 2.4 GHz table the parsed channels are strictly ascending, whatever the triples |
| LearnedChannels.SortIsStable | wifidriver/mlan_11d.c:576-601 | the sort is an ascending permutation that keeps the order of rows of the same channel |
| LearnedChannels.SortLookup | wifidriver/mlan_11d.c:576-601 | the sort keeps one row per channel and band, and what it says |
| LearnedChannels.RoomHoldsAll | wifidriver/mlan_11d.c:1353-1365 | if every learned row finds room, the driver's table of 40 holds all that is learned, and nothing is written past it |
| LearnedChannels.ScanLearned | wifidriver/mlan_11d.c:1341-1382 | all of it for a 2.4 GHz scan with room: ascending, one row per channel and band, each as the entries made it |
| ScanOverrun.FitsExactly | wifidriver/mlan_11d.c:503-536 | merging an element writes inside the table iff the table is full, or every row it appends is inside, or, counted before, there is room for the channels that are new |
| ScanOverrun.NoOverrunExactly | wifidriver/mlan_11d.c:1353-1365 | a scan writes inside the table iff each of its elements finds it full or with room for its new channels |
| ScanOverrun.OverrunExample | wifidriver/mlan_11d.c:519-532 | two access points, one a band, whose elements call for 45 rows of 40 |
| ScanRoom.BandsFit | wifidriver/mlan_11d.c:1353-1365 | a scan of one or two 2.4 GHz bands always has room |
| ScanRoom.BandScanLearned | wifidriver/mlan_11d.c:1341-1382 | so for such a scan all of it holds, and the table can be learned into again |
| LearnedChannels.ChannelTable.constructor | wifidriver/mlan_11d.c:1123-1141 | an empty table |
| LearnedChannels.ChannelTable.FindRow | wifidriver/mlan_11d.c:383-392 | the first row of a channel and band |
| LearnedChannels.ChannelTable.UpdateChanPwrTable | wifidriver/mlan_11d.c:360-406 | the loop and the append do what a sighting is said to do; an invalid channel changes nothing, and a full table takes no new row |
| LearnedChannels.ChannelTable.MergeRegion | wifidriver/mlan_11d.c:503-536 | for every table and element: the loops write past the table iff it does not fit; otherwise they merge the parsed channels, and a full table takes no new row |
| LearnedChannels.ChannelTable.ProcessCountryInfo | wifidriver/mlan_11d.c:478-545 | parses and merges, also into an empty table, or is about to write past the table; a bad element changes nothing |
| LearnedChannels.ChannelTable.InsertRow | wifidriver/mlan_11d.c:589-594 | the inner loop puts a row in its place and leaves the later rows alone |
| LearnedChannels.ChannelTable.SortParsedRegionChan | wifidriver/mlan_11d.c:576-601 | the loops sort the filled rows and leave the others alone |
| LearnedChannels.ChannelTable.LearnScan | wifidriver/mlan_11d.c:1353-1367 | for every scan: it writes past the table iff some element does not fit; otherwise the loop and the sort leave what is learned from the entries, sorted |
| DnsNames.FormatQname | dhcpd/dns-server.c:33-59 | the pass from right to left replaces each dot by the length of what follows it, and touches nothing behind the name |
| DnsNames.CountedAt | dhcpd/dns-server.c:33-59 | byte by byte, for every text: a dot, 46, becomes the number of bytes up to the next dot or the end, and every other byte stays |
| DnsNames.CountedName | dhcpd/dns-server.c:33-59 | for every name of proper labels, with or without a dot at the end, that is the length-prefixed encoding |
| DnsNames.WalkName | dhcpd/dns-server.c:112-122 | the label walk over an encoded name visits exactly its labels and stops at its zero |
| DnsNames.SameWalk | dhcpd/dns-server.c:69-77 | a walk that reads the same bytes goes the same way |
| DnsNames.FormatThenWalk | dhcpd/dns-server.c:33-59 | encoder and walk together, in a zeroed buffer |
| DnsServer.ParseQuestions | dhcpd/dns-server.c:91-126 | the end of the questions or an overrun; and, if they end, whether one of them is for a configured name |
| DnsServer.SkipLabels | dhcpd/dns-server.c:69-77 | the walk without a bound stops where the bounded one does |
| DnsServer.MakeAnswerRr | dhcpd/dns-server.c:61-89 | writes one record that refers back to the question's name, with its type and class, and consumes that question |
| DnsServer.MarkIsSum | dhcpd/dns-server.c:67 | setting the two top bits of the offset adds 0xC000, byte by byte |
| DnsServer.QuestionFits | dhcpd/dns-server.c:91-126 | every question stands, whole, in front of the end the first walk found |
| DnsServer.AppendAnswers | dhcpd/dns-server.c:163-174 | the i-th answer is made from question i; there are as many as fit; the questions and the bytes behind are untouched |
| DnsServer.RefuseMessage | dhcpd/dns-server.c:188-203 | the header of a refusal, and nothing else changes |
| DnsServer.ProcessDnsMessage | dhcpd/dns-server.c:129-207 | which messages are ignored, refused and answered; an ignored one is untouched, a refused one has its header rewritten, and an answered one is given whole: header, count, questions, answers |
| DnsAnswers.AnswerRead | dhcpd/dns-server.c:61-89 | in every reply the i-th record refers to the i-th question's name, has the type and class behind that name, one hour, and our address; following the reference over the reply gives that question's labels |
| DnsAnswers.AnswersCounted | dhcpd/dns-server.c:163-185 | there is one answer for each question, or the next would not stay in front of the buffer's last byte |
| DnsAnswers.QuestionsStand | dhcpd/dns-server.c:91-126 | the first question stands at byte 12 and each next one five bytes behind the zero of the name before |
| DnsAnswers.AsksExactly | dhcpd/dns-server.c:100-111 | a question of any message is for us iff the labels the walk passes are those of some configured name |
| DnsAnswers.AnsweredExactly | dhcpd/dns-server.c:91-161 | a message whose questions end is answered iff the labels of some question are those of some configured name |
| DnsAnswers.ReplyHeaderRead | dhcpd/dns-server.c:175-179 | the header of an answer, field by field |
| DnsAnswers.RefusalHeaderRead | dhcpd/dns-server.c:188-203 | the header of a refusal, field by field |
| DnsServer.ReplyFits | dhcpd/dns-server.c:165-185 | the reply stays below the buffer size iff the questions do |
| DnsServer.FullReplyExample | dhcpd/dns-server.c:161-185 | a message whose questions end at the end of the buffer, so that the reply does not stay below it |
| DnsServer.ConfiguredExactly | dhcpd/dns-server.c:100-111 | the comparison with a configured name succeeds iff the labels are the same |
| BeaconReport.ProcessReportTable | wifidriver/mlan_11k.c:212-284 | the reports hold the matching entries in table order; each entry found at least 250 bytes free and stays in the buffer; a report is sent early only if it is full; one empty report iff nothing matches |
| BeaconReport.MatchingExactly | wifidriver/mlan_11k.c:286-301 | that list holds, exactly once each and in table order, the entries with the address and the name asked for, or any |
| BeaconReport.ReportSize | wifidriver/mlan_11k.c:427-635 | one report takes at least its fixed part and never passes the end of the room it has |
| BeaconReport.SizeExactly | wifidriver/mlan_11k.c:427-635 | a report is 31 bytes, or 45 and the wanted elements up to the first without the room it asks for |
| BeaconReport.SizeWhenAllFit | wifidriver/mlan_11k.c:427-635 | and 45 and all wanted elements if they all fit |

## Left out

- Window sizes 0, 1 and above 64: an ADDBA with 0 is declined; with 1 the window test never fires; above 64 the bitmap does not hold the window. Sequence and start numbers are below 4096.
- A shift of the 64-bit bitmap by 64, when a window of 64 slots is flushed whole, is taken to give 0; C leaves it undefined.
- The reorder table list and its lookup, locks and interleaving within one step, the timer's duration, and the layers above dispatch, which is an append to a log. The marker for a frame the firmware has dropped is not part of this model.
- RxReorderOrder.OrderedDelivery: is about arrivals that go through the window and timer firings, after start-up. Frames forwarded during start-up, repeated ADDBAs and host sleep are in the invariant and in conservation only.
- Block-ack command encoding, the transmit side and DELBA handling: field copying.
- Amsdu.Deaggregate: what the source reads, writes and delivers once a subframe reaches out of the buffer, which it does not check. What the receiver of a subframe does with it is not part of this model.
- DhcpModel: byte order conversions, the layout of the response, sockets, ARP, lease times and the control thread. Non-contiguous netmasks. An option may be read six bytes past the end of the message, where the receive buffer goes on.
- Region code tables and the regulatory power of a channel, which is a parameter. The merge loop that builds the downloaded country information (`wlan_11d_parse_dnld_countryinfo`) compares and updates with different indices and has no clean specification.
- LearnedChannels.ScanLearned: the one-row-per-key claim is for the 2.4 GHz bands; the 5 GHz universal table is not ascending, so a Country element can list a channel twice. Scans of three or more 2.4 GHz band values may need more rows than the table has; the claim is then for those with room.
- LearnedChannels.ChannelTable.ProcessCountryInfo: what the memory behind the channel table holds once the source has written past it. Triples are those the element's length covers.
- DnsNames.FormatQname: characters are unsigned, and the buffer has room for the name and its zero; a name that fills the buffer is not covered.
- DnsServer.ProcessDnsMessage: how much of a refusal is sent when the questions overrun the buffer, which the source computes from a null end; sockets and the number of configured names. The flags are read as the little-endian layout of the bit-field. Five readable bytes follow the 1024 of the buffer.
- BeaconReport.ReportSize: sizes and entry identity only; element contents, the 8-bit length fields and the fields of the last-report indication are not modelled.
- Command plumbing, initialisation, firmware download, constant tables, 802.11ac bit fields, the command line and network tools.
