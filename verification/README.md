# Verified model of the RTL8812AU/8814AU driver core

The driver keeps a handful of data structures and protocols consistent by hand: a hash table threaded through its
entries, element lists rewritten in place in a beacon buffer, counters that have to follow the flags of many stations,
a tick that ages stations, and a command thread that completes contexts living on other threads' stacks. This project
models those parts and proves what they keep.

## How it is organised

| files | what they are about |
|---|---|
| `Seqs`, `Bytes`, `Bits`, `Framing` | sequences, octets and host byte order, records written one after another |
| `Elements`, `IeBuffer`, `ParseElems` | information elements (section 8.4.2.1 of IEEE 802.11-2012): write, search, filter, parse |
| `Bss`, `P2pAttrs`, `BeaconIes`, `BeaconTim` | the beacon buffer; P2P attributes inside an element; insertion and removal of elements; the TIM element |
| `ApAggregates`, `ApStations`, `ApHistory` | station flags, counters, HT operation mode and advertised fields over joins and leaves |
| `KeepAlive` | the ageing tick of associated stations |
| `CmdThread`, `CmdAnswers` | the command queue and its completion contexts, as interleaved atomic steps; what the callers are told |
| `Nat25Map`, `Nat25History`, `Nat25Db` | the NAT2.5 database as a finite map, as what a run of events records, and as the chained table the driver keeps |
| `PppoeRelay`, `PppoeOctets`, `Dhcp`, `DhcpFrames` | the PPPoE relay tag (section 5 and Appendix A of RFC 2516) and the DHCP checksum update (section 3 of RFC 1624) |
| `AclPool`, `ChannelSync` | the access control slots; one channel setting for all interfaces |

Code that assigns fields or writes into a buffer is a class or an array method here. Each such method is tied by its
`ensures` to a function on values, and the lemmas are about that function. A `ghost` parameter such as `es` names the
elements a buffer holds; it does not exist at run time. Octets are integers from 0 to 255, and a 16-bit field that
wraps is reduced modulo 65536 where the driver stores it. `jiffies` does not wrap.

## What the proofs turned up

- The PPPoE relay adds `tag->tag_len` as it lies in memory, in network order (core/rtw_br_ext.c:112). Insertion works
  exactly on big-endian hosts (`InsertsIffBigEndian`). The extraction half undoes it (`ExtractionUndoesInsertion`).
- The DHCP update adds the new flags where RFC 1624 asks for the difference of new and old. A valid sum stays valid
  exactly when no other flag was set (`StillVerifiesIffFlagsWereZero`); a datagram without a checksum gets a wrong one
  except by chance (`UncheckedAfterBroadcast`, `UncheckedCanFail`).
- The TIM element written for stations 8..15 alone misleads stations on little-endian hosts, and every one-octet bitmap
  with a station in it is wrong on big-endian ones (`TimAdvertises`, `TimMisleads`).
- A sleeping silent station that aggregates is never removed if its first expiry finds the ADDBA candidate bit clear,
  and nobody clears the bit its probe then sets (`UnclearedSleeper`); `SleepingRemoval` is the exact condition.
- A command larger than `MAX_CMDSZ` is reported as accepted, and then neither queued nor freed
  (`AcceptedIsHandledIffItFits`, `OversizedIsLost`).
- Removing an element that was added with an empty body does not restore the buffer (`RemoveUndoesAdd`,
  `EmptyIsNotRemoved`).
- The TIM update skips octets, not elements. Where it stops at an element boundary, it is idempotent unless an empty TIM
  element stands before that point (`LastTimUpdateWins`, `TimPilesUp`). Anywhere else it tears a body or a header
  (`TimTearsElement`, `TimTearsHeader`). In every case a second update with the same bitmap changes nothing exactly when
  the first TIM element read back is the one written (`TwiceIff`; `TwiceInBody` and `TwiceInHeader` in terms of the list
  before). Without a DS element that can fail at each call (`TimPilesUpUnread`).
- Stations are given association ids up to 32, and `tim_bitmap` has sixteen bits. A parked station gets its bit exactly
  if its id is below sixteen (`ParkedIsAnnouncedIff`, `ParkedUnannounced`), and a lone sleeper finds its bit in the
  beacon of a little-endian host exactly if its id is below eight (`LoneSleeperReadsItsBitIff`).
- The ERP update tests the number of non-ERP stations against one. By itself it is wrong for two or more
  (`ErpUpdateInStepIff`); over runs of joins and leaves it is never called then, and the bits are right (`RunInStep`).
- Once a setting wider than 80 MHz has joined a group, later interfaces keep their own offsets. Two interfaces are then
  grouped with each other exactly when they do not both keep an offset, or keep the same one (`GroupedIff`,
  `NotGroupedAt160`).

## Model

| member | source | states |
|---|---|---|
| Elements.PrefixOfEncodeAll | core/rtw_ieee80211.c:1222-1360 | reading elements from left to right gives back exactly the list that was written, for every list |
| Elements.PrefixAfter | core/rtw_ieee80211.c:1222-1360 | elements in front are read whatever follows them |
| Elements.WellFormedIffEncoded | core/rtw_ieee80211.c:1222-1360 | octets are the encoding of a list if and only if they are an exact concatenation of elements and read as that list |
| IeBuffer.SetIe | core/rtw_ieee80211.c:193-212 | the element's octets stand at the cursor, both header octets cut to eight bits; cursor and frame length grow alike; nothing else in the buffer changes |
| IeBuffer.RunReadsBack | core/rtw_ieee80211.c:193-212 | what any run of calls, of any source lengths, reads back as: all its elements and nothing else if every source fits its length octet; otherwise the elements before the first overlong source, that source cut to its length modulo 256, and whatever the spilled octets and the later calls read as |
| IeBuffer.ReadsBackIff | core/rtw_ieee80211.c:193-212 | the ids and sources come back, one element a call, if and only if every source fits |
| IeBuffer.OneMoreCall | core/rtw_ieee80211.c:193-212 | a run is continued by writing at the cursor the last call returned |
| IeBuffer.SetIes | core/rtw_ieee80211.c:193-212 | a run of calls in a buffer: each element's octets behind those before, cursor and frame length exact, nothing else changed |
| IeBuffer.GetIe | core/rtw_ieee80211.c:270-301 | returns where the first element with the id starts, and its body length, or nothing when no element has it |
| IeBuffer.GetIeEx | core/rtw_ieee80211.c:315-357 | returns the start and whole length of the first element that matches id and OUI, or nothing and zero |
| IeBuffer.IndexOfMatchIsFirst | core/rtw_ieee80211.c:315-357 | an index is the result of the search if and only if it matches and nothing before it does |
| IeBuffer.MatchesIff | core/rtw_ieee80211.c:315-357 | an element matches an OUI if and only if it has the id and its body begins with the OUI |
| IeBuffer.RemoveIe | core/rtw_ieee80211.c:365-399 | in place: the prefix and everything behind the old end stay, the rest encodes the list without the matches at its exact length, success is returned if and only if something matched, and the loop ends |
| IeBuffer.WithoutKeepsTheRest | core/rtw_ieee80211.c:365-399 | every matching element is gone, every other one is there as often as before |
| IeBuffer.WithoutConcat | core/rtw_ieee80211.c:365-399 | the removal works piece by piece, so what is left keeps its order |
| IeBuffer.WithoutShorterIff | core/rtw_ieee80211.c:365-399 | the length drops if and only if some element matches |
| ParseElems.Parse | core/rtw_ieee80211.c:1222-1360 | ParseFailed if and only if the octets are not an exact concatenation of elements; otherwise ParseUnknown if and only if some element fills no slot; the table records, for every slot, the last element that fills it |
| ParseElems.BuildAndParse | core/rtw_ieee80211.c:193-212 | a buffer built by any run of calls and then parsed: when the pass fails, and otherwise, all sources fitting, the table of exactly the elements written |
| ParseElems.RecordsUnique | core/rtw_ieee80211.c:1230-1357 | that statement determines the table |
| ParseElems.RecordsNext | core/rtw_ieee80211.c:1243-1340 | one more element overwrites exactly its own slot |
| ParseElems.FirstAndLastAgree | core/rtw_ieee80211.c:1222-1360 | the search finds the first element of an id and the pass keeps the last: they agree if and only if the id occurs once |
| ParseElems.StandardSlotInjective | core/rtw_ieee80211.c:1247-1340 | no two ids share a standard slot, and no vendor element fills one |
| ParseElems.SlotIff | core/rtw_ieee80211.c:1117-1349 | an element fills a slot if and only if it has the id listed for it and, for a vendor element, begins with one of the headers listed: 00-50-F2 with type 1 for WPA, 2 and subtype 0 or 1 for WME, 2 and 2 for a TSPEC, 4 for WPS; 00-90-4C with type 0x33 for HT capabilities |
| Bss.BssidEx.HoldsUnique | include/wlan_bssdef.h:600-625 | the octets in use determine the elements a buffer holds, which is what the ghost lists stand for |
| P2pAttrs.GetP2pIe | core/rtw_ieee80211.c:1926-1970 | finds the first P2P element, or nothing if there is none or it starts past MAX_IE_SZ |
| P2pAttrs.P2pIndexIs | core/rtw_ieee80211.c:1926-1970 | the P2P element is the first one with id 221 whose body begins with 50-6F-9A-09 |
| P2pAttrs.AttrOctets | core/rtw_ieee80211.c:1982-2028 | the octets of an attribute: id, length with the low octet first, data; in a P2P element they follow the four octets of the header |
| P2pAttrs.GetP2pAttr | core/rtw_ieee80211.c:1982-2028 | finds the first attribute with the id inside a P2P element, and its length with header |
| P2pAttrs.P2pAttrRemove | core/rtw_ieee80211.c:2081-2121 | in place: the element keeps exactly the attributes of other ids, its length octet is right, nothing outside it changes, and the loop ends |
| P2pAttrs.WithoutAttrKeepsTheRest | core/rtw_ieee80211.c:2081-2121 | every attribute with the id is gone, every other one is there as often as before |
| P2pAttrs.WithoutAttrStep | core/rtw_ieee80211.c:2097-2117 | taking out the first attribute with the id leaves the same ones to take out, and the others in order |
| P2pAttrs.RemoveP2pAttr | core/rtw_ieee80211.c:2123-2154 | the BSS holds the same elements with the first P2P element's attribute list filtered, IELength drops by exactly the octets removed, the fixed part stays |
| BeaconIes.RemoveBcnIe | core/rtw_ap.c:272-312 | in place: the first element with the id leaves if its body is not empty; everything else stays and the length is exact |
| BeaconIes.AddBcnIe | core/rtw_ap.c:199-270 | in place: the new element replaces the one the scan stops at, or stands before the first element with a larger id, when the scan remembers a non-empty element; otherwise nothing changes |
| BeaconIes.StopIndexIs | core/rtw_ap.c:209-235 | where the scan stops: the first element whose id is not smaller |
| BeaconIes.AddIs | core/rtw_ap.c:199-270 | for every list: the element is written where its id belongs, over one with that id that is not empty, or between a non-empty element with a smaller id and one with a larger id or the end; in every other case nothing is written |
| BeaconIes.RemoveIs | core/rtw_ap.c:272-312 | the first element with the id leaves if and only if its body is not empty, and the two sides close up |
| BeaconIes.AddKeepsOrder | core/rtw_ap.c:199-270 | a list with non-decreasing ids keeps that order |
| BeaconIes.AddIsFound | core/rtw_ap.c:199-270 | a search finds the new data if and only if there is a place as just said, or the same data was there first |
| BeaconIes.EditsIgnoreOthers | core/rtw_ap.c:199-312 | a search for any other id finds after an insertion or a removal what it found before |
| BeaconIes.RemoveUndoesAdd | core/rtw_ap.c:199-312 | adding an absent id and removing it restores the list if and only if the data was not empty or there was no place to write it |
| BeaconIes.EmptyIsNotRemoved | core/rtw_ap.c:272-312 | a list that adding an empty element and removing it does not restore |
| BeaconTim.UpdateBcnTim | core/rtw_ap.c:83-197 | in place, on every beacon with room: the octets of the TIM element are replaced, or inserted behind as many octets as SSID, rates and DS take, with the rest behind them and IELength exact; if allocation fails, the new element's octets are all that is written. Where the stretch is one of whole elements, the element is replaced or inserted and every other one stays in order |
| BeaconTim.TimAddedIff | core/rtw_ap.c:115-190 | for every insertion point: the octets are those of the old list with the new element at a boundary if and only if a whole number of copies of the new element lies between that boundary and the insertion point |
| BeaconTim.TimTearsElement | core/rtw_ap.c:115-190 | inside a body the update tears the element: what a reader then takes for it, and where it goes on reading |
| BeaconTim.TimTearsHeader | core/rtw_ap.c:115-190 | between id and length the new element's id becomes the length: what is read for that element, and where reading goes on |
| BeaconTim.TimPlaces | core/rtw_ap.c:115-142 | every insertion point within the octets is at a boundary, in a header or in a body |
| BeaconTim.TimInsideACopy | core/rtw_ap.c:115-190 | a list on which the element reads as added although the insertion point is no boundary |
| BeaconTim.TimAdvertises | core/rtw_ap.c:154-184 | decoding the element as in section 8.4.2.7 of IEEE 802.11-2012 gives back the bitmap if and only if, on a little-endian host, no station above 7 or some station below 8 is in it; on a big-endian host, stations below 8 and above 7 are both in it or both absent |
| BeaconTim.TimMisleads | core/rtw_ap.c:169-184 | a failing input for each kind of host |
| BeaconTim.TimFitsUsualBeacon | core/rtw_ap.c:115-142 | in the usual layout the insertion point is the boundary behind the DS element |
| BeaconTim.TimFitsBareBeacon | core/rtw_ap.c:115-142 | without SSID, without rates or without both, it is the boundary behind the DS element too |
| BeaconTim.TimTaken | core/rtw_ap.c:83-197 | at a boundary: elements of other ids stay in order, the list grows by one element if and only if there was no TIM element with a body, and the new element is the first one found unless an empty one stands before it |
| BeaconTim.TimPilesUp | core/rtw_ap.c:83-197 | a list on which every call inserts one more element |
| BeaconTim.LastTimUpdateWins | core/rtw_ap.c:83-197 | at an element boundary, a second update gives what it would have given alone, so the update is idempotent, if and only if no empty TIM element stands before the insertion point |
| BeaconTim.UnchangedIff | core/rtw_ap.c:83-197 | on any list, an update leaves the octets as they are if and only if the first TIM element is the one it would write |
| BeaconTim.TwiceIff | core/rtw_ap.c:83-197 | wherever the insertion point lies: if the octets after an update read as a list, the same update leaves them as they are if and only if the first TIM element in that list is the one written |
| BeaconTim.TwiceInBody | core/rtw_ap.c:83-197 | that condition on the list before, where a body is torn: no TIM element before it, and the first one read in what is pushed out and behind is the new one |
| BeaconTim.TwiceInHeader | core/rtw_ap.c:83-197 | that condition on the list before, where a header is torn |
| BeaconTim.UnreadAddsUp | core/rtw_ap.c:83-197 | if no TIM element is read back, a second update with any bitmap leaves one more element's octets than it would have alone |
| BeaconTim.TimPilesUpUnread | core/rtw_ap.c:83-197 | a list without TIM and DS elements on which that happens |
| ApStations.MlmePriv.SetErpFlags | core/rtw_ap.c:3215-3336 | the three flags and their counters move together, and the ERP element is updated when the non-ERP count becomes one from below or zero from above |
| ApStations.MlmePriv.JoinHtFlags | core/rtw_ap.c:3340-3418 | an HT station loses its no-HT flag and gains what it announces; a station without HT gains the flag; the counters follow |
| ApStations.MlmePriv.CapUpdateOnStaJoin | core/rtw_ap.c:3196-3433 | flags, counters, mode word, extended capabilities and beacon bytes end as the step function on values says; the fixed part of the beacon stays; the flag passed on tells whether a count became one or none, or the intolerance changed |
| ApStations.MlmePriv.CapUpdateOnStaLeave | core/rtw_ap.c:3435-3523 | the same for a leave, with the returned flag; a null station changes nothing |
| ApStations.MlmePriv.HtOperationUpdate | core/rtw_ap.c:3091-3160 | the mode word is brought in step with the counters, the result counts the changed fields, and it is zero if and only if the word stays as it was |
| ApStations.MlmePriv.UpdateBcnErpInfo | core/rtw_ap.c:2647-2680 | only the three low bits of the ERP octet change, in place |
| ApStations.MlmePriv.UpdateBcnHtInfo | core/rtw_ap.c:2688-2765 | only the width bits and the mode word of the HT Operation element change, in place, the word low octet first |
| ApStations.MlmePriv.UpdateBcnExtCap | core/rtw_ap.c:2620-2639 | the extended capabilities element is taken out and put in again if it has a bit set, within the capacity |
| ApStations.MlmePriv.PerformAll | core/rtw_ap.c:3196-3523 | every run of joins and leaves ends in the state the specification gives |
| ApStations.MlmePriv.OctetsInStep | core/rtw_ap.c:2647-2765 | in the buffer itself: the protection bits are both set or both clear according to the number of stations that hold the flag, and the mode octets are the mode word |
| ApAggregates.CountIsCardinality | core/rtw_ap.c:3196-3523 | the count used for the counters is the number of stations holding the flag |
| ApAggregates.TalliedMoves | core/rtw_ap.c:3196-3523 | changing one station's flags and moving the counters by the difference keeps every counter equal to the number of holders |
| ApAggregates.NewOpModeIs | core/rtw_ap.c:3091-3160 | the new mode word is the only one that agrees with the counters and olbc_ht and keeps the remaining bits |
| ApAggregates.NoChangesIffSame | core/rtw_ap.c:3091-3160 | no change is counted if and only if the word is the same |
| ApAggregates.ErpUpdateInStepIff | core/rtw_ap.c:2664-2670 | the update, which tests for one station, leaves the protection bits right if and only if there is at most one (or no element to update) |
| ApAggregates.ExtCapKeeps | core/rtw_ap.c:2620-2639 | the update leaves every other element alone and leaves room for the next update |
| ApAggregates.ExtCapAdvertised | core/rtw_ap.c:2620-2639 | exactly when the beacon shows the new extended capabilities afterwards |
| ApAggregates.JoinKeeps | core/rtw_ap.c:3196-3433 | a join keeps counters, mode word, coexistence bit and beacon in step, and every other element as it was; the mode word is in step afterwards whatever it was |
| ApAggregates.LeaveKeeps | core/rtw_ap.c:3435-3523 | the same for a leave |
| ApAggregates.RunInStep | core/rtw_ap.c:3196-3523 | after every run: counters equal holders, the mode word is the stated function of the counters, NonERP_Present and Use_Protection are set exactly while a non-ERP station is there, the beacon field equals the mode word, all other elements are those of the start |
| ApAggregates.StartInStep | core/rtw_ap.c:3820-3862 | the values of start_ap_mode are in step |
| ApAggregates.AllGone | core/rtw_ap.c:3435-3523 | in step with no station flagged, every counter and the coexistence bit are zero |
| ApHistory.FlagIff | core/rtw_ap.c:3196-3523 | over every run from stations without flags: a station holds the preamble, non-ERP, slot or no-HT flag if and only if its last event is a join that announced it, and the greenfield, 20 MHz or intolerance flag if and only if some join since its last leave announced HT and that property |
| ApHistory.CounterIs | core/rtw_ap.c:3196-3523 | over every run each counter is the number of those stations |
| ApHistory.ModeIs | core/rtw_ap.c:3091-3160 | after every run the mode word, bit by bit, from what the stations announced |
| ApHistory.BeaconIs | core/rtw_ap.c:2647-2765 | after every run the protection bits, the mode octets and the coexistence bit, from what the stations announced |
| ApHistory.UpdatedIff | core/rtw_ap.c:3196-3433 | the flag passed on is set if and only if the first station of an older kind has come or the last has gone, or the intolerance of the station changed |
| ApHistory.RunKept | core/rtw_ap.c:2620-2765 | what no run touches: every element while the beacon is not up, each element that is switched off, and every octet and bit beside the fields in question |
| ApHistory.BarkerIs | core/rtw_ap.c:2647-2686 | an update of the ERP element sets the Barker bit if and only if a station without short preambles is counted |
| ApHistory.WidthIs | core/rtw_ap.c:2721-2760 | when an update of the HT Operation element goes to 20 MHz, when it goes back to 40 and with which offset, and when it leaves the width alone |
| ApHistory.ErpAfter | core/rtw_ap.c:3215-3336 | a join or leave updates the ERP element if and only if the first non-ERP station has come or the last has gone |
| ApHistory.WidthAfter | core/rtw_ap.c:3340-3523 | a join or leave looks at the width if and only if an intolerant station leaves or the mode word changes; then the width octet and sw_to_20mhz are those of one look with the counters afterwards, and otherwise as they were |
| KeepAlive.StaInfo.ChkStaIsAlive | core/rtw_ap.c:316-348 | reports whether frames arrived since the last tick, and takes note of them |
| KeepAlive.StaInfo.Age | core/rtw_ap.c:443-580 | one tick of one station does what the table says: stay, be parked with its TIM bit to be raised, or go |
| KeepAlive.StaPriv.ExpireTimeoutChk | core/rtw_ap.c:412-580 | the loop that deletes nodes keeps exactly the stations whose verdict is not removal, in order, each in the state its verdict gives, and raises in the sixteen-bit tim_bitmap the bits of exactly the parked ones with an id below sixteen |
| KeepAlive.ParkedIsAnnouncedIff | core/rtw_ap.c:552-562 | a parked station gets its bit if and only if its association id is below sixteen |
| KeepAlive.ParkedUnannounced | core/rtw_ap.c:552-562 | a station that is parked without getting it |
| KeepAlive.LoneSleeperReadsItsBitIff | core/rtw_ap.c:154-184 | on a little-endian host, a lone parked station reads its bit in the TIM element if and only if its id is below eight |
| KeepAlive.KeptMember | core/rtw_ap.c:424-580 | a station survives the walk if and only if its verdict is not removal |
| KeepAlive.HeardIsReset | core/rtw_ap.c:443-445 | a tick that hears frames restarts the countdown and clears the tries, in any state, and keeps the rest |
| KeepAlive.SilentCounts | core/rtw_ap.c:447-451 | a silent tick before the countdown is over takes one off it and keeps the rest |
| KeepAlive.LivelyStays | core/rtw_ap.c:443-580 | over every run, with wifi_spec on or off: a station heard at least once in each countdown is never removed |
| KeepAlive.SpecKeepsAll | core/rtw_ap.c:453-580 | with wifi_spec on no station is ever removed |
| KeepAlive.StaPriv.LivelyTicks | core/rtw_ap.c:412-580 | on the list itself: after any number of ticks such a station is still linked |
| KeepAlive.StaPriv.Ticks | core/rtw_ap.c:412-580 | tick after tick, frames or not, a station is linked exactly as long as its life lasts, in the state that gives |
| KeepAlive.ExpiryKinds | core/rtw_ap.c:453-580 | an expiry probes only where the candidate bit is clear and sets it, or parks a sleeping station for another whole countdown, or removes |
| KeepAlive.ParkedBeforeRemoval | core/rtw_ap.c:478-580 | over every silent run no sleeping station is removed without having been parked, unless a check was pending already; an awake one is never parked |
| KeepAlive.ToExpiry | core/rtw_ap.c:443-451 | a silent station stays until its time is up, and then the expiry decides |
| KeepAlive.AwakeRemoval | core/rtw_ap.c:443-580 | the exact tick at which an awake silent station goes; no earlier than tick N and no later than N + 4, whatever clears its candidate bit |
| KeepAlive.AwakeBoundsAreTight | core/rtw_ap.c:443-580 | both bounds are attained |
| KeepAlive.SleepingRemoval | core/rtw_ap.c:478-580 | exactly when a sleeping silent station goes, with or without aggregation, by what its expiries find of the candidate bit |
| KeepAlive.UnclearedSleeper | core/rtw_ap.c:478-580 | with nobody clearing the bit, a sleeping station is removed if and only if it is not probed: at its second expiry, or its first with a check already pending |
| KeepAlive.SleepingBound | core/rtw_ap.c:478-580 | the exact tick for a sleeping station whose bit is clear at every expiry, or that does not aggregate: N with a check already pending, 2N without aggregation, 2N + 8 with it; so none outlasts 2N + 8 |
| KeepAlive.StaPriv.SilentTicks | core/rtw_ap.c:412-580 | on the list itself: after any number of ticks a silent station is linked if and only if it has not been removed; an awake one is gone after N + 4 ticks, a sleeping one after 2N + 8 |
| CmdThread.StepKeepsInv | core/rtw_cmd.c:217-707 | every atomic step of a caller or of the thread keeps the invariant on contexts, queue, disposal and wakeups |
| CmdThread.NoUseAfterReturn | core/rtw_cmd.c:648-660 | under every interleaving the thread touches only contexts whose owner still waits, handles no freed command, and a caller detaches only from a command that is not freed |
| CmdThread.AnswersAreReal | core/rtw_xmit.c:4979-5036 | a context is answered only after its command was taken from the queue; a caller that returned left no pointer behind; a signal comes with a status |
| CmdAnswers.AnswersAreTrue | core/rtw_cmd.c:648-660 | under every schedule: an answer is success if and only if the command was allowed or the hardware up when the thread took it on, and its handler reported success; otherwise it is an error; and the answer is signalled |
| CmdAnswers.CallersFare | core/rtw_cmd.c:433-467 | under every schedule: a caller gets failure back if and only if the filter refused its command, goes on if and only if it passed; one that waits leaves only with an answer or by its timeout, and one that does not is never answered |
| CmdAnswers.SemaphoreBalances | core/rtw_cmd.c:552-605 | under every schedule the semaphore holds the number of raises less the number of wakeups |
| CmdThread.FirstInFirstOut | core/rtw_cmd.c:282-345 | commands are handled in insertion order, and each goes once, to its callback if it has one and to rtw_free_cmd_obj otherwise |
| CmdThread.AcceptedIsHandledIffItFits | core/rtw_cmd.c:217-280 | an accepted command is queued or handled if and only if its size fits MAX_CMDSZ; a larger one is lost unanswered and unfreed |
| CmdThread.OversizedIsLost | core/rtw_cmd.c:217-280 | a schedule on which a command of any size above MAX_CMDSZ is reported as accepted and lost |
| CmdThread.NoLostWakeup | core/rtw_cmd.c:552-605 | parked on a zero semaphore with no caller between insert and up, the queue is empty |
| CmdThread.NeverStuck | core/rtw_cmd.c:552-707 | while there is work, the thread, a caller about to raise the semaphore, or the holder of the mutex can move |
| CmdThread.DisposedInTime | core/rtw_cmd.c:552-707 | under every schedule, the n-th inserted command is disposed of by the time the thread has made at most eleven steps, and nine more for each command before it still to be disposed of |
| Nat25Map.ExpiredEntryLastsItsUses | core/rtw_br_ext.c:664-754 | an expired entry that is not refreshed leaves at exactly the use_count-th further sweep, whatever lookups come between |
| Nat25Map.LiveEntryCountsItsLookups | core/rtw_br_ext.c:427-501 | before it expires an entry gains one use per lookup and sweeps pass it by |
| Nat25Map.LifeOfAnEntry | core/rtw_br_ext.c:427-754 | from insertion on: an entry survives exactly as many sweeps after its expiry as it had lookups before |
| Nat25Map.GoneStaysGone | core/rtw_br_ext.c:504-541 | only an insertion brings an address back |
| Nat25Map.SweepsSpareTheLiving | core/rtw_br_ext.c:664-754 | any number of sweeps leaves an entry exactly as it was until it expires |
| Nat25Map.RunKeepsSound | core/rtw_br_ext.c:427-754 | over every run each entry has a use left and the shortcut is empty or names an entry of the table |
| Nat25Map.NetworkHash | core/rtw_br_ext.c:333-391 | every address, of whatever type, hashes into the table |
| Nat25Map.BucketMovesIff | core/rtw_br_ext.c:333-391 | changing one octet after the type changes the bucket if and only if the octet is one that identifies an address of that type and its low nibble changes |
| Nat25History.RecordedMac | core/rtw_br_ext.c:504-541 | over every run from the empty table a recorded MAC address is that of the latest insertion of its network address |
| Nat25History.RecordedTimer | core/rtw_br_ext.c:427-754 | its timer is the time of the latest event that inserted it, found it for the shortcut, or used it as the shortcut |
| Nat25History.ShortcutIs | core/rtw_xmit.c:3566-3580 | the shortcut is the entry the latest search found, if and only if it has been in the table ever since |
| Nat25History.ComesAndGoes | core/rtw_br_ext.c:427-754 | an address comes in only by an insertion with memory for it, and leaves only by a cleanup or by a sweep that finds it expired with one use left |
| Nat25History.UsesBalance | core/rtw_br_ext.c:427-754 | an entry has one use, one more for each lookup served since it came in, one less for each sweep since that found it expired |
| Nat25Db.Database.Link | core/rtw_br_ext.c:394-409 | next_hash and pprev_hash thread the bucket with the new entry first; no other entry's data changes |
| Nat25Db.Database.Unlink | core/rtw_br_ext.c:411-425 | the entry leaves its bucket, from the middle or the head; threads, buckets and the other entries stay sound |
| Nat25Db.Database.FindEntry | core/rtw_br_ext.c:1672-1696 | finds the entry of an address if and only if it is in the table |
| Nat25Db.Database.LookupAndReplace | core/rtw_br_ext.c:427-501 | steps like the map's lookup; the MAC is handed out only while the entry has not expired |
| Nat25Db.Database.NetworkInsert | core/rtw_br_ext.c:504-541 | steps like the map's insertion; a failed allocation leaves the table as it was |
| Nat25Db.Database.DbCleanup | core/rtw_br_ext.c:633-661 | empties the table and the shortcut |
| Nat25Db.Database.DbExpire | core/rtw_br_ext.c:664-754 | the walk that unlinks while it goes steps like the map's sweep |
| Nat25Db.Database.PerformAll | core/rtw_br_ext.c:394-754 | after any run the chains are acyclic and doubly threaded, every entry is in its bucket, no address occurs twice, and the table is what the map's run gives |
| Nat25Db.AnswerAfter | core/rtw_br_ext.c:427-501 | after any run on the chained table, a lookup hands out the MAC address of the latest insertion if and only if the address is in and its latest stamp is younger than the ageing time |
| Nat25Db.Database.AssignShortcut | core/rtw_xmit.c:3566-3575 | assigning scdb_findEntry's result leaves the shortcut empty or pointing at a linked entry |
| PppoeRelay.SkBuff.FindTag | core/rtw_br_ext.c:89-105 | finds the first tag of a type in the frame, or nothing |
| PppoeRelay.SkBuff.SkbPullAndMerge | core/rtw_br_ext.c:126-145 | -1 with nothing changed if and only if the stretch reaches past the end; otherwise the octets behind it close up and the length drops |
| PppoeRelay.SkBuff.PullAndMerge | core/rtw_br_ext.c:1227-1231 | with the length field corrected: the tag octets in the middle go, and the frame is one again |
| PppoeRelay.SkBuff.AddTag | core/rtw_br_ext.c:107-124 | with room and a length that is what was meant, the frame has the tag in front of its old tags; otherwise which failure it is |
| PppoeRelay.SkBuff.InsertRelay | core/rtw_br_ext.c:1211-1254 | the PADI/PADR branch: how it ends for every host, tag list and room, and the frame it leaves in each case |
| PppoeRelay.SkBuff.ExtractRelay | core/rtw_br_ext.c:1289-1332 | the PADO/PADS branch: how it ends, and the frame readdressed with the relay tag stripped |
| PppoeRelay.ExtractionUndoesInsertion | core/rtw_br_ext.c:1211-1332 | in any answer that carries the relay tag, extraction recovers the client's address and leaves the client's own Relay-Session-Id in its place, or nothing if it was empty |
| PppoeRelay.EchoRestores | core/rtw_br_ext.c:1211-1332 | echoed as sent, the tags come back with a Relay-Session-Id moved to the front; they are the same list if and only if there was none, or it stood first and was not empty |
| PppoeRelay.ReturnedLength | core/rtw_br_ext.c:1211-1332 | the length is restored, up to a dropped empty Relay-Session-Id |
| PppoeRelay.InsertsIffBigEndian | core/rtw_br_ext.c:107-124 | insertion succeeds if and only if the host is big-endian, the tag fits its buffer and the frame has room; on a little-endian host, the room it looks for |
| PppoeRelay.LittleEndianFindsNoRoom | core/rtw_br_ext.c:107-124 | a failing input: no tags, a kilobyte of room |
| PppoeOctets.RelayOctets | core/rtw_br_ext.c:1211-1254 | the octets of the relay tag: type 0x0110, its length, 81-86, the client address, the client tag data |
| PppoeOctets.InsertionIs | core/rtw_br_ext.c:1211-1254 | on a list taken apart at its first Relay-Session-Id, and on one without: the list that is sent, and the tag size and room it takes on a big-endian host |
| PppoeOctets.ExtractionIs | core/rtw_br_ext.c:1289-1332 | extraction takes place if and only if the first Relay-Session-Id begins with 81-86 and an address, and how it ends otherwise |
| PppoeOctets.ExtractedIs | core/rtw_br_ext.c:1289-1332 | the address that is taken out, and the list that is left |
| Dhcp.DhcpFlagBcast | core/rtw_br_ext.c:1625-1669 | only the two fields of a DHCP request without the flag change, in place |
| DhcpFrames.AsksIff | core/rtw_br_ext.c:1632-1650 | on a frame put together from its fields, with an IP header of any size: it is rewritten if and only if it is IPv4 and UDP, from port 68 to port 67, with the cookie 63-82-53-63, and the top bit of its flags is clear |
| DhcpFrames.BroadcastIs | core/rtw_br_ext.c:1650-1663 | what comes out is the same frame, field by field, with the top bit of its flags set and another checksum |
| Dhcp.Fold | core/rtw_br_ext.c:1659-1662 | the fold ends within sixteen bits, keeps the sum modulo 65535 and is zero for zero only |
| Dhcp.SumAfterWrite | core/rtw_br_ext.c:1656-1663 | writing a word changes the sum of a datagram of any length by the difference |
| Dhcp.SumAfterBroadcast | core/rtw_br_ext.c:1650-1663 | for every datagram the sum goes down by exactly the old flags, modulo 65535 |
| Dhcp.StillVerifiesIffFlagsWereZero | core/rtw_br_ext.c:1650-1663 | a sum that verified still does if and only if the old flags were zero |
| Dhcp.EveryRequestCanFail | core/rtw_br_ext.c:1625-1669 | every request that is rewritten has a variant that is rewritten too, with a correct non-zero checksum, whose sum is broken |
| Dhcp.AcceptedAfterBroadcast | core/rtw_br_ext.c:1650-1663 | when a receiver still takes the datagram, counting a checksum of zero as none |
| Dhcp.UncheckedAfterBroadcast | core/rtw_br_ext.c:1650-1663 | when a receiver still takes a datagram that was sent without a checksum |
| Dhcp.UncheckedCanFail | core/rtw_br_ext.c:1625-1669 | every request that is rewritten has a variant without a checksum that is taken before, and not afterwards |
| AclPool.WlanAclPool.AddSta | core/rtw_ap.c:2225-2297 | fails if and only if the pool is full; otherwise the address is listed, once |
| AclPool.WlanAclPool.RemoveSta | core/rtw_ap.c:2299-2341 | the walk that deletes nodes leaves the other addresses in order, or none for the broadcast address |
| AclPool.WlanAclPool.Init | core/rtw_ap.c:3876-3884 | start_ap_mode leaves an empty pool |
| AclPool.WlanAclPool.NumCounts | core/rtw_ap.c:2225-2341 | num is the number of valid slots and of distinct addresses |
| AclPool.WlanAclPool.PerformAll | core/rtw_ap.c:2225-2341 | after every run the list holds exactly the valid slots, each once, and the addresses the specification gives |
| AclPool.RunIsBoundedSet | core/rtw_ap.c:2225-2341 | add, remove, remove-broadcast, stop and start act as insertion, deletion and clearing on a set of at most sixteen addresses |
| AclPool.RunInOrder | core/rtw_ap.c:2225-2341 | over every run the list is in the order in which its addresses came in |
| AclPool.RemovedIs | core/rtw_ap.c:2321-2336 | exactly the matching addresses leave |
| ChannelSync.SyncChbw | core/rtw_ieee80211.c:1750-1798 | the request and the group end as the two functions on values say, and the group's channel is not touched |
| ChannelSync.SyncServes | core/rtw_ieee80211.c:1750-1798 | whatever the widths, the synced interface is on the group's channel, no wider and grouped with it, and so are those synced before |
| ChannelSync.AllServed | core/rtw_ieee80211.c:1720-1798 | the same for every fold over any interfaces, any first group setting and any rtw_get_offset_by_ch |
| ChannelSync.SyncedAt | core/rtw_ieee80211.c:1750-1798 | every interface after the round, from the requests alone: its channel, whether it has an offset, and which |
| ChannelSync.WidthAt | core/rtw_ieee80211.c:1750-1798 | the width each interface comes out with: 80 MHz if and only if it asked for that on a channel above 14 and keeps an offset; 40 if and only if it asked for 40, or for 80 on a channel up to 14, and keeps one; 20 if and only if it asked for that or keeps none |
| ChannelSync.GroupIsWidest | core/rtw_ieee80211.c:1750-1798 | the width of the group at the end is the greatest of its first one and those of the interfaces; it is as it began, or equal to the first interface that wide |
| ChannelSync.GroupedMeans | core/rtw_ieee80211.c:1720-1748 | two settings are grouped if and only if one radio setting does for both |
| ChannelSync.GroupedIff | core/rtw_ieee80211.c:1720-1798 | for requests and a group of any widths: two interfaces are grouped with each other if and only if their requests do not both keep an offset, or are given the same |
| ChannelSync.AllGroupedUpTo80 | core/rtw_ieee80211.c:1720-1798 | for widths up to 80 MHz any two interfaces are grouped |
| ChannelSync.NotGroupedAt160 | core/rtw_ieee80211.c:1720-1798 | two requests that a 160 MHz group leaves as they are, and ungrouped |
| ChannelSync.SecondRoundChangesNothing | core/rtw_ieee80211.c:1750-1798 | for any widths a second round over all interfaces changes neither them nor the group |
| ChannelSync.SyncAll | core/rtw_ieee80211.c:1750-1798 | syncing one interface object after the other is that fold |

## Left out

- Allocation failure in rtw_add_bcn_ie and rtw_remove_bcn_ie (core/rtw_ap.c:246-251, 295-300): the backup buffer is taken to be allocated.
- IeBuffer.RemoveIe: the elements with the id are taken to be at least as long as the OUI; for a shorter one the driver compares octets of the next element.
- IeBuffer.GetIeEx: the same, and the variants that copy the element out are not modelled.
- P2pAttrs.RemoveP2pAttr: the first P2P element is taken to hold a well-formed attribute list.
- IeBuffer.GetIe: the octets are taken to be well-formed elements; on a truncated one the driver reads past the limit.
- BeaconTim.UpdateBcnTim: the new octets are taken to fit MAX_IE_SZ, which the driver does not check. Past the octets in use remainder_ielen wraps, and the allocation of nearly 4 GiB is taken to fail: what copying that much would do is not described.
- BeaconTim.TwiceIff: the octets after the first update are taken to read as a list; where they end in a truncated element, the driver's search reads past them.
- KeepAlive.StaInfo.Age: association id 32, for which the driver's BIT(32) is an undefined shift, is treated like the other ids the bitmap has no bit for.
- BeaconIes.AddBcnIe: the result is taken to fit MAX_IE_SZ, which the driver does not check.
- PppoeRelay.SkBuff.AddTag: where the driver copies past the end of its 40-octet tag buffer, only that it does is stated.
- PppoeRelay.SkBuff.ExtractRelay: the branches without addPPPoETag, the session phase and the code dispatch around it.
- KeepAlive.StaPriv.ExpireTimeoutChk: the frame-digesting branch for long sleep queues (core/rtw_ap.c:582-592), the auth list, and what ap_free_sta does beyond the list; CONFIG_ACTIVE_KEEP_ALIVE_CHECK is off.
- KeepAlive.Run: the silent runs take wifi_spec to be off, and all runs take sleep state and aggregation to stay as they are; others may clear the candidate bit at any tick, but not set it.
- ApStations.MlmePriv.CapUpdateOnStaJoin: associated_clients_update, which only refreshes rate masks; the flag it is called with is modelled.
- ApStations.MlmePriv.UpdateBcnExtCap: the VHT setup that stores a length of ten for eight octets (core/rtw_ap.c:2164-2167).
- ApStations.MlmePriv.UpdateBcnHtInfo: a non-empty HT Operation element is taken to reach the mode word; for a shorter one the driver writes into the next element.
- ApAggregates.RunInStep: the Barker preamble bit and sw_to_20mhz are not claimed to be in step over runs, because they are not updated on every change; ApHistory.ErpAfter and ApHistory.WidthAfter say when they are. ht_20mhz_width_req, ht_intolerant_ch_reported, olbc and olbc_ht stay as they are during a run.
- BSS coexistence frames (core/rtw_ap.c:2988-3046), and the reset and reuse of num_sta_no_ht while scanning (core/rtw_ap.c:1442, core/rtw_mlme_ext.c:10846), which are taken to happen before any station joins.
- CmdThread.DisposedInTime: counts thread steps, with no claim that a scheduler grants them; thread teardown (core/rtw_cmd.c:709-731), LPS_LCLK and driver-stopped exits are not part of the model, and each critical section is one step.
- The command builders of core/rtw_cmd.c: they allocate, fill and enqueue.
- Nat25Map.Run: jiffies does not wrap, and scdb_mac and scdb_ip are not modelled: the shortcut only does not dangle.
- IPX, AppleTalk and IPv6 in nat25_db_handle: the same insert and lookup with another address layout.
- Dhcp.DhcpFlagBcast: the fields it reads are taken to lie in the frame, which the driver does not check.
- ACL operations from several threads at once: core/rtw_ap.c:2225-2297 searches and inserts in two critical sections.
- ChannelSync.SyncAll: the caller's skipping of interfaces that are already grouped, and the adjustment of the requested width before the call.
- Hardware and firmware calls, register access, ioctl handlers, Bluetooth coexistence and the debug interface.
