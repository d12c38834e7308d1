# SMS and MMS service: a verified model

A Dafny model of the algorithmic core of an SMS/MMS system service, and proofs about it. Each module
models one component:

- `CbRanges`, `CbText`, `CbConfig`: cell broadcast channels. A list of closed id ranges is opened,
  closed, merged, printed, parsed and pushed to the modem by a protocol whose two sends may each fail.
- `Bits`, `Septets`: packing and unpacking 7-bit text (sections 6.1.2.1 and 6.1.2.2 of 3GPP TS 23.038).
- `PduBuffer`: the octet/bit buffers in which PDUs are written and read.
- `Hex`, `Pages`, `PartStore`, `Restart`, `ReceiveQueue`: incoming messages. Parts are cleaned away,
  refused when repeated, stored, combined and deleted; after a restart the stored rows are grouped and
  published; while the data store is down, messages wait in a queue with a bounded retry.
- `SendCache`: outgoing parts waiting for the modem's response.
- `Segments`, `TextCoding`: cutting a text into parts and coding it through the escape tables
  (sections 6.2.1 and 6.2.1.1 of 3GPP TS 23.038, section 9.2.3.24.1 of 3GPP TS 23.040).
- `WapBuffer`, `WapContentType`, `WapPush`: the decoder of push messages (WAP-230-WSP).
- `MmsStore`, with `Decimal` and `Sequences`: multimedia messages spread over rows of a table.

Objects that the service updates in place are classes here; their methods are proved against
functions of the old state, and the theorems are lemmas about those functions. What comes from
outside is a parameter: the modem's acknowledgements, the answers of the table, the boundaries that
the ICU break iterator knows, whether the data store is up. A model covers every answer.

Where the code does not do what its context suggests, the code is followed and the exact condition
is proved:

- `CbConfig.SmsMiscManager.CloseCBRange`: closing from id 0, or from the largest id, changes nothing and still
  counts as done.
- `PartStore.CombinesOnceArrived`: the parts are counted in eight signed bits, so a message of more
  than 127 pages is never combined.
- `PartStore.PortArrives`: parts on another port than that of text are not checked for repeats, so a
  repeated page counts like a new one and the message may be published with a page missing, as in
  `PartStore.PortGap`; it is whole exactly when every page is among the parts, which for just as many
  parts as pages means that no page is there twice.
- `Restart.RestartDelivers`: a stored row of an impossible page number between the rows of a complete
  message keeps it from being published, as in `Restart.BrokenByImpossible`.
- `Restart.RepeatsPublished`: stored rows of a message that repeats a page are published when they are
  as many as its pages and page 1 is among them, so with a page missing, as in
  `Restart.PublishedWithGap`; `Restart.RestartPublishesRuns` says what is published for any rows.
- `ReceiveQueue.KeepsArrivalOrder`: messages are handled in the order they came exactly in the runs in
  which no message comes in while no retry is outstanding, the store is up and older messages are
  queued; `ReceiveQueue.Overtaken` is such a run, after the retries have given up.
- `SendCache.ReportedOnce` and `SendCache.ReportedEarly`: a cell that will be resent has already been
  counted, so a message whose last answer calls for a resend is not reported, and one with an earlier
  resend is reported as sent too early, exactly when no failure is known by then, as in
  `SendCache.EarlyReport`.
- `Segments.PartFits`: the segment size does not allow for a port or language header; a full part
  fits 140 octets exactly when it has neither.
- `Segments.CountsAgree`: the number of parts reported in advance assumes a reply address in every
  header and one-unit characters. For 7-bit and 8-bit text, and for UCS2 text of one-unit characters,
  it is never too small, and right exactly for the lengths the lemma names. For other UCS2 text it is
  not too small as long as character boundaries are at most 8 units apart (10 with a language header);
  with longer characters it can be, as in `Segments.ReportTooSmall`.
- `Septets.CbRoundTrip`: a broadcast page that fills its last octet and ends in a character below
  0x20 loses that character, as in `Septets.CbLosesLast`, and so does a single character in a single
  octet.
- `TextCoding.RoundTrip`: the escape character never comes back, and neither do U+01E6 and U+01E7 with
  the Turkish table and U+00C3 with the Portuguese one; everything else does, with all four tables.
- `WapPush.UriComesBack`: an application id that is a uri loses its first character unless it is
  written with a quote and does not itself start with one.
- `WapPush.FindsFirstId`: a header with a textual name ends the search for the application id.
- `WapPush.WrittenAccepted`: a message whose only header is its content type is refused.
- `MmsStore.RowsInOrder`: the row offsets are 32-bit products. They are right exactly for messages up to
  2147458560 octets; a longer one makes the loop start over instead of ending, so `MmsStore.SplitPdu`
  and `MmsStore.MmsPersistHelper.InsertMmsPdu` are stated up to that length.

`dafny verify dfyconfig.toml` verifies the project.

## Model

| member | source | states |
|---|---|---|
| CbRanges.CombineCBRange | services/sms/sms_misc_manager.cpp:263-292 | for every list, also with empty or overlapping ranges, merging keeps the set of ids and leaves ranges that are ordered, disjoint and not adjacent; the result is canonical when every range is well-formed |
| CbRanges.AbsorbFrom | services/sms/sms_misc_manager.cpp:269-290 | the inner walk, which erases while it goes, keeps the id set and settles one more range |
| CbRanges.CanonicalUnique | services/sms/sms_misc_manager.cpp:263-292 | two canonical lists with the same ids are equal, so merging is idempotent and lists with the same ids merge to the same list |
| CbRanges.MergeBoth | services/sms/sms_misc_manager.cpp:263-297 | two lists merge to the same list if and only if they hold the same ids, and a canonical list merges to itself |
| CbConfig.SmsMiscManager.OpenCBRange | services/sms/sms_misc_manager.cpp:87-93 | the ids become the old ids and the opened ones, in canonical form |
| CbConfig.SmsMiscManager.CloseCBRange | services/sms/sms_misc_manager.cpp:95-153 | the walk ends although it appends to the list it walks, and removes exactly the closed ids from any list; ids 0 and the largest change nothing |
| CbConfig.RemainsLeaves | services/sms/sms_misc_manager.cpp:95-106 | what is kept of one range is exactly its ids outside the closed span, in pieces that the walk will not cut again |
| CbConfig.SmsMiscManager.UpdateCbRangList | services/sms/sms_misc_manager.cpp:235-261 | the cached list becomes the canonical form of the printed list, the list itself when that is canonical; an unreadable item leaves it alone |
| CbConfig.SmsMiscManager.SendDataToRil | services/sms/sms_misc_manager.cpp:350-377 | a send succeeds when acknowledged or empty, and only then changes the modem |
| CbConfig.SmsMiscManager.SetCBConfig | services/sms/sms_misc_manager.cpp:37-79 | refuses ids above 65535, reversed ranges and other networks; a successful call leaves exactly the old ids with or without the range (closing from 0 leaves all); every combination of failing sends is a step of the protocol relation, and a failed call leaves the cached list as it was |
| CbConfig.SmsMiscManager.SetCBConfigList | services/sms/sms_misc_manager.cpp:397-439 | a successful call adds exactly the ids that some pair of the list spans, first entry to second as unsigned numbers, and none for a list without pairs; a failed one changes nothing |
| CbConfig.ConvertedIds | services/sms/sms_misc_manager.cpp:397-408 | the ranges made of a list hold an id if and only if one of its pairs spans it; an odd or empty list makes none |
| CbConfig.RunInSync | services/sms/sms_misc_manager.cpp:56-79 | over every run of requests with any send failing: the modem's ids stay within the cached ids, every successful change ends with modem, cache and target equal, every failed call keeps the cached ids |
| CbText.RangeListToString | services/sms/sms_misc_manager.cpp:331-348 | prints ranges with single ids shortened, joined by commas |
| CbText.SplitMids | services/sms/sms_misc_manager.cpp:299-308 | gives all pieces between commas |
| CbText.SplitItem | services/sms/sms_misc_manager.cpp:310-329 | splitting a printed range gives back its two numbers |
| CbText.ReadItems | services/sms/sms_misc_manager.cpp:244-258 | reads items up to the first that is not a valid range |
| CbText.PrintParse | services/sms/sms_misc_manager.cpp:235-348 | printing then splitting and parsing any non-empty list of well-formed ranges with ids up to 2147483647 gives the list |
| CbText.ParseStops | services/sms/sms_misc_manager.cpp:244-258 | behind any readable ranges an item without two sides or backward is passed over, and one with something else than numbers ends the reading with what was read |
| CbText.PrintedItem | services/sms/sms_misc_manager.cpp:331-348 | one id is printed alone, other ranges with both ends |
| Septets.Pack7bitChar | utils/sms_common_utils.cpp:36-73 | the octets read as one little-endian number are the septets read as one base-128 number, shifted by the fill; the count is the ceiling, and nothing beyond is written |
| Septets.Unpack7bitChar | utils/sms_common_utils.cpp:75-110 | every position below the count, and every one the input determines, holds the seven bits at its bit offset |
| Septets.PackedSeptet | utils/sms_common_utils.cpp:36-110 | the seven bits found at the offset of septet i of a packed text are septet i, whatever follows |
| Septets.UnpackRecovers | utils/sms_common_utils.cpp:36-110 | unpacking with one octet of padding gives the packed text back |
| Septets.PackThenUnpack | utils/sms_common_utils.cpp:36-110 | packing up to 160 septets into a cleared buffer and unpacking it gives the septets back, for every fill |
| Septets.Unpack7bitCharForCBPdu | utils/sms_common_utils.cpp:112-159 | the characters returned are the whole septets and a printable rest; the branch for a rest on an octet boundary is never taken |
| Septets.CbRoundTrip | utils/sms_common_utils.cpp:112-159 | unpacking the exact packed octets gives the text if and only if it is empty, does not fill its last octet, or ends in a character of at least 0x20 with more than one octet |
| Septets.CbLosesLast | utils/sms_common_utils.cpp:112-159 | eight characters below 0x20 in seven octets do not come back |
| Septets.PackThenUnpackCb | utils/sms_common_utils.cpp:36-159 | the same through the broadcast unpacker, if and only if the condition of CbRoundTrip holds |
| PduBuffer.WriteThenRead | services/sms/sms_pdu_buffer.cpp:95-309 | over every run of writes, failing ones among them, the reads that match the calls that succeeded give the written values back |
| PduBuffer.WriteAndReadBack | services/sms/sms_pdu_buffer.cpp:95-309 | through both buffers, from any calls on a new writer to a reader over its octets: all values written come back if and only if they take 2 to 255 octets |
| PduBuffer.ReadsUnique | services/sms/sms_pdu_buffer.cpp:157-240 | a run of reads has only one outcome |
| PduBuffer.SmsWriteBuffer.WriteBits | services/sms/sms_pdu_buffer.cpp:277-309 | appends the bits, most significant first, across octets; succeeds exactly when they fit; failing changes nothing |
| PduBuffer.SmsWriteBuffer.WriteByte | services/sms/sms_pdu_buffer.cpp:253-264 | appends eight bits in octet and in bit mode; failing changes nothing |
| PduBuffer.SmsWriteBuffer.WriteWord | services/sms/sms_pdu_buffer.cpp:266-275 | appends sixteen bits, only outside bit mode; failing changes nothing |
| PduBuffer.SmsWriteBuffer.SkipBits | services/sms/sms_pdu_buffer.cpp:95-102 | pads with zero bits to the next octet |
| PduBuffer.SmsWriteBuffer.SetIndex | services/sms/sms_pdu_buffer.cpp:48-61 | moves only outside bit mode and only within the buffer |
| PduBuffer.SmsWriteBuffer.MoveForward | services/sms/sms_pdu_buffer.cpp:63-77 | the cursor stays within the buffer, and the old position is returned |
| PduBuffer.SmsWriteBuffer.MoveBack | services/sms/sms_pdu_buffer.cpp:79-93 | the cursor stays within the buffer, and the old position is returned |
| PduBuffer.SmsWriteBuffer.GetPduBuffer | services/sms/sms_pdu_buffer.cpp:104-127 | the octets returned are the bits written; none in bit mode or when empty or full |
| PduBuffer.SmsReadBuffer.ReadByte | services/sms/sms_pdu_buffer.cpp:157-174 | takes the next eight bits in both modes, and fails exactly when they are missing |
| PduBuffer.SmsReadBuffer.ReadWord | services/sms/sms_pdu_buffer.cpp:196-205 | takes the next sixteen bits outside bit mode |
| PduBuffer.SmsReadBuffer.ReadBits | services/sms/sms_pdu_buffer.cpp:207-240 | takes the next bits across octets, and fails exactly when they are missing or the width is not 1 to 8 |
| PduBuffer.SmsReadBuffer.SkipBits | services/sms/sms_pdu_buffer.cpp:95-102 | passes over the rest of the octet |
| Hex.StringToHex | utils/string_utils.cpp:78-86 | writes two digits for each octet |
| Hex.HexToByteVector | utils/string_utils.cpp:108-120 | reads pairs of digits, an odd last one left out |
| Hex.HexRoundTrip | utils/string_utils.cpp:78-120 | reading what was written gives every octet back |
| Hex.HexText | utils/string_utils.cpp:78-86 | upper-case digits, the high half first |
| Pages.Pigeonhole | services/sms/sms_receive_handler.cpp:322-355 | distinct page numbers within 1..n are n in number exactly when every page is there |
| PartStore.PartTable.CombineMultiPageMessage | services/sms/sms_receive_handler.cpp:322-355 | succeeds exactly when all page numbers are in range, the eight-bit count matches and no part is empty, with each part in its slot; a page number out of range deletes the message |
| PartStore.CombineExact | services/sms/sms_receive_handler.cpp:322-355 | for distinct pages combining succeeds if and only if there are at most 127 pages, all of them and no others are there and none is empty, and slot i holds page i+1 |
| PartStore.PartTable.IsRepeatedMessagePart | services/sms/sms_receive_handler.cpp:395-414 | finds whether the page is already stored for the message |
| PartStore.PartTable.AddMsgToDB | services/sms/sms_receive_handler.cpp:416-444 | stores the part as hexadecimal text unless the table refuses it |
| PartStore.PartTable.DeleteExpireSmsFromDB | services/sms/sms_receive_reliability_handler.cpp:79-107 | drops exactly the rows of the slot from before the deadline or without content, and none while the clock is not set |
| PartStore.PartTable.DeleteMessageFormDb | services/sms/sms_receive_reliability_handler.cpp:313-329 | drops exactly the rows of the message, unless it has neither reference nor row id |
| PartStore.PartTable.CombineMessagePart | services/sms/sms_receive_handler.cpp:287-320 | a stored part waits, deletes an impossible message, or publishes a single or complete one, unless it is a push message that cannot be decoded |
| PartStore.PartTable.OnReceiveEvent | services/sms/sms_broadcast_subscriber_receiver.cpp:31-52 | the receipt of a published message deletes its rows |
| PartStore.PartTable.HandleNormalSmsByType | services/sms/gsm/gsm_sms_receive_handler.cpp:213-285 | an arriving part is cleaned for, refused when it repeats a page of a text, stored and combined, as one step of the run |
| PartStore.TableIsHeld | services/sms/sms_receive_handler.cpp:287-444 | in every run of arrivals and receipts the table holds exactly the rows that some arrival stored and nothing since has removed |
| PartStore.LoadedAsArrived | services/sms/sms_persist_helper.cpp:591-594 | a stored part is read back octet for octet |
| PartStore.TextStoredOnce | services/sms/sms_receive_handler.cpp:395-444 | in every run no page of a text message is stored twice |
| PartStore.CombinesOnceArrived | services/sms/sms_receive_handler.cpp:287-444 | in every run, with all deletions, a part completes a text message if and only if it has 2 to 127 pages, this page is not held and exactly the others are, none is empty and the table takes it; slot i then holds page i+1 as it arrived |
| PartStore.CombinedOnce | services/sms/sms_receive_handler.cpp:287-444 | a text message is combined at most once as long as none of its rows is removed |
| PartStore.SingleArrives | services/sms/sms_receive_handler.cpp:287-320 | in every run a message of one page is published, with its own text, if and only if it repeats no live page of a text, is not for the ignored port, the table takes it and it can be decoded; and which rows stay |
| PartStore.ImpossibleArrives | services/sms/sms_receive_handler.cpp:336-345 | in every run a part stored while its message has an impossible page number publishes nothing and leaves no row of the message |
| PartStore.PortArrives | services/sms/gsm/gsm_sms_receive_handler.cpp:265-283 | a message on another port is combined if and only if as many parts as pages are held (modulo 256), in range, not empty and decodable; it has no gap if and only if every page is among them, which with as many parts as pages means no page twice |
| PartStore.PortGap | services/sms/gsm/gsm_sms_receive_handler.cpp:265-283 | a page repeated on another port is published as a message without its second page |
| Restart.GetSmsUserDataMultipage | services/sms/sms_receive_reliability_handler.cpp:271-299 | gathers the later pages of the message at a position, erases exactly those rows and ends; a page out of range stops it |
| Restart.SmsReceiveReliabilityProcessing | services/sms/sms_receive_reliability_handler.cpp:241-269 | the erase-or-advance loop ends and publishes what the recursive description of the pass says |
| Restart.SendBroadcast | services/sms/sms_receive_reliability_handler.cpp:331-343 | the pages published are the non-empty slots in order |
| Restart.RemoveBlockedSms | services/sms/sms_receive_reliability_handler.cpp:116-132 | keeps exactly the rows of senders that are not blocked with 1 to 255 octets, erasing the others in place |
| Restart.GetWapPushUserDataMultipage | services/sms/sms_receive_reliability_handler.cpp:174-216 | erases the later rows of the push message at a position up to one that cannot be decoded |
| Restart.CheckUnReceiveWapPush | services/sms/sms_receive_reliability_handler.cpp:134-160 | the push pass ends and leaves what its recursive description says |
| Restart.WapPassRemoves | services/sms/sms_receive_reliability_handler.cpp:134-160 | no push row is left for the main loop, and no row is added |
| Restart.WapWalkTakes | services/sms/sms_receive_reliability_handler.cpp:174-216 | of its own reference the walk leaves exactly the rows behind the first unusable one |
| Restart.Interleaving | services/sms/sms_receive_reliability_handler.cpp:241-299 | what is published for a reference depends only on the rows of that reference, whatever lies between them |
| Restart.RowsUsedOnce | services/sms/sms_receive_reliability_handler.cpp:241-299 | no row is used in two broadcasts |
| Restart.CompleteExactly | services/sms/sms_receive_reliability_handler.cpp:241-299 | for a reference used by one message and no page stored twice: a complete message is published exactly once with page i+1 in slot i if and only if no row of an impossible page number lies between its possible ones, and else not at all |
| Restart.RunsPublished | services/sms/sms_receive_reliability_handler.cpp:241-299 | for any rows of one message, pages repeated or not: one broadcast for each run of possible rows as long as the message has pages, unless page 1 is not in it |
| Restart.RepeatsPublished | services/sms/sms_receive_reliability_handler.cpp:241-299 | for possible rows of one message: exactly one broadcast if and only if there are as many rows as pages and page 1 is among them, with all pages if and only if none is there twice |
| Restart.PublishedWithGap | services/sms/sms_receive_reliability_handler.cpp:241-299 | two rows of page 1 of two are published without page 2 |
| Restart.BrokenByImpossible | services/sms/sms_receive_reliability_handler.cpp:241-299 | pages 1 and 2 of two with a page 0 between them are not published |
| Restart.RestartPublishesRuns | services/sms/sms_receive_reliability_handler.cpp:116-299 | the whole restart publishes for a reference that one message uses exactly what its runs of possible rows call for, pages repeated or not |
| Restart.RestartSingles | services/sms/sms_receive_reliability_handler.cpp:116-269 | for a reference that only messages of one page use, each stored row is published exactly once, in order and with its own page, unless its sender is blocked or its size impossible |
| Restart.IncompleteSilent | services/sms/sms_receive_reliability_handler.cpp:241-299 | for a reference used by one message and no page stored twice: with a page missing nothing is published |
| Restart.RestartDelivers | services/sms/sms_receive_reliability_handler.cpp:116-299 | the whole restart, with blocking and push messages around it, for a reference used by one message and no page stored twice: published once and in order if and only if complete and unbroken by an impossible page number, and else never |
| ReceiveQueue.SmsReceiveHandler.HandleSmsEvent | services/sms/sms_receive_handler.cpp:153-174 | with the store up and nothing armed a message is handled at once; otherwise it is queued if acknowledged, and a retry is armed |
| ReceiveQueue.SmsReceiveHandler.HandleReceivedSmsWithoutDataShare | services/sms/sms_receive_handler.cpp:273-285 | only acknowledged messages are queued, at the end |
| ReceiveQueue.SmsReceiveHandler.HandleMessageQueue | services/sms/sms_receive_handler.cpp:71-86 | the whole queue is handled oldest first and the retry state is reset |
| ReceiveQueue.SmsReceiveHandler.HandleReconnectEvent | services/sms/sms_receive_handler.cpp:88-114 | with the store up the whole queue is handled and the handler disarmed; otherwise it gives up at the maximum or the retry is sent again |
| ReceiveQueue.RunKeeps | services/sms/sms_receive_handler.cpp:71-174 | over every run: one retry is outstanding if and only if it is flagged, the count stays below its maximum, the queue is first in first out, and every message is handled once, queued, or dropped unacknowledged |
| ReceiveQueue.RetryDoes | services/sms/sms_receive_handler.cpp:88-114 | a retry with the store up handles the queue in order, empties it and disarms; with the store down it handles nothing and counts, and the twentieth gives up |
| ReceiveQueue.IncomingDoes | services/sms/sms_receive_handler.cpp:153-174 | where a message goes by store, flag and acknowledgement |
| ReceiveQueue.DrainedInTheEnd | services/sms/sms_receive_handler.cpp:71-174 | after any run that ends with a retry while the store is up every accepted message has been handled, as often as it came, and nothing is queued or outstanding |
| ReceiveQueue.GivesUp | services/sms/sms_receive_handler.cpp:88-114 | with the store down to the end the retries stop and the queue is left as it was |
| ReceiveQueue.KeepsArrivalOrder | services/sms/sms_receive_handler.cpp:71-174 | over every run of distinct messages, what is handled and queued is in the order of arrival if and only if no message comes in while nothing is armed, the store is up and messages are queued |
| ReceiveQueue.Overtaken | services/sms/sms_receive_handler.cpp:88-174 | a run in which a queued message is overtaken by a later one |
| SendCache.SmsSender.SendCacheMapAddItem | services/sms/sms_sender.cpp:258-266 | an id already cached is refused |
| SendCache.SmsSender.UpdateUnSentCellCount | services/sms/sms_sender.cpp:323-336 | every cached cell of the reference counts one less, all others stay |
| SendCache.SmsSender.SendCacheMapTimeoutCheck | services/sms/sms_sender.cpp:232-246 | drops, while walking, exactly the cells older than 180 seconds |
| SendCache.SmsSender.SendMessageSucceed | services/sms/sms_sender.cpp:120-145 | reports once the last cell of a message is answered, as failed when the message's flag says so |
| SendCache.SmsSender.SendMessageFailed | services/sms/sms_sender.cpp:167-189 | flags the message and reports a failure at its last cell |
| SendCache.SmsSender.HandleResend | services/sms/sms_sender.cpp:361-391 | resends below the bound of the domain, with just that counter raised by one, and otherwise reports the failure |
| SendCache.SmsSender.RetryDelivery | services/sms/gsm/gsm_sms_sender.cpp:198-203 | a cell to be resent is cached again under a new id |
| SendCache.ResendRaises | services/sms/sms_sender.cpp:361-391 | a failure that allows it is resent below 3 in one domain and 4 in the other with that counter raised, and is final at the bound |
| SendCache.FailsInTheEnd | services/sms/sms_sender.cpp:361-391 | a cell that always fails in one domain is resent exactly as often as that domain allows, and the next failure is final |
| SendCache.LifeBounded | services/sms/sms_sender.cpp:361-391 | however a cell is answered again and again it is resent no more often than its counters leave |
| SendCache.ResendsBounded | services/sms/sms_sender.cpp:96-391 | in every run of responses and deliveries of resends no more cells are resent than their counters leave, at most seven for each cell, so resending ends |
| SendCache.SmsSender.ProcessResponse | services/sms/sms_sender.cpp:96-118 | one response is one step on cache, flags, reports and resends, and keeps the ids distinct |
| SendCache.RunReports | services/sms/sms_sender.cpp:96-391 | over every interleaving of single responses, resends among them, what is reported and what is to be resent for each message, at every moment |
| SendCache.ReportedOnce | services/sms/sms_sender.cpp:96-391 | once all cells of a message are answered it has been reported exactly once if and only if the last answer called for no resend; with a shared flag as failed if and only if a cell failed for good |
| SendCache.ReportedEarly | services/sms/sms_sender.cpp:274-391 | a message is reported as sent while a cell of it is to be resent if and only if the last answer called for no resend, an earlier one did, and no failure is known |
| SendCache.EarlyReport | services/sms/sms_sender.cpp:274-391 | two cells, the first to be resent and the second delivered: reported as sent |
| Segments.GetSegmentSize | services/sms/sms_base_message.cpp:287-326 | a non-empty text of a chosen coding has a positive part size |
| Segments.FindNextUnicodePosition | services/sms/sms_base_message.cpp:595-606 | always forward within the window, to its last character boundary when it has one |
| Segments.SplitMessageUcs2 | services/sms/sms_base_message.cpp:414-476 | the parts are the text between strictly increasing cuts, join to the whole (an odd last octet left out), and are non-empty and bounded |
| Segments.SplitEvenly | services/sms/sms_base_message.cpp:519-538 | equal parts and a rest, joining to the whole |
| Segments.SplitMessage | services/sms/sms_base_message.cpp:478-540 | for every coding the parts join to the text, are non-empty and at most the part size; no coding or no text gives no part |
| Segments.CutsCharacters | services/sms/sms_base_message.cpp:414-476 | a part but the last ends on a character boundary if and only if its window has one, and then on the last one |
| Segments.PartFits | services/sms/sms_base_message.cpp:287-326 | a part and its 6-octet header fit 140 octets without other headers; a full part fits if and only if it has none |
| Segments.AllPartsFit | services/sms/sms_base_message.cpp:287-326 | without port or language header, every part of a text that was cut fits 140 octets with its 6-octet header |
| Segments.OnePart | services/sms/sms_base_message.cpp:287-326 | with or without port and language a text is cut into one part if and only if it is no longer than the length for its headers |
| Segments.MaxSizeIsLargest | services/sms/sms_base_message.cpp:328-369 | a part of the size that allows for all headers fits 140 octets with them, and one unit more does not |
| Segments.ReportFills | services/sms/sms_base_message.cpp:542-584 | the characters and the remaining room reported together fill the reported parts, and no count is too large for its field |
| Segments.CountsAgree | services/sms/sms_base_message.cpp:328-606 | the parts that SplitMessage cuts are at least as many as the length calls for; except for UCS2 characters of several units exactly as many, never more than are reported, and as many as reported if and only if the length is one of those named; for UCS2 with boundaries at most 8 (10) units apart never more than reported |
| Segments.FewestAgree | services/sms/sms_base_message.cpp:328-369 | the count reported is never below the fewest parts that the length allows, and equal if and only if one is reported or the text also fits as many of the smaller parts that the report assumes, at most 9 |
| Segments.CutCount | services/sms/sms_base_message.cpp:414-476 | bounds on the number of UCS2 parts from the length and from how far apart character boundaries are |
| Segments.ReportTooSmall | services/sms/sms_base_message.cpp:414-584 | 476 octets of 14-unit characters are reported as four parts and cut into five |
| Segments.UnitCharacters | services/sms/sms_base_message.cpp:414-476 | a UCS2 text of one-unit characters is cut into as few parts as its length allows |
| TextCoding.TextCoder.constructor | utils/text_coder.cpp:87-93 | the map built in a loop is the inverse of the default alphabet |
| TextCoding.TextCoder.Ucs2ToGsm7bitAuto | utils/text_coder.cpp:572-612 | writes exactly the encoding of the longest prefix that fits, never half an escape pair, and leaves the rest of the buffer; an unknown character that is met is reported with an empty result |
| TextCoding.StopsFull | utils/text_coder.cpp:599-609 | stopping for lack of room stops at the longest fit and before any unknown character |
| TextCoding.Gsm7bitToUcs2 | utils/text_coder.cpp:776-816 | decodes up to the room, never writes beyond it with the closing zero, and refuses codes above 127 |
| TextCoding.DecodeStep | utils/text_coder.cpp:879-895 | one code or escape pair is one character; an escape at the end repeats the character before |
| TextCoding.ExtCodeBack | utils/text_coder.cpp:95-135 | an escaped code leads back to its character if and only if the code is not shared |
| TextCoding.RoundTrip | utils/text_coder.cpp:572-920 | for all four tables, decoding the encoding of a text gives it back if and only if it has no escape character and no character with a shared code |
| TextCoding.OnlyEscapeIsLost | utils/text_coder.cpp:95-120 | with the default and the Spanish table the only lost character is U+001B |
| TextCoding.CodeOfCharacter | utils/text_coder.cpp:87-93 | every code of the default alphabet is the encoding of the character it stands for, so no two codes share one |
| TextCoding.AsciiStays | utils/text_coder.cpp:30-39 | digits, Latin letters and most punctuation are their own codes |
| TextCoding.LetterAsOctets | utils/text_coder.cpp:584-586 | units are big-endian octets |
| TextCoding.CommonExtension | utils/text_coder.cpp:95-135 | the ten characters of the default extension have the same escaped codes in all four tables |
| TextCoding.ShiftedLetters | utils/text_coder.cpp:897-920 | what escaped codes mean for each language number, with and without single shift |
| TextCoding.OddEnds | utils/text_coder.cpp:776-816 | behind a text an escape repeats its last character, and an octet that is no code refuses the whole |
| TextCoding.DecodesPrefix | utils/text_coder.cpp:776-816 | with less room a lossless text comes back cut between characters |
| TextCoding.OctetsComeBack | utils/text_coder.cpp:572-816 | from octets to octets: an encoded prefix comes back as the octets it came from if and only if it is lossless |
| TextCoding.EncodeThenDecode | utils/text_coder.cpp:572-816 | with room on both sides encoding succeeds if and only if every character is known, and decoding then gives the octets back if and only if the text is lossless |
| WapBuffer.SmsWapPushBuffer.WriteRawStringBuffer | services/sms/sms_wap_push_buffer.cpp:58-81 | takes over non-empty messages up to the size limit |
| WapBuffer.SmsWapPushBuffer.ReadDataBuffer | services/sms/sms_wap_push_buffer.cpp:39-56 | copies a part if and only if it is not empty and lies in the buffer |
| WapBuffer.SmsWapPushBuffer.PeekOneByte | services/sms/sms_wap_push_buffer.cpp:121-129 | the octet under the cursor, and failure exactly at the end |
| WapBuffer.SmsWapPushBuffer.GetOneByte | services/sms/sms_wap_push_buffer.cpp:131-140 | reads and moves by one, and fails exactly at the end without moving |
| WapBuffer.SmsWapPushBuffer.IncreasePointer | services/sms/sms_wap_push_buffer.cpp:142-150 | moves if and only if the cursor stays in the buffer; the 32-bit sum cannot wrap |
| WapBuffer.SmsWapPushBuffer.DecreasePointer | services/sms/sms_wap_push_buffer.cpp:152-160 | moves back if and only if the start is not passed |
| WapBuffer.SmsWapPushBuffer.DecodeUintvar | services/sms/sms_wap_push_buffer.cpp:171-197 | ends at the first octet without continuation bit, or fails at the end of the buffer; the value is the base-128 number modulo 2^32 |
| WapBuffer.UintvarRoundTrip | services/sms/sms_wap_push_buffer.cpp:171-197 | a number written in its shortest form anywhere in the octets is found there with its end and value |
| WapBuffer.IntegerRoundTrip | services/sms/sms_wap_push_buffer.cpp:480-528 | a number written in at most eight octets, most significant first, is read back with its end |
| WapBuffer.SmsWapPushBuffer.DecodeValueLengthReturnLen | services/sms/sms_wap_push_buffer.cpp:233-264 | reads both forms of a length and how many octets it took, and where a failure leaves the cursor |
| WapBuffer.SmsWapPushBuffer.DecodeText | services/sms/sms_wap_push_buffer.cpp:383-411 | the text up to its zero octet without the quote, its counted length, and the cursor behind it or at the end |
| WapBuffer.SmsWapPushBuffer.DecodeShortInteger | services/sms/sms_wap_push_buffer.cpp:453-469 | succeeds exactly for an octet with the high bit |
| WapBuffer.SmsWapPushBuffer.DecodeLongInteger | services/sms/sms_wap_push_buffer.cpp:480-505 | at most eight octets as one big-endian number, and where failing leaves the cursor |
| WapBuffer.SmsWapPushBuffer.DecodeInteger | services/sms/sms_wap_push_buffer.cpp:513-528 | succeeds if and only if one of the two forms is there |
| WapBuffer.SmsWapPushBuffer.DecodeIsShortInt | services/sms/sms_wap_push_buffer.cpp:536-544 | looks without moving; false at the end |
| WapBuffer.SmsWapPushBuffer.DecodeIsString | services/sms/sms_wap_push_buffer.cpp:552-560 | looks without moving; false at the end |
| WapBuffer.SmsWapPushBuffer.DecodeIsValueLength | services/sms/sms_wap_push_buffer.cpp:569-577 | looks without moving; true at the end |
| WapContentType.SmsWapPushContentType.DecodeTextField | services/sms/sms_wap_push_content_type.cpp:267-279 | takes the text with its zero off the length and keeps the first text of each kind |
| WapContentType.SmsWapPushContentType.DecodeCharsetField | services/sms/sms_wap_push_content_type.cpp:291-331 | takes a known name or a number off the length, exactly what the cursor moved when the text is ended |
| WapContentType.SmsWapPushContentType.DecodeTypeField | services/sms/sms_wap_push_content_type.cpp:343-371 | takes a number or a text off the length |
| WapContentType.SmsWapPushContentType.DecodeParameter | services/sms/sms_wap_push_content_type.cpp:192-242 | ends for every input, and ends and records what the description of the parameters says |
| WapContentType.ParamConserves | services/sms/sms_wap_push_content_type.cpp:267-371 | for every kind of field cursor plus remaining length stays the same, one less exactly when a text runs off the buffer |
| WapContentType.ParamsConserve | services/sms/sms_wap_push_content_type.cpp:192-242 | over all parameters cursor plus remaining length stays the same unless the last text runs off the buffer |
| WapContentType.ReadParam | services/sms/sms_wap_push_content_type.cpp:267-371 | every kind of parameter that a sender can write is read back with its meaning and its exact length |
| WapContentType.ReadParams | services/sms/sms_wap_push_content_type.cpp:192-242 | parameters that fill their declared length are all learnt and leave the cursor exactly at its end |
| WapContentType.SmsWapPushContentType.DecodeCTGeneralForm | services/sms/sms_wap_push_content_type.cpp:121-171 | length, media type and parameters, with the conversion of the remaining length to 32 signed bits |
| WapContentType.SmsWapPushContentType.DecodeContentType | services/sms/sms_wap_push_content_type.cpp:74-103 | one of the three forms, where it ends and the length given back for it; ReadForm says that each written form is read back |
| WapContentType.ReadGeneralForm | services/sms/sms_wap_push_content_type.cpp:121-242 | a written content type with parameters is read as written, to its last octet |
| WapContentType.ReadForm | services/sms/sms_wap_push_content_type.cpp:74-171 | a content type written as one octet, as a text, or in general form with a number or a text as media type is read as written, to its last octet |
| WapContentType.OddLengths | services/sms/sms_wap_push_content_type.cpp:121-171 | what lengths of zero, too short ones and those of 2^31 or more make of a general form |
| WapContentType.TextLearnt | services/sms/sms_wap_push_content_type.cpp:267-279 | of several texts of one kind the first counts |
| WapPush.SmsWapPushHandler.DecodePushType | services/sms/sms_wap_push_handler.cpp:152-170 | accepts the two kinds of push only |
| WapPush.SmsWapPushHandler.DecodeWapPushPduData | services/sms/sms_wap_push_handler.cpp:53-82 | header and body are copied if and only if both are there and not empty |
| WapPush.SmsWapPushHandler.DecodeHeadersAndBody | services/sms/sms_wap_push_handler.cpp:107-120 | accepts if and only if the headers go beyond the content type and leave a body; the 32-bit sum that wraps is always refused |
| WapPush.SmsWapPushHandler.DecodeWapPushPdu | services/sms/sms_wap_push_handler.cpp:86-135 | for every octet string, accepts exactly the framed messages, and then header and body hexadecimal together are all octets from the start of the headers, each once (the whole message as body for application/vnd.wap.coc) |
| WapPush.HeaderThenBody | services/sms/sms_wap_push_handler.cpp:53-82 | the hexadecimal texts of header and body join to that of the octets |
| WapPush.WrittenAccepted | services/sms/sms_wap_push_handler.cpp:86-120 | a written message, its content type in any form, is framed and read as written, and accepted if and only if it has a header besides the content type and a body, which application/vnd.wap.coc may lack |
| WapPush.CocByNumber | services/sms/sms_wap_push_handler.cpp:53-120 | a push of type 0x32 in one octet is known as application/vnd.wap.coc |
| WapPush.SmsWapPushHandler.DecodeXWapApplication | services/sms/sms_wap_push_handler.cpp:230-245 | searches exactly the declared headers behind the content type |
| WapPush.SmsWapPushHandler.DecodeXWapApplicationField | services/sms/sms_wap_push_handler.cpp:254-269 | the search ends for every input and records the id it finds |
| WapPush.FindsFirstId | services/sms/sms_wap_push_handler.cpp:254-269 | over any headers written without code page shifts the search ends at the exact value of the first application id if and only if no header with a textual name precedes it |
| WapPush.FindsNoId | services/sms/sms_wap_push_handler.cpp:254-269 | over written headers without an application id it finds nothing |
| WapPush.HeadersGiveUri | services/sms/sms_wap_push_handler.cpp:254-290 | written headers give the uri of their first application id if and only if it is quoted and no textual name precedes it |
| WapPush.SmsWapPushHandler.DecodeXWapApplicationValue | services/sms/sms_wap_push_handler.cpp:278-290 | a number leaves the id, a text is read behind the octet already used up; when that succeeds and where it leaves the cursor |
| WapPush.SmsWapPushHandler.DecodeXWapAbandonHeaderValue | services/sms/sms_wap_push_handler.cpp:301-338 | a written value of any of the four forms is passed over exactly; the cursor never leaves the buffer |
| WapPush.SkipsWritten | services/sms/sms_wap_push_handler.cpp:301-338 | short length, quoted length, text and number, as a sender writes them, each end where the next header begins |
| WapPush.SkipsUnfit | services/sms/sms_wap_push_handler.cpp:301-338 | where values that reach beyond the end leave the cursor |
| WapPush.UriComesBack | services/sms/sms_wap_push_handler.cpp:278-290 | a uri as application id comes back whole if and only if it is written with a quote and does not start with one |
| MmsStore.SplitPdu | services/mms/mms_persist_helper.cpp:105-128 | the rows join to the spread message, none is empty or too long, and no pair of halves straddles two rows |
| MmsStore.RowsInOrder | services/mms/mms_persist_helper.cpp:114-125 | every row the loop cuts starts where the one before ended if and only if the spread message has at most 4294917120 octets |
| MmsStore.RecombineSpread | services/mms/mms_persist_helper.cpp:105-111 | joining the halves gives every octet back |
| MmsStore.SpreadNotZero | services/mms/mms_persist_helper.cpp:105-111 | no octet of a spread message is zero |
| MmsStore.SpreadPair | services/mms/mms_persist_helper.cpp:107-110 | the low half comes first, then the high half, each with the other half filled |
| MmsStore.SplitUrl | services/mms/mms_persist_helper.cpp:143-155 | gives the pieces in front of commas up to an empty one |
| MmsStore.UrlsOfIds | services/mms/mms_persist_helper.cpp:143-155 | joined row ids split back to the ids, in order |
| MmsStore.UrlsEnd | services/mms/mms_persist_helper.cpp:143-155 | an empty piece ends the ids, and what follows the last comma is left out |
| MmsStore.FetchRows | services/mms/mms_persist_helper.cpp:165-213 | rows read in the order of their ids give the joined chunks without the table's closing octets |
| MmsStore.ShortRowFails | services/mms/mms_persist_helper.cpp:165-206 | one row missing or of fewer than two octets fails the query |
| MmsStore.StoredComesBack | services/mms/mms_persist_helper.cpp:80-216 | a stored message comes back whole from any table that holds its rows |
| MmsStore.MmsPersistHelper.InsertMmsPdu | services/mms/mms_persist_helper.cpp:80-103 | stores all rows or stops at the first refused one, keeps all other rows, and on success from an empty text of ids the message can be fetched |
| MmsStore.MmsPersistHelper.QueryMmsPdu | services/mms/mms_persist_helper.cpp:157-216 | succeeds if and only if every named row exists and is long enough, and a failure keeps the old message |
| MmsStore.MmsPersistHelper.GetMmsPdu | services/mms/mms_persist_helper.cpp:130-136 | the fetched message, or nothing |

## Left out

- IPC stubs, permission checks, language bindings, logging, system events, HTTP, phone number formatting: plumbing.
- The first fetch of the modem's channel list and its process-wide flag, the waits and locks of the misc manager: the protocol model starts after the fetch, and a send is one step that succeeds or fails.
- CbConfig.SmsMiscManager.CloseCBRange: stated for from <= to, the only pairs its caller lets through; otherwise the walk need not end.
- CbText.ReadItems: the check that a text is a valid decimal is not part of the repository; it is taken as one or more digits with a value up to 2147483647.
- CbText.SplitMids: only the comma as delimiter.
- Septets.Pack7bitChar: stated for octets below 128 and for a buffer with one octet more than is filled, as its callers provide.
- Septets.Unpack7bitChar: nothing about its count as a number of septets, which it is not.
- PduBuffer: the members that look at or replace an octet without moving the cursor would only add easy contracts.
- Restart.CheckUnReceiveWapPush: what push messages deliver during a restart is not modelled, only which rows remain; neither is the deletion of the rows of a published message.
- PartStore: a query or deletion that the table does not carry out, and the content that is published besides the parts, are not modelled.
- Restart.RestartDelivers: a reference that messages of several senders or of different page counts share is not covered; their rows are grouped together by the code.
- ReceiveQueue: the running lock and the delays between retries.
- SendCache: the cache is a list in insertion order instead of an unordered map, cells are values instead of shared objects (the failure flag that parts share is kept apart); delivery reports, satellite and IMS switching, the size limit and the loop over the cache when the radio adapter dies.
- SendCache.ReportedOnce: runs of single responses without expiry; for cells that are cached and answered again only the number of resends is stated (ResendsBounded), not the reports.
- Segments: converting the parts back to UTF-8 and choosing the coding; a break iterator that cannot be created.
- TextCoding: encodings other than the automatic one, replacement characters, and locking shift tables.
- TextCoding.Gsm7bitToUcs2: negative lengths and null pointers, and an octet above 127 behind an escape, for which the code reads past its table.
- WapBuffer.SmsWapPushBuffer.WriteRawStringBuffer: stated for a cursor at the start, where all callers have it; writing nothing into a buffer that holds octets would leave it without them but with their number.
- WapBuffer: token text, quoted text and the value forms that no modelled decoder uses. The copy function of the platform, which refuses to copy nothing, is not part of the repository.
- WapContentType: the names of the assigned content types; a type is kept by its number or its spelling, and the only comparison made with it is modelled.
- WapPush.FindsFirstId: headers with code page shifts (section 8.4.1.1 of WAP-230-WSP) among them, which the search takes for names or values.
- WapPush.SmsWapPushHandler.DecodeWapPushPdu: the block list and the broadcast that follow an accepted message.
- MmsStore.MmsPersistHelper.InsertMmsPdu: releasing the data helper; deleting a stored message is left out. The table is assumed to answer an insertion with an error or a new id and to give a text back with one closing octet.
- Cell broadcast header, coding scheme and alert classification: finite tables.
