# fmsgd: a verified model

fmsgd is a host for the fmsg protocol: it takes messages from other hosts over a
byte stream, challenges the sender on a second connection, stores what its users
accept, delivers its own users' messages, and exchanges small "indicator"
datagrams. This project models the parts of it that are hard to get right and
proves what they are for.

| Part | Files | Main results |
|---|---|---|
| Wire codec | `Many`, `Header`, `Parser`, `Codec`, `Connection` | The header reader accepts exactly the encodings of well-formed headers; the encoder is prefix-free; the imperative reader and writer do what the functions say |
| Size limits | `Sizes` | What the 32-bit size checks decide, exactly |
| Message identity | `Identity` | One hash, one message; a batch is sealed and reconstructed with the same hash from any snapshot |
| Receiving | `Receiver`, `ReceiverProofs`, `Admission`, `Acceptance`, `ReceiverRun`, `InboundRows` | Every response of every run is legal; every verdict with its exact condition; a 200 is sent if and only if every check was passed |
| Two-host exchange | `Outgoing`, `Exchange`, `ExchangeProofs`, `ExchangeRefines`, `EndToEnd`, `Witness`, `Failures` | Over every interleaving and failure: no protocol violation, agreement on codes, challenges verify, a row recorded as delivered is stored at the other host |
| Delivery rows | `Delivery`, `DeliveryRuns`, `DeliveryTables` | Over every run of concurrent delivery units: exactly which rows stay final and have a history of single attempts, and for those the back-off bounds the attempts |
| Message store | `Store` | Parent links, batches and identities stay consistent over every run |
| Indicators | `WindowLimiter`, `SourceLimiter`, `Datagram`, `Coalescer`, `Indicators` | The limiters are exact over whole runs; coalescing loses nothing; the index resolves to the same participant at the other host |
| Emoji | `Emoji` | The greedy scanner decides the grammar |

## How it is modelled

What the host asks of the outside (database lookups, DNS, user details, the
clock, UTF-8 and media-type tests, SHA-256, zlib) is a function in a record
(`Parser.Env`, `Identity.Crypto`, `Receiver.World`) that every theorem quantifies
over. Nothing is assumed of the hash except, where two messages are compared, that
it does not collide on those two.

Code that updates state step by step is a method or a class: the encoder writes a
buffer, `Connection.Conn` reads a stream and writes response bytes,
`ReceiverRun.DeliverAll` fills the array of codes, and the registry, the tables,
the limiters and the coalescer are objects changed in place. Each is proved equal
to a function on values, and the theorems are about those functions.

The two hosts are one state machine (`Exchange`): a step is a read, a reply, a
failure of either host at any point, or an event of another delivery of the same
sender. A run is any sequence of steps.

## Where the code does not do what one might expect

Each is stated with the exact condition under which the code does meet the property.

- Size totals wrap at 2^32. A header whose attachments add up to 2^32 bytes passes
  the limit (`SizeLimits.OversizedAccepted`); `SizeLimits.SizeCheckExactly` says
  precisely which oversized headers do.
- The outgoing registry keeps a set of addresses, not a count. Of two deliveries of
  one message to one address, the first to end hides the other
  (`Outgoing.SharedAddressLost`); `Outgoing.InFlightFoundIff` is the exact condition.
- The registry also keeps the first message registered under a header hash. A challenge is
  answered for the message sent if and only if no other was registered under its
  header hash when the sender started (`ExchangeProofs.ChallengeIsAnswered`,
  `ExchangeProofs.ChallengeVerifies`); `Failures.TwoMessagesOneHeader` is a run in
  which the receiver gives up on a sender that did nothing wrong.
- Delivery outcomes are recorded by table, message and address, not by batch, so a
  batch can overwrite another batch's row (`Delivery.OtherBatchDisturbed`), even one
  already delivered. `DeliveryRuns.StaysFinalIff` says exactly which rows stay as
  they are once final: those no other row of their table can disturb. Every _to_ row
  is among them when the _to_ entries are distinct up to case
  (`DeliveryRuns.ToRowsAreOnce`); `DeliveryRuns.AddedOnceIff` gives the condition for
  a row of a batch.
- An address listed in both _to_ and _add to_ is recorded twice; a locked row gets
  exactly one outcome if and only if the header lists its address once
  (`Delivery.ExactlyOneIff`).
- When an add-to extends a message already held, the rows of its added local
  recipients are marked delivered whatever was answered
  (`InboundRows.UnknownRecordedDelivered`, `InboundRows.AttachedRowAgreesIff`), and
  the _to_ rows keep what they recorded before (`InboundRows.EarlierRowAgreesIff`);
  `Failures.HeldAddToRecorded` is a run in which both happen.
  The same path compares domains exactly, while every other place ignores case.
- A terminal message cannot be stored once a row that names it was recorded without
  a parent link: `Store.StoredIffNoWaitingChild` is the exact condition, and
  `Store.WaitingChildHappens` a run that gets there.

## Model

| member | source | states |
|---|---|---|
| `Header.FlagsRoundTrip` | pkg/fmsg/fmsg.go:91-97 | a header's flags survive being put in one byte |
| `Header.ByteRoundTrip` | cmd/fmsgd/host.go:516-533 | every flag byte is the byte of the flags it is read as |
| `Header.AttachmentFlagsRoundTrip` | cmd/fmsgd/host.go:535-543 | attachment flags survive their byte, reserved bits included |
| `Header.WriteHeader` | pkg/fmsg/fmsg.go:91-183 | the buffer the writer fills, through its loops over recipients and attachments, is the declarative encoding of the header |
| `Header.WriteAddresses` | pkg/fmsg/fmsg.go:101-106 | the loop appends the encoding of every address, in order |
| `Header.WriteAttachments` | pkg/fmsg/fmsg.go:155-181 | the loop appends every attachment header, in order |
| `Prelude.LE32Decodes` | cmd/fmsgd/host.go:1141-1149 | a 32-bit size is read back as written |
| `Many.ManySound` | cmd/fmsgd/host.go:792-818 | a counted loop that accepts read exactly the encodings of its elements, each allowed after those before it |
| `Many.ManyComplete` | cmd/fmsgd/host.go:792-818 | a counted loop reads back any list allowed element by element, leaving the rest |
| `Codec.AddressTextParses` | cmd/fmsgd/host.go:439-462 | the text of a valid address parses to it: the last @ is the separator because a domain has none |
| `Codec.ParsedAddressText` | cmd/fmsgd/host.go:439-462 | whatever address text parses is a valid address whose text it is |
| `Codec.DomainHasNoAt` | cmd/fmsgd/host.go:412-437 | no valid domain holds an @ |
| `Codec.AddressListSound` | cmd/fmsgd/host.go:792-818 | an accepted recipient list is non-empty, valid, distinct up to case, and encodes to the bytes read |
| `Codec.AddressListComplete` | cmd/fmsgd/host.go:792-818 | every such list is accepted |
| `Codec.AddToSound` | cmd/fmsgd/host.go:820-891 | an accepted add-to part comes from a sender among from and to, with a pid, and encodes to the bytes read |
| `Codec.AddToComplete` | cmd/fmsgd/host.go:820-891 | every such part is accepted |
| `Codec.TypeSound` | cmd/fmsgd/host.go:914-944 | an accepted media type, common or written out, encodes to the bytes read |
| `Codec.AttachmentListSound` | cmd/fmsgd/host.go:975-1068 | accepted attachment headers have valid flags, types and distinct filenames and encode to the bytes read |
| `Codec.AttachmentListComplete` | cmd/fmsgd/host.go:975-1068 | every such list is accepted |
| `Codec.HeaderSound` | cmd/fmsgd/host.go:1070-1161 | an accepted header is well-formed and re-encodes to exactly the bytes consumed, so the lenient short reads are never accepted |
| `Codec.HeaderComplete` | pkg/fmsg/fmsg.go:91-183 | a well-formed header, encoded and followed by anything, is read back, leaving the rest |
| `Codec.HeaderCodec` | cmd/fmsgd/host.go:1070-1161 | the reader returns a header and a rest if and only if the header is well-formed and the input is its encoding followed by that rest |
| `Codec.EncodePrefixFree` | pkg/fmsg/fmsg.go:91-183 | no encoding of a well-formed header is a prefix of another's |
| `Codec.HeaderHashOfConsumed` | pkg/fmsg/fmsg.go:215-221 | the receiver's header hash is the hash of the transmitted bytes |
| `Connection.Conn.NextSlice` | cmd/fmsgd/host.go:465-472 | a length-prefixed read, short reads included |
| `Connection.Conn.NextAddress` | cmd/fmsgd/host.go:474-480 | reads and parses one address as the function does |
| `Connection.Conn.NextTo` | cmd/fmsgd/host.go:792-818 | the countdown loop with its seen map reads the list the function reads, and sends the same refusal |
| `Connection.Conn.NextAddTo` | cmd/fmsgd/host.go:820-891 | the add-to reader, with its own loop and seen map, does what the function says |
| `Connection.Conn.NextTime` | cmd/fmsgd/host.go:893-912 | reads the timestamp and refuses the past and the future |
| `Connection.Conn.NextType` | cmd/fmsgd/host.go:914-944 | reads a common or written-out media type |
| `Connection.Conn.NextAttachmentList` | cmd/fmsgd/host.go:975-1068 | the attachment loop with its running uint32 totals does what the function says |
| `Connection.Conn.NextHeader` | cmd/fmsgd/host.go:1070-1161 | the imperative reader consumes, returns and answers exactly what the specified reader does |
| `SizeLimits.TotalsWrap` | cmd/fmsgd/host.go:1030-1066 | the running totals are the true totals modulo 2^32 |
| `SizeLimits.SizeCheckExactly` | cmd/fmsgd/host.go:1030-1066 | no header that fits is refused; an oversized one passes exactly when a total reaches 2^32 and both remainders fit |
| `SizeLimits.SizeCheckDecides` | cmd/fmsgd/host.go:1145-1161 | below 2^32 the checks pass if and only if the true totals fit |
| `SizeLimits.ReaderReadsIff` | cmd/fmsgd/host.go:975-1161 | an otherwise valid header is read if and only if the remainders modulo 2^32 of both true totals fit, and the expanded size of a compressed body does |
| `SizeLimits.ReaderDecidesSizes` | cmd/fmsgd/host.go:975-1161 | an otherwise valid header with totals below 2^32 is read if and only if its true wire and expanded totals fit |
| `SizeLimits.OversizedAccepted` | cmd/fmsgd/host.go:975-1068 | an otherwise valid header with two attachments of 2^31 bytes is read, whatever the limits |
| `SizeLimits.StoredSize` | cmd/fmsgd/host.go:1304-1317 | the size checked against quotas and recorded as usage is the true expanded total |
| `SizeLimits.StoredSizeFitsInt64` | cmd/fmsgd/host.go:1304-1317 | that total cannot overflow for any well-formed header |
| `SizeLimits.ExpandedLength` | pkg/fmsg/fmsg.go:256-282 | the size checked and charged is the length of the payload that was hashed, modulo 2^32 |
| `Identity.ComputeMessageHash` | pkg/fmsg/fmsg.go:226-282 | feeding header and payloads part by part is hashing their concatenation, failing exactly when a payload is short, unreadable or of another expanded size |
| `Identity.PlainPartIff` | pkg/fmsg/fmsg.go:256-282 | an uncompressed file counts with exactly its declared first bytes |
| `Identity.CompressedPartIs` | pkg/fmsg/fmsg.go:256-282 | a compressed file counts with what it was compressed from, and only under its true length |
| `Identity.SameHashSameMessage` | pkg/fmsg/fmsg.go:226-251 | two messages with one hash, at two hosts, have the same header and the same expanded payload |
| `Identity.BatchIndependentOfSnapshot` | pkg/message/store.go:215-297 | a batch is the same message whether built from the original's snapshot or another batch's |
| `Identity.BatchKeepsPayload` | pkg/message/store.go:250-297 | the fields a batch changes leave the hashed payload alone |
| `Identity.BatchWellFormed` | pkg/message/store.go:250-297 | a batch of a non-terminal original that is well-formed, however old, is well-formed when its own time, adder and added addresses are |
| `Identity.RowAddressIff` | pkg/message/store.go:58-64 | a stored text is read as an address if and only if it is the text of that address, both parts non-empty and without an @, within 255 bytes |
| `Identity.FinalizeBatch` | pkg/message/store.go:215-297 | waits for a draft, returns the hash of a sealed batch, and otherwise seals the one batch whose adder and added addresses, in order, are those the stored texts spell; fails exactly when the snapshot does not verify, a text is no address or the count is out of range |
| `Identity.ReconstructedIsSealed` | cmd/fmsgd/host.go:666-678 | the hash sealed from any snapshot is the one a host holding the message, however old and with whatever batches merged in, reconstructs from the received header |
| `Receiver.OnDomainOfEmpty` | cmd/fmsgd/host.go:545-552 | the list of local entries is non-empty exactly when some entry is local |
| `ReceiverProofs.HeaderRefuses` | cmd/fmsgd/host.go:1070-1161 | the header reader answers only 1, 4, 7 or 8 |
| `ReceiverProofs.TimeRefusedIff` | cmd/fmsgd/host.go:893-912 | 7 exactly when, its routing good, the header's time is too far back, and 8 exactly when it is not, but too far ahead |
| `ReceiverProofs.AdmitCodes` | cmd/fmsgd/host.go:1162-1196 | admission answers 1, 6, 9 or 10, or goes on; 65 and 11 only for an add-to, 11 only when nobody added is here, 64 and 65 only with a local recipient |
| `Admission.AdmittedIff` | cmd/fmsgd/host.go:1162-1196 | exactly when a header is admitted with 64, 65 or 11, from who is addressed, who sends it, and what the host holds |
| `Admission.RefusedIff` | cmd/fmsgd/host.go:1162-1196 | exactly when it is refused with 1, 6, 9 or 10, or dropped without an answer |
| `Admission.AddToPathIff` | cmd/fmsgd/host.go:596-701 | every verdict on an add-to with its exact condition |
| `Admission.ReplyPathIff` | cmd/fmsgd/host.go:703-760 | every verdict on a reply with its exact condition |
| `Admission.ChallengedIff` | cmd/fmsgd/host.go:1204-1223 | the connection goes on with an answer exactly when proof is wanted and given, without one exactly when the message is taken on trust, and is abandoned otherwise |
| `Admission.OpeningCodeIff` | cmd/fmsgd/host.go:1843-1887 | exactly when the code after the challenge is 10 or 3; the admitted code otherwise |
| `ReceiverProofs.OpenCodes` | cmd/fmsgd/host.go:1742-1753 | after the challenge the code is the initial one, 10 or 3 |
| `ReceiverProofs.DuplicateIff` | cmd/fmsgd/host.go:1373-1387 | 10 after a challenge exactly when every local recipient already has the message |
| `ReceiverProofs.LoopAcceptsExactly` | cmd/fmsgd/host.go:1652-1718 | an entry's code is 200 exactly when it is in the accepted list of its kind, despite the attachment-failure reset |
| `ReceiverProofs.LoopCodes` | cmd/fmsgd/host.go:1652-1718 | every entry ends with its verdict, or 105 when its copy or the attachments could not be kept |
| `ReceiverProofs.DownloadCodes` | cmd/fmsgd/host.go:1598-1735 | the codes sent are those final codes, every 200 withdrawn when the store fails, and only after the hash matched the challenge |
| `ReceiverProofs.DownloadSettles` | cmd/fmsgd/host.go:1562-1596 | one code per local entry; any 200 sent implies committed storage, and exactly the accepted entries are charged, once per 200 |
| `ReceiverProofs.EveryRunIsLegal` | cmd/fmsgd/host.go:1794-1933 | on any input a run writes nothing, one header code, or 64 or 65 alone or with exactly one recipient code per local entry; 65 and 11 only for an add-to |
| `Acceptance.FinishesIff` | cmd/fmsgd/host.go:1598-1718 | a download finishes if and only if someone here is addressed, the data is genuine and every local entry can be answered |
| `Acceptance.CodesIff` | cmd/fmsgd/host.go:1269-1298 | for each of 100, 101, 102, 103, 105 and 200, exactly when an entry is sent it |
| `Acceptance.AcceptedIff` | cmd/fmsgd/host.go:1794-1933 | on any input, an entry is answered 200 if and only if a header was read and every check, from its sender to the store, was passed |
| `ReceiverRun.CollectLocal` | cmd/fmsgd/host.go:1357-1371 | the two loops list the local entries of to, then of add to, and count the former |
| `ReceiverRun.AllLocalReceived` | cmd/fmsgd/host.go:1373-1387 | the loop answers whether all have it, stopping at the first that does not or fails |
| `ReceiverRun.PrepareMessageData` | cmd/fmsgd/host.go:1395-1476 | reads exactly the declared sizes, or takes the stored payload when data is skipped |
| `ReceiverRun.DeliverAll` | cmd/fmsgd/host.go:1652-1718 | the loop that fills the codes in place computes the specified progress |
| `ReceiverRun.StoreAccepted` | cmd/fmsgd/host.go:1562-1582 | leaves the array of codes as sent, with acceptances downgraded on failure |
| `ReceiverRun.DownloadMessage` | cmd/fmsgd/host.go:1598-1735 | writes, consumes and stores what the specified download does |
| `ReceiverRun.ChooseOpening` | cmd/fmsgd/host.go:1827-1887 | the challenge, the duplicate check and the code sent are those specified |
| `ReceiverRun.HandleConn` | cmd/fmsgd/host.go:1794-1933 | the whole connection, on any input, writes and finishes as specified, so every theorem about runs is about it |
| `InboundRows.BuildOutcome` | cmd/fmsgd/host.go:1720-1726 | the outcome map holds, for each local address, the code of its last entry |
| `InboundRows.InsertedRowsAreFaithful` | cmd/fmsgd/store.go:453-462 | an inserted row is delivered, coded or not ours exactly as its address was answered |
| `InboundRows.AttachedRowAgreesIff` | cmd/fmsgd/store.go:414-431 | the row of an added recipient agrees with the answer exactly when that was 200 for the exact domain, or the address is not local |
| `InboundRows.EarlierRowAgreesIff` | cmd/fmsgd/store.go:380-393 | a to row, which attaching leaves alone, says what its entry is answered exactly when it recorded that very rejection before; a delivered one never does, as its user is answered 103 |
| `InboundRows.AddToAnswers` | cmd/fmsgd/host.go:1269-1298 | an add-to download answers 103 to a user who has the message and 100 to an unknown one |
| `InboundRows.RecipientRows.Attach` | cmd/fmsgd/store.go:372-433 | leaves every to row as it is, fails exactly when a to entry has none or the message is terminal, and otherwise adds the rows of the new batch and no other |
| `InboundRows.InsertedHas` | cmd/fmsgd/store.go:418-431 | every added recipient has its own row of the new batch |
| `InboundRows.InsertedKeys` | cmd/fmsgd/store.go:418-431 | the rows of other batches stay, and no row is there but for an added recipient |
| `InboundRows.UnknownRecordedDelivered` | cmd/fmsgd/store.go:414-431 | an unknown user added to a held message, in a delivery that is committed, is answered 100 and the row attached says delivered |
| `Failures.HeldAddToRuns` | cmd/fmsgd/host.go:1794-1933 | such a connection exists: 65, then 200 for a recipient and 100 for the added user, committed |
| `Failures.HeldAddToRecorded` | cmd/fmsgd/store.go:372-433 | after it the recipient, answered 102 before and 200 now, is still recorded with 102, and the added user as delivered |
| `Outgoing.FoundIffLive` | cmd/fmsgd/outgoing.go:25-66 | after any run a hash and address are found exactly when the last event about them was a registration |
| `Outgoing.NoEmptyEntries` | cmd/fmsgd/outgoing.go:57-66 | no entry outlives its addresses |
| `Outgoing.AnswerWasRegistered` | cmd/fmsgd/outgoing.go:39-53 | whatever a lookup returns was registered under that hash |
| `Outgoing.InFlightFoundIff` | cmd/fmsgd/outgoing.go:25-66 | a delivery that registered is found, whatever happened since, exactly when each end of a delivery of the same header to the same address was followed by the start of another |
| `Outgoing.FirstMessageAnswers` | cmd/fmsgd/outgoing.go:25-53 | while nothing removes the pair, a lookup answers with the message under the hash when it was registered; with one's own, in any run, if and only if no other was there |
| `Outgoing.SharedAddressLost` | cmd/fmsgd/outgoing.go:57-66 | two deliveries to one address: when one ends the other is no longer found |
| `Outgoing.OutgoingMap.RegisterOutgoing` | cmd/fmsgd/outgoing.go:25-34 | the map in place becomes the registered one, keeping the first message |
| `Outgoing.OutgoingMap.LookupOutgoing` | cmd/fmsgd/outgoing.go:39-53 | found only by hash and address together |
| `Outgoing.OutgoingMap.RemoveOutgoingIP` | cmd/fmsgd/outgoing.go:57-66 | removes one address, and the entry with its last |
| `ExchangeProofs.DataArrivesWhole` | cmd/fmsgd/sender.go:161-185 | the receiver takes from the sent data exactly the sender's payloads and nothing is left |
| `ExchangeProofs.PayloadIff` | cmd/fmsgd/host.go:1395-1476 | what a download takes for the message, exactly: body and attachments of the declared sizes, in order, and the rest left |
| `ExchangeProofs.TruncatedNotRead` | cmd/fmsgd/sender.go:625-629 | a header written only in part is never accepted, lenient as the short reads are |
| `ExchangeProofs.SameRecipients` | cmd/fmsgd/sender.go:580-597 | sender and receiver list the same entries in the same order |
| `ExchangeProofs.StepKeeps` | cmd/fmsgd/sender.go:531-714 | every step of either host, of a failure or of any other delivery keeps the protocol invariant |
| `ExchangeProofs.RunKeeps` | cmd/fmsgd/sender.go:531-714 | the invariant holds after every run |
| `ExchangeProofs.NoViolation` | cmd/fmsgd/sender.go:642-682 | in no run does the sender reach a protocol-invalid branch |
| `ExchangeProofs.HostsAgree` | cmd/fmsgd/sender.go:684-706 | when the sender has its codes they are the receiver's, entry by entry, no byte is left over, and every 200 was committed and charged |
| `ExchangeRefines.HeardIsWritten` | cmd/fmsgd/sender.go:631-706 | in every run a sender that ended with an answer heard exactly what the receiver wrote, to the last byte |
| `ExchangeRefines.ReceiverIsHandleConn` | cmd/fmsgd/host.go:1794-1933 | in every run the receiver of the exchange writes what handleConn writes on some input and challenge answer, and when done all of it |
| `ExchangeProofs.AnsweredIff` | cmd/fmsgd/host.go:482-505 | a challenge is answered exactly when a message is registered under the header hash for the address it comes from, with that message's hash |
| `ExchangeProofs.ChallengeIsAnswered` | cmd/fmsgd/host.go:482-505 | unless another delivery of the header to the address ended since the start, a challenge made while the sender waits is answered for the message first registered under the header hash; that is the one sent if and only if no other was registered there at the start |
| `ExchangeProofs.ChallengeVerifies` | cmd/fmsgd/host.go:1617-1625 | with the same proviso, whenever the receiver compares, over downloaded or stored data, the comparison succeeds if and only if the message first registered under the header hash has the hash of the one sent |
| `ExchangeProofs.SplitAtStart` | cmd/fmsgd/sender.go:618-629 | every run in which the sender has registered is a run before that and one after |
| `Failures.TwoMessagesOneHeader` | cmd/fmsgd/outgoing.go:25-34 | with another message of the same header in flight, the receiver is answered for that one and gives up |
| `ExchangeProofs.CleanRunFinishes` | cmd/fmsgd/sender.go:601-714 | without failures an admitted message is delivered: the sender ends with the receiver's codes |
| `EndToEnd.RecordedIsComputed` | cmd/fmsgd/sender.go:684-706 | in every finished run a locked row listed once is recorded with exactly the code the receiver computed for that entry |
| `EndToEnd.DeliveredMeansStored` | cmd/fmsgd/sender.go:531-714 | however the exchange runs, a row recorded as delivered stands for an entry the receiver accepted, committed and charged |
| `EndToEnd.RefusalRecorded` | cmd/fmsgd/sender.go:667-676 | a run that ends in a refusal records the very code the receiver wrote; an undelivered row is then final unless it is 3 or 5 |
| `EndToEnd.NotificationRecorded` | cmd/fmsgd/sender.go:655-666 | one that ends with 11 records a delivery with that code, for good |
| `EndToEnd.SilenceRecorded` | cmd/fmsgd/sender.go:225-232 | one without a usable answer records -1, and an undelivered row is tried again |
| `EndToEnd.SameList` | cmd/fmsgd/sender.go:580-597 | the list the exchange expects codes for is the one its delivery unit reads off the rows |
| `EndToEnd.RecordedIsWritten` | cmd/fmsgd/sender.go:531-714 | what a run of the exchange records is what finishing its unit writes to each row |
| `EndToEnd.SealedBatchIsReconstructed` | cmd/fmsgd/host.go:666-678 | a batch sealed from any snapshot is reconstructed by a receiver that holds the message, with or without batches of its own, as the exchange needs |
| `Witness.DeliveryHappens` | cmd/fmsgd/sender.go:601-714 | the assumptions on a setup can be met, and some run ends with the receiver's 200 read by the sender |
| `Delivery.WaitIsExponential` | cmd/fmsgd/sender.go:311-312 | the wait before attempt n+1 is the interval times a power of two |
| `Delivery.PendingIff` | cmd/fmsgd/sender.go:301-318 | exactly when a row is tried again, with the back-off in closed form |
| `Delivery.RecordedRow` | cmd/fmsgd/sender.go:190-207 | what a delivery and a failure leave in the row |
| `Delivery.LockedOutcome` | cmd/fmsgd/sender.go:642-682 | without codes a locked address is recorded once: a refusal with its own code, 11 as a delivery, a unit not to be sent with 1, anything else as no response |
| `Delivery.CodesRecorded` | cmd/fmsgd/sender.go:684-706 | with codes, each listing of a locked address is recorded with its own code, delivered exactly for 200 |
| `Delivery.NoticeOutcome` | cmd/fmsgd/sender.go:264-287 | a locked notify row gets the same outcome without codes, and counts as informed with the initial code after them |
| `DeliveryRuns.RowTracks` | cmd/fmsgd/sender.go:531-714 | over every run of concurrent units, what became of a row listed once and undisturbed is a history of single attempts, each begun when it was pending |
| `DeliveryRuns.HistoryIff` | cmd/fmsgd/sender.go:190-207 | a row has such a history in every run if and only if its own unit lists it once and no other row of its table disturbs it |
| `DeliveryRuns.AttemptsAreBounded` | cmd/fmsgd/sender.go:293-337 | over every run the recorded attempts n of such a row satisfy interval * (2^(n-1) - 1) < maximum age |
| `DeliveryRuns.AtMostThirteenByDefault` | cmd/fmsgd/sender.go:20-44 | with the default settings such a row never has more than 13 recorded failures |
| `DeliveryRuns.FinalForever` | cmd/fmsgd/sender.go:293-337 | once an undisturbed row is delivered or has a non-retryable code, -2 included, no later event of any run changes it |
| `DeliveryRuns.StaysFinalIff` | cmd/fmsgd/sender.go:190-207 | a final row stays as it is in every run if and only if no other row of its table, with its address up to case, has a unit that lists its spelling |
| `DeliveryRuns.WritesOnlyLocked` | cmd/fmsgd/sender.go:694-706 | a unit that records for an undisturbed row has locked that row |
| `DeliveryRuns.ToRowsAreOnce` | cmd/fmsgd/sender.go:580-597 | with to entries distinct up to case every msg_to row is listed once and undisturbed |
| `DeliveryRuns.NoticesAreOnce` | cmd/fmsgd/sender.go:264-287 | so is every notify row |
| `DeliveryRuns.AddedOnceIff` | cmd/fmsgd/sender.go:580-597 | a row of a batch is, exactly when the batch's header lists its address once and no other row of any batch, with that address up to case, is in a batch whose header lists its spelling |
| `Delivery.OutcomesRecorded` | cmd/fmsgd/sender.go:531-714 | every exit records one outcome for a locked row, or one per listing when codes were read |
| `Delivery.ExactlyOneIff` | cmd/fmsgd/sender.go:694-706 | exactly one outcome whatever happens, if and only if the header lists the address once |
| `DeliveryRuns.FinishIsAttempt` | cmd/fmsgd/sender.go:531-714 | finishing a unit that holds such a row is one attempt on it |
| `Delivery.OtherBatchDisturbed` | cmd/fmsgd/sender.go:190-207 | recording for one batch changes another batch's row of the same address, and leaves the msg_to row alone |
| `Delivery.UndisturbedIff` | cmd/fmsgd/sender.go:190-207 | a unit leaves a row alone, whatever happens, exactly when it is in the other table, or its address is not locked nor listed under a spelling of a locked one, or it is a notify row the unit did not lock |
| `DeliveryTables.Tables.LockPending` | cmd/fmsgd/sender.go:239-337 | holds exactly the pending rows of the unit's table and batch that no other unit holds, whatever their domain, and goes on with exactly those on its own |
| `DeliveryTables.Tables.UpdateLocked` | cmd/fmsgd/sender.go:210-214 | every row of the table with a locked address gets the outcome once, and no other row changes |
| `DeliveryTables.Tables.UpdateNotify` | cmd/fmsgd/sender.go:267-287 | the notify row, if locked, gets the outcome and nothing else changes |
| `DeliveryTables.Tables.RecordCodes` | cmd/fmsgd/sender.go:694-706 | after the loop each row of the table records, in order, the codes of the entries spelled like it |
| `DeliveryTables.Tables.DeliverUnit` | cmd/fmsgd/sender.go:531-714 | every exit leaves the rows as the finishing step of a run does |
| `Store.GuardedLinkOk` | dd.sql:119-170 | a row the trigger lets through points to a sent, non-terminal parent named by its parent hash |
| `Store.StepKeeps` | cmd/fmsgd/store.go:469-617 | every operation keeps the store valid |
| `Store.StoreStaysValid` | dd.sql:119-170 | over every run links point to sent, non-terminal, named parents; a batch is sealed exactly when its message is sent and carries its hash as pid; no two rows share a hash |
| `Store.TakenIff` | dd.sql:119-185 | in every valid store, for every operation, exactly when it is taken: creating, editing and finalising a draft, adding a batch, storing a message or an add-to, attaching |
| `Store.FinalizeIff` | pkg/message/store.go:143-211 | a draft is finalised if and only if it is unsent, the hash is new, all its open batches are sealed, and its parent, if any, is sent, takes replies and is named by the recorded hash |
| `Store.DraftEffect` | dd.sql:119-170 | a draft's row alone changes, with its parent's hash filled in |
| `Store.BatchEffect` | cmd/fmsgd/store.go:359-446 | a batch is added alone, sealed with the message's hash as pid exactly when the message is sent |
| `Store.StoreAddToEffect` | cmd/fmsgd/store.go:469-617 | an add-to of a message not held makes its row, its batch and the links of the rows that waited |
| `Store.StoreMessageEffect` | cmd/fmsgd/store.go:186-218 | storing links a reply and every waiting child, and changes nothing else |
| `Store.FinalizeEffect` | pkg/message/store.go:143-211 | finalising stamps the draft, seals all its batches with its hash as pid, and changes nothing else |
| `Store.StoredIffNoWaitingChild` | cmd/fmsgd/store.go:205-218 | a message that may be stored, as far as its row and parent go, is stored if and only if it is not both terminal and named by a waiting row |
| `Store.WaitingChildHappens` | cmd/fmsgd/store.go:205-218 | a run reaches such a waiting row, and the message it names is then stored exactly when not terminal |
| `Store.Database.ResolvePendingChildLinks` | cmd/fmsgd/store.go:181-210 | the row-by-row update links exactly the waiting children, or fails when the parent may not be pointed at |
| `Store.Database.StoreReceived` | cmd/fmsgd/store.go:469-617 | the transaction ends in the specified state, or leaves the tables untouched |
| `WindowLimit.RingDecides` | cmd/fmsgd/indicators.go:482-500 | a ring of the last n times answers as the whole history would |
| `WindowLimit.ForgettingIsSafe` | cmd/fmsgd/indicators.go:503-512 | a pruned key has no event left in the window |
| `WindowLimit.RunRepresents` | cmd/fmsgd/indicators.go:466-512 | after any run of allow and prune every ring holds the last n allowed times |
| `WindowLimit.LimiterIsExact` | cmd/fmsgd/indicators.go:482-500 | after any run an event is allowed if and only if fewer than n allowed ones of its key are in the window |
| `WindowLimit.WindowNeverExceeded` | cmd/fmsgd/indicators.go:464-512 | no window, wherever it starts, holds more than n allowed events of a key |
| `WindowLimit.WindowLimiter.Allow` | cmd/fmsgd/indicators.go:482-500 | the object answers and changes as specified |
| `WindowLimit.WindowLimiter.Prune` | cmd/fmsgd/indicators.go:503-512 | forgets exactly the keys whose latest event left the window |
| `SourceLimit.StepLevels` | cmd/fmsgd/indicators.go:411-450 | a source with a whole token passes and pays it, and nobody else's level changes |
| `SourceLimit.PassedIsPaid` | cmd/fmsgd/indicators.go:411-450 | what a run lets through is paid by the starting level and the time it took |
| `SourceLimit.RateBound` | cmd/fmsgd/indicators.go:406-462 | after any run, in any interval, a source gets at most burst + rate * length through, and the table stays within max |
| `SourceLimit.FullIff` | cmd/fmsgd/indicators.go:435-450 | a source is turned away for room exactly when it is unknown and as many others as the table takes were active within burst / rate |
| `SourceLimit.ForgettingUnobservable` | cmd/fmsgd/indicators.go:452-462 | from any equal levels, while there is room, the pruning limiter answers as one that never forgets |
| `SourceLimit.FreshLimitersAgree` | cmd/fmsgd/indicators.go:431-462 | so do two fresh limiters |
| `SourceLimit.SourceLimiter.Allow` | cmd/fmsgd/indicators.go:435-450 | the object answers and changes as specified |
| `SourceLimit.SourceLimiter.Prune` | cmd/fmsgd/indicators.go:454-462 | forgets exactly the sources idle for burst / rate |
| `Datagrams.DatagramCodec` | cmd/fmsgd/indicators.go:102-138 | parsing accepts exactly the marshalled valid datagrams |
| `Coalescing.RunKnows` | cmd/fmsgd/indicators.go:763-814 | the pending state of a key, or its absence, sums up the whole run |
| `Coalescing.SendsArePaced` | cmd/fmsgd/indicators.go:763-814 | non-clearing datagrams decided on for a key are at least the interval apart, forgetting included |
| `Coalescing.ReleasedIsLatest` | cmd/fmsgd/indicators.go:790-814 | a held change is released only if it is still the latest offer |
| `Coalescing.FlushSettles` | cmd/fmsgd/indicators.go:790-814 | once offers stop, a flush after the interval leaves the last datagram equal to the last offer, and later flushes send nothing |
| `Coalescing.Coalescer.OfferChange` | cmd/fmsgd/indicators.go:763-786 | sends now or holds, as specified |
| `Coalescing.Coalescer.FlushDue` | cmd/fmsgd/indicators.go:790-814 | releases and forgets exactly what is due |
| `Indicators.ParticipantAt` | cmd/fmsgd/indicators.go:146-159 | which participant each index names |
| `Indicators.PreferenceOrder` | cmd/fmsgd/indicators.go:240-255 | the original is tried before the batches, and those in their order |
| `Indicators.ParticipantIndex` | cmd/fmsgd/indicators.go:188-195 | the lowest index of an address, or -1 exactly when it is not a participant |
| `Indicators.CollectDomains` | cmd/fmsgd/indicators.go:219-238 | each remote domain of any subject, once |
| `Indicators.ChooseSubject` | cmd/fmsgd/indicators.go:241-255 | the first subject in order of preference with the domain and the address among its participants |
| `Indicators.SelectTargets` | cmd/fmsgd/indicators.go:219-263 | exactly one target per remote domain whose preferred shared subject can be named, none for any other |
| `Indicators.AddressableIffShares` | cmd/fmsgd/indicators.go:256-261 | for sealed subjects that is every remote domain sharing a subject with the participant |
| `Indicators.ParticipantsAgree` | cmd/fmsgd/indicators.go:288-385 | two hosts holding the subject of one hash list the same participants, also when one knows the original only through a batch |
| `Indicators.PublishedIff` | cmd/fmsgd/indicators.go:633-667 | when a datagram is published, exactly |
| `Indicators.LocalNoticeSent` | cmd/fmsgd/indicators.go:707-754 | a valid notice for a hosted address is sent for it, normalised |
| `Indicators.NoticeHandledIff` | cmd/fmsgd/indicators.go:707-725 | exactly when a notice is sent, ignored or rejected |
| `Indicators.NormalMeans` | cmd/fmsgd/indicators.go:722-725 | a clearing state is empty with no life; any other keeps its data, and its life up to 120 |
| `Indicators.PublishedNeverResent` | cmd/fmsgd/indicators.go:703-722 | a notice published from a received datagram is never sent again, and its ttl is at most 120 |
| `Indicators.IndicatorArrives` | cmd/fmsgd/indicators.go:633-667 | for every target chosen, the datagram is published at a host that holds the subject in any form, for the very participant it was sent for |
| `Emoji.ZwjElement` | internal/emoji/emoji.go:90-126 | the index and flag it advances give the specified length |
| `Emoji.TakeIsElement` | internal/emoji/emoji.go:90-126 | what is taken is an element of the grammar |
| `Emoji.TakeWholeElement` | internal/emoji/emoji.go:90-126 | before a joiner or the end the greedy scan takes the whole element |
| `Emoji.ScanDecides` | internal/emoji/emoji.go:61-79 | the scan accepts exactly the sequences that split into elements |
| `Emoji.SplitUnique` | internal/emoji/emoji.go:41-79 | a sequence splits into elements in one way only |
| `Emoji.IsPossible` | internal/emoji/emoji.go:41-79 | terminates and accepts exactly the grammar within its length bounds |

## Left out

- TLS, DNS and DNSSEC, HTTP calls to fmsgid, LISTEN/NOTIFY, deadlines, logging, environment loading and `main`: their answers are inputs.
- SQL text and locking: tables are maps, triggers are guards of the steps, a store transaction is one step, and a delivery unit is a locking and a recording step; of locking only that a held row is not locked again and an update of it waits.
- The inside of SHA-256 and zlib, of the emoji property tables and of the RGI set: parameters.
- The letter, number and separator rules of user and file names: predicates of the environment; the domain rules are modelled.
- Case folding: `ToLower` and `EqualFold` are one function.
- The float64 timestamp: eight opaque bytes in the codec, a real number in time checks.
- `Header.Encode`'s lookup of a common type written as text when its number is 0: headers are taken with the number filled in, as the parser and `ApplyCommonTypes` leave them.
- File names, temporary files, fsync and clean-up; a file operation either succeeds or fails, by an input.
- `Prepare`, `ApplyCommonTypes`, the compression heuristic and the JSON form of snapshots: they would add easy members; a snapshot is the wire message it holds.
- `ipCache`, `isMessageRetrievable` and the walk up a thread in `threadHasFromDomain`: lookups given as inputs.
- The framing of the challenge connection: its answer is the hash the other host looks up and computes.
- Grouping of indicator targets by subject and the choice among a domain's addresses: ordering is stated of decisions to send, not of sends, which happen after the lock is released.
- Purging, and the change of a batch's time when its draft is finalised.
- `markLocalDelivered`: one update of rows the sender otherwise never picks up; and the check that holds a reply back while its parent is pending, which only decides whether a unit begins.
- The race in which a parent is deleted between two lookups of one connection.
- SourceLimit.RateBound: in exact arithmetic, without the rounding of floating point.
- DeliveryRuns.AttemptsAreBounded: in exact arithmetic, and for clocks that do not go back: no unit begins before its message or batch was sent.
- DeliveryRuns.RowTracks: the batches of a message are given from the start; one added later is one whose units begin later.
- EndToEnd.DeliveredMeansStored: for an address the header lists once; one listed twice gets two codes, of which the later stands (Delivery.ExactlyOneIff).
