# Lirvena kernels, verified

Lirvena is a multi-account QQ client. Most of it maps protobuf fields; this project models the kernels that
carry real state, arithmetic or codec obligations, and proves what they are for. Each kernel is a module of its
own; where the source changes something step by step there is a class or a loop here too, tied to a function of
the same state, and the results are about that function over every input or every run.

- **Secure session and installation worker** (`SecureFrame`, `SecureSession`, `ClientConnection`,
  `SecureChannel`, `InstallationWorker`): counters, message cap and terminal close of one session, the frame
  bound as associated data, two endpoints over a network that may do anything, and the worker that serves all
  accounts over one connection. Counters follow section 5.1 of the Noise Protocol Framework, revision 34, and
  the 65535-byte bound section 3 of it.
- **Community telemetry** (`ActivityDays`, `TelemetryStore`, `TelemetryAccounting`, `TelemetryCounters`,
  `TelemetryRuntime`): reference-counted activity split over UTC days, against a log that counts milliseconds one
  by one, and the counters of a day.
- **Protobuf reserve** (`Varint`, `FieldList`, `MarkedReserve`): parsing an opaque field list, finding a place
  in it and splicing one field in, on raw bytes.
- **Message store** (`QuoteElements`, `MessageRow`, `MessageTable`): insert-or-replace with pruning, the
  flattened row and the length-prefixed element blob.
- **Notification outbox** (`NotificationStore`, `NotificationRuntime`): delivery rows, retry schedule, cooldown
  and bounded sweeps.
- **CQ syntax** (`CqText`, `CqParser`, `CqLocation`): escaping by sequential replacement, the scanning parser
  and what it makes of printed codes (OneBot 11, string message format).
- **Opaque slots and binding transcripts** (`OpaqueSlots`, `BindingTranscripts`, `IncrementalHash`).
- **Duplicate window and history** (`DuplicateWindow`, `HistoryDecoder`).
- **Account lifecycle** (`AccountLifecycle`): generations, compare-and-set commits and crash recovery.
- **Byte codecs and block loops** (`DeviceSnapshot`, `Chunking`, `HighwayUpload`, `CumulativeDigest`).

`Wrappers`, `Bytes`, `Sequences`, `Utf8` and `Extremes` hold what the kernels share. `dafny verify dfyconfig.toml` checks
everything.

Parameters stand for what the code calls but does not define: the AEAD, the hashes, the JSON and protobuf codecs
of inner messages, the carrier, the network's replies and the delivery adapters. No property of them is assumed
except where a lemma's `requires` says so.

## Where code and promises differ

The code is followed throughout. These are the places where what one would expect of it is not what it does:

- Closing a session is one-sided: the peer goes on accepting what was sealed before
  (`SecureChannel.PeerOutlivesAClose`); each side is final from its own close on.
- A clock set back before a reopen can make the telemetry wrong in two ways. Activity after the reopen that falls into
  milliseconds seen before is counted again (`TelemetryAccounting.EarlierReopenCountsTwice`); the reopen itself, if
  somebody is active, drops what lies between its time and the last activity
  (`TelemetryAccounting.EarlierOpenOfActiveStore`, for one `TelemetryAccounting.EarlierReopenLosesTime`). A refused
  interval past the last 32-bit day is counted again on each retry (`TelemetryAccounting.RetriedOverrunCountsAgain`).
  Days are exact throughout a run if and only if no call does one of the three
  (`TelemetryAccounting.EveryRunIsExactIffNothingMiscounts`).
- A join the telemetry store refuses stays in the runtime's set, so that account's leave ends the interval of
  another (`TelemetryRuntime.LateJoinEndsAnothersInterval`). Count and set part exactly at a refused change
  (`TelemetryRuntime.InStepIffTaken`).
- Re-putting a message with an older time can make pruning differ from global selection
  (`MessageTable.OlderReputLosesARow`; exactly when, `MessageTable.AlwaysGlobalIffNothingLost`).
- The location printer does not escape coordinates that come from the peer unchecked: exactly those without comma,
  closing bracket and code read back (`CqLocation.LocationReadsBackIffVerbatim`), and a decimal comma in either makes
  the whole message unreadable, unless a longitude's stands behind a latitude with a comma or bracket of its own
  (`CqLocation.DecimalCommaRejectsTheLocation`).
- The duplicate key of a push covers class, sender, subtype, sequence, random, timestamp, package index and eight
  digest bytes of the content, and nothing else (`DuplicateWindow.KeysAgreeIffSameIdentity`). A push that differs from a
  recent one in recipient, user identifiers, group, names, rich or encrypted text, package count, division or direct
  sequence or message uid, but in none of those, is dropped as its duplicate (`DuplicateWindow.MessageDecoder.Admit`).
- Device snapshots restore the kernel version from the kernel name, so a profile built with any other version does
  not come back whole (`DeviceSnapshot.NewProfileRecovered`). The constructor's documentation does not mention that
  the device name must be a host name and the kernel at most 89 bytes (`DeviceSnapshot.NewAcceptsExactly`).
- The sequence, offset and length a Highway response echoes are decoded and not compared: a block is acknowledged by
  exactly the well-formed replies without an error (`HighwayUpload.AcknowledgesIff`), also by the echo of another
  block (`HighwayUpload.UploadSucceedsOnForeignEchoes`).

## Model

| member | source | states |
|---|---|---|
| SecureChannel.AcceptedIsPrefixOfSealed | crates/ceylith-client/src/connection.rs:125-201 | Whatever the network drops, repeats, reorders or replaces, the list of (request id, message) a side has accepted is a prefix of the list the other side sealed, in both directions at once |
| SecureChannel.CountersNeverRepeat | crates/ceylith-crypto/src/session.rs:63-86 | The n-th frame a side ever emits decodes to counter n and to the n-th message it sealed, so no counter is used twice |
| SecureChannel.ClosedSideIsFinal | crates/ceylith-crypto/src/session.rs:126-136 | Once a side is closed, no later event changes anything about it: it neither accepts nor emits again |
| SecureChannel.AcceptsExactlyTheNextFrame | crates/ceylith-client/src/connection.rs:163-201 | An open side accepts a string if and only if it is exactly the next frame its peer emitted and fits its own limits; anything else closes it |
| SecureChannel.PeerOutlivesAClose | crates/ceylith-client/src/connection.rs:163-215 | Closing is local: at any point of a session, a string other than the next frame closes the side that gets it, and the peer still takes the next frame that side emitted before |
| SecureChannel.FreshLinkOutlivesAClose | crates/ceylith-client/src/connection.rs:163-215 | A run from a fresh link that gets there: a request sealed, garbage to its sender, and the peer accepts exactly that request |
| SecureChannel.SealKeepsSender | crates/ceylith-crypto/src/session.rs:63-86 | However sealing ends, log, emitted frames and send counter stay in step, every frame bound to its counter and request id, and a closed side does nothing |
| SecureChannel.SealsExactlyWhatItCan | crates/ceylith-client/src/connection.rs:125-161 | Sealing succeeds if and only if the connection is open, the message can be framed and the cap is not reached, and uses up one counter; a reached cap closes the session, any other refusal changes nothing, and each has its own error |
| SecureChannel.OpenedIsNextFrame | crates/ceylith-crypto/src/session.rs:93-122 | If opening advances the receive counter, the bytes are exactly the next frame the peer emitted |
| SecureChannel.DeliverKeepsReceives | crates/ceylith-client/src/connection.rs:163-201 | However delivery ends, what has been accepted stays the beginning of what the peer sealed, and a closed side does nothing |
| SecureFrame.HeaderInjective | crates/ceylith-protocol/src/frame/secure.rs:13-40 | Two headers that are equal were made from the same session, counter, request id and length |
| SecureFrame.DecodeOfEncodeFrame | crates/ceylith-protocol/src/frame/secure.rs:47-109 | A frame survives encoding exactly when its ciphertext fits the reader's limit; otherwise the reader reports the limit |
| SecureFrame.EncodeOfDecodeFrame | crates/ceylith-protocol/src/frame/secure.rs:70-109 | Accepted frames are canonical: re-encoding what was decoded gives the same bytes |
| SecureFrame.HeaderFields | crates/ceylith-protocol/src/frame/secure.rs:13-40 | Where magic, version, flags, session, counter, request id and length stand in the 52 octets of a header |
| Bytes.FirstOctetLeads | crates/ceylith-protocol/src/frame/secure.rs:13-40 | Numbers on the wire are big-endian: the first octet counts for the highest power of 256 |
| SecureSession.Session.WithMessageLimit | crates/ceylith-crypto/src/session.rs:38-44 | A cap is taken exactly when it is at least one and no more than the default; a refused one changes nothing |
| InstallationWorker.Run | crates/ceylith-client/src/installation.rs:307-331 | The queue loop replies to every command and drives the TCP client exactly as the recursive account of the queue does |
| InstallationWorker.ExchangeOpensNext | crates/ceylith-client/src/tcp.rs:67-80 | On an ideal link, one successful exchange has opened the next message of the peer, and that message was sealed for this very request id |
| InstallationWorker.ExchangeSucceedsIffAnswered | crates/ceylith-client/src/tcp.rs:67-80 | On an ideal link an exchange succeeds if and only if the request can be sealed, the stream takes it and returns the peer's next frame below cap and limits, and that message is for this request id; it then yields exactly the peer's message |
| InstallationWorker.StreamFailureIff | crates/ceylith-client/src/tcp.rs:67-80 | An exchange fails for its stream if and only if the frame is refused or the answer is missing, empty or longer than any frame; the connection stays open, with the request sealed |
| InstallationWorker.IdsAreDistinct | crates/ceylith-client/src/installation.rs:338-353 | Over any transport, no two requests of one worker share an identifier |
| InstallationWorker.DroppedIffStoppedBefore | crates/ceylith-client/src/installation.rs:307-331 | A caller is left without an answer if and only if some earlier command failed or asked for shutdown |
| InstallationWorker.DroppedCommandsLeaveNoTrace | crates/ceylith-client/src/installation.rs:307-353 | The commands that reach the transport are the first ones of the queue, one identifier each, and the transport ends where their requests alone bring it: a dropped command used no identifier and left no trace |
| InstallationWorker.WorkerWritesInQueueOrder | crates/ceylith-client/src/installation.rs:307-331 | The frames on the wire are the requests themselves in queue order: frame j is the encoded frame of command j, which is an exchange, sealed under the j-th counter and bound to identifier number j + 1 |
| InstallationWorker.FrameOpensToItsRequest | crates/ceylith-client/src/connection.rs:125-201 | Whoever can decrypt opens such a frame to the request itself, under its identifier |
| InstallationWorker.SuccessesAreThePeersAnswers | crates/ceylith-client/src/tcp.rs:67-80 | On an ideal link, the j-th successful reply is the j-th message the peer sealed, sealed for the identifier of the j-th request |
| InstallationWorker.AnsweredQueueSucceeds | crates/ceylith-client/src/installation.rs:307-331 | If the peer answers every request of the queue in order and the caps have room, every reply is a success and reply j is the peer's answer to request j |
| TelemetryStore.SplitDaysEffect | crates/community-telemetry/src/store.rs:312-336 | The day-splitting loop credits every day exactly its overlap with the interval, and fails exactly when the interval runs past the last day that fits 32 bits |
| TelemetryStore.CommunityTelemetryStore.AddActiveInterval | crates/community-telemetry/src/store.rs:312-336 | The loop over midnights leaves the daily table as the splitting function says |
| TelemetryStore.CommunityTelemetryStore.SetAccountActive | crates/community-telemetry/src/store.rs:114-120 | A join or leave changes count, open interval, last activity and days together, as the step function says |
| TelemetryStore.CommunityTelemetryStore.CheckpointActivity | crates/community-telemetry/src/store.rs:130-144 | The same for a checkpoint; when it is accepted is TelemetryAccounting.AcceptedIffAcceptable |
| TelemetryStore.CommunityTelemetryStore.Reopen | crates/community-telemetry/src/store.rs:296-310 | The same for the close of a stale interval on opening |
| TelemetryStore.CommunityTelemetryStore.OldestPending | crates/community-telemetry/src/store.rs:151-172 | The day handed out is unsent, over, and the least such day; none is handed out only if there is none |
| ActivityDays.AppendEvent | crates/community-telemetry/src/store.rs:251-294 | In the reference count, one more accepted call adds to each day the time since the call before it if somebody was active, less what of it was seen already, and nothing if nobody was |
| ActivityDays.SeenIffActive | crates/community-telemetry/src/store.rs:251-294 | While the clock only goes forward, the milliseconds of the reference count are exactly those before the last call at which the events up to then leave some account active |
| ActivityDays.DayBound | crates/community-telemetry/src/model.rs:39-44 | No log, however its clock jumps, can make a day longer than 86,400,000 milliseconds |
| TelemetryAccounting.EveryRunIsExactIffNothingMiscounts | crates/community-telemetry/src/store.rs:251-336 | From a fresh store, in every run at all: every day is exact before and after every call if and only if no call overruns the last tracked day, counts milliseconds seen before, or cuts an open interval by an earlier open; without a cut no day is ever short and exactness at the end alone is equivalent |
| TelemetryAccounting.RunExcess | crates/community-telemetry/src/store.rs:251-336 | In every run at all, the stored figure of each day plus the open part is its true activity, plus the milliseconds its calls overran or saw before, less those its opens cut off |
| TelemetryAccounting.EveryRunMeasuresEveryDay | crates/community-telemetry/src/store.rs:251-336 | In a run without such calls, each day's stored figure plus the open part is the milliseconds of that day with at least one active account, and never exceeds a day |
| TelemetryAccounting.ForwardNeverMiscounts | crates/community-telemetry/src/store.rs:296-310 | Runs in which no open goes back and no interval reaches past the last tracked day are among them |
| TelemetryAccounting.StepKeepsAccountIff | crates/community-telemetry/src/store.rs:251-336 | A single call, accepted or refused, whatever its time, keeps exact days exact if and only if it does none of the three |
| TelemetryAccounting.AcceptedIffAcceptable | crates/community-telemetry/src/store.rs:114-196 | In every reachable state each call succeeds exactly under conditions on its time and the row: a checkpoint needs a time from the last activity on at which an open interval can be closed, and nothing else if nobody is active; likewise opens, joins, leaves, counters and marks |
| TelemetryAccounting.EarlierOpenOfIdleStore | crates/community-telemetry/src/store.rs:296-310 | An earlier open of a store with nobody active is accepted, changes no day and keeps exact days exact |
| TelemetryAccounting.EarlierOpenOfActiveStore | crates/community-telemetry/src/store.rs:296-310 | An earlier open of a store with an open interval is accepted if and only if it lies neither before the interval nor past the last tracked day (unless where the interval starts); then every day loses exactly its part of the time between the open and the last activity, and exact days are exact no more |
| TelemetryAccounting.FailureChangesStateIffOverrun | crates/community-telemetry/src/store.rs:312-336 | A refused call leaves a trace if and only if it closes an interval that reaches past the last tracked day |
| TelemetryAccounting.CheckpointMakesDaysFinal | crates/community-telemetry/src/store.rs:130-144 | After a successful checkpoint, the figure of an earlier day is its true activity, plus exactly what of the last stretch had been seen before, and no later call changes it unless a reopen goes back before the checkpoint |
| TelemetryAccounting.EarlierReopenCountsTwice | crates/community-telemetry/src/store.rs:296-310 | A concrete run of the second kind: 198 ms are stored where 99 were active |
| TelemetryAccounting.EarlierReopenLosesTime | crates/community-telemetry/src/store.rs:296-310 | A concrete run of the third kind: 499 ms are stored where 999 were active |
| TelemetryAccounting.RetriedOverrunCountsAgain | crates/community-telemetry/src/store.rs:312-336 | A refused overrun that is retried credits the same millisecond again, for every state that ends in one |
| TelemetryCounters.EveryRunCountsItsCalls | crates/community-telemetry/src/store.rs:32-105 | In every run each day's counters are its accepted calls: messages received and sent, the largest group count, the changes of the account set, the first mark as sent; a day has a row exactly if it has activity or such a call |
| TelemetryRuntime.InStepIffTaken | bins/lirvena/src/telemetry.rs:210-225 | The runtime's set of active accounts stays in step with the store's count if and only if the store takes the change |
| TelemetryRuntime.RecordLifecycle | bins/lirvena/src/telemetry.rs:210-225 | A phase change updates the set first and then the store, as the lifecycle step says |
| TelemetryRuntime.LateJoinEndsAnothersInterval | bins/lirvena/src/telemetry.rs:210-225 | A concrete run: a refused late join lets that account's leave end the interval of another |
| TelemetryRuntime.CloseActiveAccounts | bins/lirvena/src/telemetry.rs:262-273 | Shutdown brings the count to zero if and only if the closing time can end the open interval |
| TelemetryRuntime.Flush | bins/lirvena/src/telemetry.rs:227-260 | A flush reports at most eight days, the oldest pending ones with none skipped, marks exactly those accepted, changes no duration and, if it stops early without a refusal, leaves nothing pending |
| TelemetryRuntime.ReportsAreFinal | bins/lirvena/src/telemetry.rs:227-260 | Every duration a flush reports is the true activity of its day, unless its checkpoint saw milliseconds a second time, and then those come on top; it stays so |
| TelemetryRuntime.FiguresMeasureTheActiveSet | bins/lirvena/src/telemetry.rs:123-273 | From any measured state, over phase changes, restarts and other calls in which the store takes every membership change and every open, refused checkpoints included: each day's figure is at all times the milliseconds during which the runtime's own set of active accounts was not empty if and only if no call overruns, counts again or cuts |
| TelemetryRuntime.FirstJournalIsMeasured | crates/community-telemetry/src/schema.rs:17-27 | A collector before its first open is such a state |
| TelemetryRuntime.ReportNext | crates/community-telemetry/src/store.rs:179-196 | Marking the oldest pending day extends the reported days by exactly the next one in order |
| Varint.DecodeOfEncode | crates/qq-envelope/src/marked.rs:193-216 | Every 64-bit value followed by any bytes reads back as that value, ending exactly behind its encoding |
| Varint.DecodeBounds | crates/qq-envelope/src/marked.rs:193-207 | A successful read takes one to ten bytes and yields a value that fits the bits those bytes can carry |
| Varint.OrIsAddition | crates/qq-envelope/src/marked.rs:193-207 | Bit by bit, the or of the bits read so far and the next group shifted into place is their sum: no bit is lost |
| Varint.GroupFits | crates/qq-envelope/src/marked.rs:193-207 | A group shifted into place stays below the next group's place |
| Varint.Read | crates/qq-envelope/src/marked.rs:193-207 | The shifting loop finds the value and end that the grammar gives, and fails exactly when it has none |
| Varint.Put | crates/qq-envelope/src/marked.rs:209-216 | The writing loop appends the canonical encoding |
| FieldList.PrintOfParse | crates/qq-envelope/src/marked.rs:156-191 | Parsing loses no byte: the fields in order, printed, are the message |
| FieldList.SpliceParses | crates/qq-envelope/src/marked.rs:108-126 | A whole field spliced between two fields appears there in the parsed list, and every other field keeps its bytes and place |
| MarkedReserve.HeadRecognises | crates/qq-envelope/src/marked.rs:156-191 | What the head of a message is does not depend on what follows it |
| MarkedReserve.HeadReadsPrintedField | crates/qq-envelope/src/marked.rs:156-191 | A field of any number and of wire type 0, 1, 2 or 5, printed as protobuf defines it, is read as exactly itself, whatever follows |
| MarkedReserve.HeadRefuses | crates/qq-envelope/src/marked.rs:156-191 | A field is refused if its number is zero or exceeds 32 bits, its wire type is 3, 4, 6 or 7, or its varint or fixed body is cut short |
| MarkedReserve.HeadRefusesShortOctets | crates/qq-envelope/src/marked.rs:174-191 | A length-delimited field with fewer octets than its length is refused |
| MarkedReserve.ParseOfPrintedFields | crates/qq-envelope/src/marked.rs:156-191 | A message of printed fields parses to exactly these fields |
| MarkedReserve.LocaleReads | crates/qq-envelope/tests/marked_reserve.rs:59-64 | The octets of a locale of 2052, and that they read as that field |
| MarkedReserve.SkipField | crates/qq-envelope/src/marked.rs:174-191 | Skipping a field of any wire type stops exactly behind the body that the reader sees, or fails |
| MarkedReserve.InsertionOffset | crates/qq-envelope/src/marked.rs:156-172 | The scan succeeds if and only if the message parses and lacks the field, and then points before the first higher-numbered field |
| MarkedReserve.AttachAccountIdentity | crates/qq-envelope/src/marked.rs:108-126 | Attaching fails exactly for a bad identity, a malformed reserve or a reserve that has the field; otherwise the result prints the field list with the identity inserted |
| MarkedReserve.AttachedParses | crates/qq-envelope/src/marked.rs:108-126 | The result parses to the old fields with exactly field 16 inserted, ascending input stays ascending, and a second attach fails |
| MarkedReserve.PrintedReserveTakesIdentity | crates/qq-envelope/src/marked.rs:108-126 | A reserve of printed fields takes a valid identity if and only if no field has number 16, and the result is these fields with the printed identity in place |
| MarkedReserve.IdentityRecovered | crates/qq-envelope/src/marked.rs:108-134 | The identity is readable back from the inserted field |
| Utf8.ControlFreeIff | crates/qq-envelope/src/marked.rs:128-134 | A text without control characters has only characters from 32 to 126 and from 160 on |
| MessageTable.AlwaysGlobalIffNothingLost | crates/account-message-store/src/lib.rs:208-249 | Throughout a run of puts, at any capacity, pruning after every put retains exactly the newest rows among the latest versions ever put if and only if no put moves a retained row back behind the first pruned one |
| MessageTable.PruningIsHarmlessIff | crates/account-message-store/src/lib.rs:464-473 | For one put, the same: pruning beforehand changes the outcome exactly for such a put |
| MessageTable.IncrementalIsGlobal | crates/account-message-store/src/lib.rs:208-249 | In particular, pruning is global selection if no re-put goes back in time |
| MessageTable.OlderReputLosesARow | crates/account-message-store/src/lib.rs:208-249 | At every capacity there is such a put: one re-put with an older time loses a row that global selection keeps |
| MessageTable.RunIsIncremental | crates/account-message-store/src/lib.rs:208-249 | Without removals, what the store holds after any run of puts and reopens is what pruning after every accepted put leaves |
| MessageTable.StoreHoldsTheNewest | crates/account-message-store/src/lib.rs:208-249 | So it holds exactly the newest 4096 of the latest versions, if no put loses a row |
| MessageTable.AtMostMaxMessages | crates/account-message-store/src/lib.rs:464-473 | Every run of puts, removals and reopens holds at most 4096 rows |
| MessageTable.LookupReturnsLastPut | crates/account-message-store/src/lib.rs:256-289 | In every run a lookup finds nothing or exactly the record last put under the identifier and not removed since, never an error |
| MessageTable.PutIsFoundIff | crates/account-message-store/src/lib.rs:208-289 | A put that is accepted is found again, as that very record, if and only if fewer than 4096 rows are newer; as the newest row always |
| MessageTable.MessageStore.PutRecord | crates/account-message-store/src/lib.rs:208-249 | A put flattens, replaces and prunes as the step function says, and fails exactly for a time beyond 63 bits |
| MessageTable.MessageStore.GetRecord | crates/account-message-store/src/lib.rs:256-289 | The lookup reads the row of that identifier, as the rows above have it |
| MessageTable.MessageStore.constructor | crates/account-message-store/src/lib.rs:177-184 | Opening prunes what an earlier version left behind |
| MessageTable.MessageStore.RemoveRow | crates/account-message-store/src/lib.rs:454-462 | Removing takes out exactly the row with the identifier |
| MessageRow.RecordRoundTrip | crates/account-message-store/src/lib.rs:495-640 | A valid record is stored if and only if its time fits, and then reads back identically, recall and quote included |
| MessageRow.ReadRecordsAreValid | crates/account-message-store/src/lib.rs:563-640 | Whatever row is found, what reads back from it is a valid record under its identifier |
| MessageRow.RecordAcceptedIff | crates/account-message-store/src/lib.rs:104-131 | A record is built exactly from an identifier of 31 bits, a nonzero time, a JSON object of at most 64 KiB and recall data without zeros, and holds what it was given |
| QuoteElements.QuoteBlobRoundTrip | crates/account-message-store/src/quote.rs:101-137 | The elements of every valid quote are accepted back from their blob, unchanged |
| QuoteElements.EncodedOfDecoded | crates/account-message-store/src/quote.rs:112-137 | The blob is canonical: what decodes is the encoding of what it decodes to |
| QuoteElements.QuoteAcceptedIff | crates/account-message-store/src/quote.rs:26-64 | Quote material is accepted exactly with nonzero numbers, a valid sender and one to 512 elements of bounded size, alone and together, and holds what it was given |
| QuoteElements.BlobAcceptedIff | crates/account-message-store/src/quote.rs:112-137 | The accepted blobs are exactly the encodings of one to 512 bounded elements that are not too long together |
| QuoteElements.EncodeElements | crates/account-message-store/src/quote.rs:101-110 | The writing loop makes the blob, and fails exactly for an element beyond 32 bits |
| QuoteElements.DecodeElements | crates/account-message-store/src/quote.rs:112-137 | The reading loop accepts exactly the acceptable blobs and returns their elements |
| NotificationRuntime.EveryRunStaysOnSchedule | crates/notify-runtime/src/store.rs:95-238 | In every run every row has at most 3, 4 or 15 failures by severity, the last of which abandons it; no pending row waits beyond its deadline, none is both delivered and abandoned, and non-recovery rows of one key keep the cooldown apart |
| NotificationRuntime.TerminalRowsAreFinal | crates/notify-runtime/src/store.rs:160-238 | A delivered or abandoned row never changes again |
| NotificationRuntime.FailuresAreBoundedByTimeLeft | crates/notify-runtime/src/store.rs:183-238 | The time between the next attempt and the deadline bounds the failures a pending row can still record |
| NotificationRuntime.SweepDrainsItsBatch | crates/notify-runtime/src/runtime.rs:313-340 | A sweep succeeds and settles exactly its batch: a row whose adapter answered with success is delivered at that time, any other has one more attempt and that error's code, with a retry or its end; delivered counts the successes |
| NotificationRuntime.RepeatedSweepsDrain | crates/notify-runtime/src/runtime.rs:313-340 | Repeated sweeps at one time drain everything due, a hundred rows each |
| NotificationRuntime.LifetimeBoundsAttempts | crates/notify-runtime/src/store/policy.rs:60-73 | Exactly 3, 4 or 15 failures exhaust the lifetime of each severity |
| NotificationRuntime.DeliverDue | crates/notify-runtime/src/runtime.rs:313-340 | The sweep loop attempts the rows of one batch in order, as the sweep function says; what that shows is the row above |
| NotificationRuntime.AttemptSettles | crates/notify-runtime/src/store.rs:160-238 | One attempt at a due row touches that row alone, keeps it on schedule and leaves it delivered if its adapter answered with success, else abandoned or due later with that error's code, at every time that can be stored |
| NotificationRuntime.FailureSettlesRow | crates/notify-runtime/src/store.rs:183-238 | A failure counts one attempt and reschedules later within the deadline or abandons |
| NotificationRuntime.WorkerStopsIff | crates/notify-runtime/src/runtime.rs:265-311 | A running worker stops exactly at a stop, a last sweep, a time that cannot be stored or a refused event that no caller awaits |
| NotificationStore.Outbox.Enqueue | crates/notify-runtime/src/store.rs:95-128 | Enqueueing adds one row per eligible destination or leaves the tables alone |
| NotificationStore.EnqueueQueuesTheWanted | crates/notify-runtime/src/store/policy.rs:12-58 | An enqueue succeeds exactly for one to 32 distinct destinations and storable times, and then queues, in order, exactly the destinations that have had no equivalent event within the cooldown, or all of them for a recovery |
| NotificationStore.Outbox.Due | crates/notify-runtime/src/store.rs:135-153 | The rows served are the first due ones in order of time and number, and all of them if they are fewer than the limit |
| CqText.UnescapeOfEscape | crates/adapter-onebot/src/message.rs:159-177 | Unescaping a parameter undoes escaping it, for every string, through the chains of sequential replacements |
| CqText.UnescapeOfEscapedText | crates/adapter-onebot/src/message.rs:159-169 | Unescaping text between codes undoes coding its ampersands and brackets, for every string |
| CqText.EscapedIsDelimiterFree | crates/adapter-onebot/src/message.rs:171-177 | An escaped value has no bracket and no comma |
| CqText.UnescapeFixedIffNoCode | crates/adapter-onebot/src/message.rs:159-169 | Unescaping leaves a parameter alone if and only if no code occurs in it |
| CqText.TextFixedIffNoCode | crates/adapter-onebot/src/message.rs:159-169 | Text between codes is kept if and only if none of these three codes occurs in it; the comma's code is kept there |
| CqParser.ParseOfPrint | crates/adapter-onebot/src/message.rs:86-137 | A message of codes and texts parses back to exactly its segments, empty texts dropped, if at most 256 come before its last text, and is refused otherwise |
| CqParser.ParseOfEscapedMessage | crates/adapter-onebot/src/message.rs:86-177 | A message of texts and codes, all escaped, parses back to these very texts and values |
| CqParser.ParseOfEscapedText | crates/adapter-onebot/src/message.rs:86-112 | Any nonempty text, escaped, parses back to itself alone |
| CqParser.BrokenCodeFailsTheMessage | crates/adapter-onebot/src/message.rs:86-112 | One code that is not closed or cannot be read fails the whole message, whatever is before or after it |
| CqParser.CodeReadsIff | crates/adapter-onebot/src/message.rs:114-157 | A code is read if and only if its kind may stand, every other piece has an equals sign behind a key that may, and no key comes twice |
| CqParser.RetainBoth | crates/adapter-onebot/src/message.rs:102-111 | Empty text segments are dropped segment by segment, all others kept in order |
| CqParser.RetainOne | crates/adapter-onebot/src/message.rs:102-111 | One segment is dropped if and only if it is a text segment with empty text |
| CqParser.ParseOfEscapedCode | crates/adapter-onebot/src/message.rs:86-177 | A code with escaped values parses back to its kind and those very values, whatever they are |
| CqParser.ParseCq | crates/adapter-onebot/src/message.rs:86-112 | The scanning loop accepts and returns what the recursive reading gives, whose meaning the rows above state |
| CqParser.ParseCqCode | crates/adapter-onebot/src/message.rs:114-137 | The same for one code |
| CqLocation.ReadsBackIffFaithful | crates/adapter-onebot/src/message.rs:114-177 | A code whose values are printed partly as they are reads back if and only if every such value is free of commas, closing brackets and codes |
| CqLocation.LocationReadsBackIffVerbatim | crates/adapter-onebot/src/event.rs:584-590 | The printed location reads back to its four values if and only if both coordinates, which are not escaped, are such values |
| CqLocation.UnescapedFieldReads | crates/adapter-onebot/src/message.rs:86-137 | A value printed as it is is read as its beginning before the first comma or closing bracket, unescaped |
| CqLocation.DecimalCommaRejectsTheLocation | crates/adapter-onebot/src/event.rs:584-590 | A latitude with a decimal comma makes the printed location unreadable as a whole, and so does a longitude with one whose latitude has no comma or closing bracket |
| CqLocation.OneTwoIsRejected | crates/adapter-onebot/src/event.rs:584-590 | The coordinate 1,2 is such a one |
| OpaqueSlots.New | crates/ceylith-protocol/src/opaque.rs:92-107 | Any sorting of the slots gives the same answer as judging them unsorted: count, then uniqueness, then aggregate length |
| OpaqueSlots.AcceptedIsCanonical | crates/ceylith-protocol/src/opaque.rs:92-107 | An accepted collection is sorted, unique, within both bounds and a rearrangement of what was given |
| OpaqueSlots.SameCollectionIffPermutation | crates/ceylith-protocol/src/opaque.rs:92-107 | Two lists make the same collection if and only if one is a rearrangement of the other |
| OpaqueSlots.OneOrder | crates/ceylith-protocol/src/opaque.rs:92-107 | Distinct slots can be put in order in one way only, so an unstable sort is as good as any |
| OpaqueSlots.Get | crates/ceylith-protocol/src/opaque.rs:139-144 | Binary search finds the slot with the number, or there is none |
| OpaqueSlots.WireRoundTrip | crates/ceylith-protocol/src/opaque.rs:114-135 | A collection survives its wire form |
| OpaqueSlots.AcceptedWireIsReproducedIffOrdered | crates/ceylith-protocol/src/opaque.rs:114-135 | Accepted wire slots are reproduced exactly if and only if they arrived in order |
| BindingTranscripts.TranscriptsAreUnambiguous | crates/ceylith-protocol/src/opaque.rs:171-195 | Two equal transcripts, of whatever kinds, come from the same kind of request with the same inputs, all of them |
| BindingTranscripts.EqualDigestsNeedACollision | crates/ceylith-protocol/src/action.rs:61-105 | Two different bound requests have different transcripts, so they share a digest exactly if these two transcripts are a collision of the hash |
| BindingTranscripts.DomainsTellKinds | crates/ceylith-protocol/src/action.rs:5-6 | No transcript of one kind equals one of another |
| BindingTranscripts.ExchangeLayout | crates/ceylith-protocol/src/opaque.rs:171-195 | Where domain, ids, numbers, count and slots stand in the transcript of an exchange, and that its slots read back |
| BindingTranscripts.FlowLayout | crates/ceylith-protocol/src/action.rs:62-86 | The same for an action flow |
| BindingTranscripts.ObservationLayout | crates/ceylith-protocol/src/action.rs:90-105 | The same for an observation, whose outcome is its wire number |
| BindingTranscripts.OpaqueBindingDigest | crates/ceylith-protocol/src/opaque.rs:171-195 | Feeding the hash piece by piece hashes exactly the exchange transcript |
| BindingTranscripts.ActionFlowBindingDigest | crates/ceylith-protocol/src/action.rs:62-86 | The same for an action flow |
| BindingTranscripts.ActionObservationBindingDigest | crates/ceylith-protocol/src/action.rs:90-105 | The same for an observation, whose payload has no bound here |
| DuplicateWindow.MessageDecoder.Admit | crates/qq-message/src/decoder.rs:63-103 | A body that passes validation is a duplicate if and only if its key is among the last 2048 admitted keys, that is, if and only if one of the last 2048 admitted envelopes has its identity, whether or not it is the same envelope; set and queue stay the same distinct keys, at most 2048 |
| DuplicateWindow.MessageDecoder.Remember | crates/qq-message/src/decoder.rs:94-102 | Insertion with expiry leaves exactly the last 2048 admitted keys in the window |
| DuplicateWindow.MessageDecoder.RetainedDedupEntries | crates/qq-message/src/decoder.rs:59-61 | The set has as many entries as the window |
| DuplicateWindow.AdmissionsAreSpaced | crates/qq-message/src/decoder.rs:63-103 | In every run a key is admitted again only after 2048 other admissions |
| DuplicateWindow.ShortRunsAdmitEachKeyOnce | crates/qq-message/src/decoder.rs:63-103 | Within 2048 pushes each key is admitted once, and all pushes are admitted if and only if no key repeats |
| DuplicateWindow.SameEnvelopeSameKey | crates/qq-message/src/decoder.rs:118-134 | Equal envelopes have equal keys |
| DuplicateWindow.KeysAgreeIffSameIdentity | crates/qq-message/src/decoder.rs:118-134 | Two valid pushes have one key if and only if class, sender, subtype, sequence, random, timestamp, package index and the first eight digest bytes of the content agree |
| DuplicateWindow.RecipientIsNotPartOfTheKey | crates/qq-message/src/decoder.rs:118-134 | So any push and the same push to another recipient have one key and different envelopes |
| DuplicateWindow.EnvelopeRoundTrip | crates/qq-message/src/decoder.rs:63-93 | Every envelope that a push can give is read back whole from the push that carries it, each named class from its message type |
| DuplicateWindow.MissingFieldsAreDefaults | crates/qq-message/src/decoder.rs:63-93 | What a push leaves out reads as zero or as absent |
| DuplicateWindow.PushAcceptedIff | crates/qq-message/src/decoder.rs:63-93 | A push is read if and only if it has both heads, a message type, and no text in it that is too long or holds a zero character |
| HistoryDecoder.DecodeGroupHistory | crates/qq-message/src/history.rs:72-115 | A group page is accepted if and only if request and response correlate, it is within the interval's length, every message reads and belongs, and no two share a key; the result is the page in order |
| HistoryDecoder.DecodeFriendHistory | crates/qq-message/src/history.rs:145-192 | The same for a page of direct messages |
| HistoryDecoder.GoodPageIsAdmittedWhole | crates/qq-message/src/history.rs:90-115 | A page that reads is accepted if and only if a duplicate window would admit all of it |
| HistoryDecoder.PageHasNoRepeats | crates/qq-message/src/history.rs:90-115 | No message occurs twice in an accepted page, and every one passes its page's check |
| HistoryDecoder.PageOfEnvelopes | crates/qq-message/src/history.rs:90-115 | Messages that carry envelopes are accepted if and only if each is one the page asks for, with a readable text, and no two have one identity, and read as these envelopes and texts in order |
| HistoryDecoder.GroupPageOfEnvelopes | crates/qq-message/src/history.rs:94-101 | A group page asks for the messages of that group numbered within the interval, zero left out |
| HistoryDecoder.FriendPageOfEnvelopes | crates/qq-message/src/history.rs:160-185 | A direct page asks for private messages from one of the two to the other, up to the given time |
| HistoryDecoder.IntervalsHaveAtMostAHundredPositions | crates/qq-message/src/history.rs:211-222 | The length computed for an interval is the number of sequence positions in it, zero left out, and at most a hundred |
| AccountLifecycle.EveryLogIsALifecycle | crates/account-runtime/src/store.rs:78-193 | However many handles interleave, the log is a chain in time with a reason exactly for protective stops, generations count the starts, and each generation runs Starting, at most one Active, at most one resting phase |
| AccountLifecycle.ComparisonIdentifiesTheRow | crates/account-runtime/src/store.rs:118-137 | A comparison of phase and generation alone succeeds only for a handle that has read the current row, all of it |
| AccountLifecycle.EveryRunIsWellFormed | crates/account-runtime/src/store.rs:118-153 | Every commit of every run is one that a single writer could have made |
| AccountLifecycle.TransitionAcceptedIff | crates/account-runtime/src/store.rs:155-193 | A transition is accepted if and only if the phase may be entered from the current one, the reason fits it, time does not go back and the numbers can be stored; it stores what was asked for, and only a start opens a generation |
| AccountLifecycle.RecoveryIsAccepted | crates/account-runtime/src/store.rs:103-116 | Recovery of an interrupted account is accepted if and only if its time fits 63 bits |
| AccountLifecycle.AccountStore.Open | crates/account-runtime/src/store.rs:21-36 | Opening fails only for a time that must be stored and does not fit, and leaves no account starting or active |
| AccountLifecycle.AccountStore.Transition | crates/account-runtime/src/store.rs:78-101 | A transition changes row and log together or neither, with the source's errors, and is one step of the interleaved runs |
| AccountLifecycle.AccountStore.CommitTransition | crates/account-runtime/src/store.rs:118-153 | The compare-and-set writes exactly when phase and generation are those read, however long ago, and then as in the interleaved runs |
| AccountLifecycle.AccountStore.RecoverInterrupted | crates/account-runtime/src/store.rs:103-116 | Recovery appends one protective entry, no earlier than the row, exactly for an interrupted account |
| AccountLifecycle.AccountStore.ReadSnapshot | crates/account-runtime/src/store.rs:38-76 | A stored row always reads back |
| DeviceSnapshot.SnapshotRoundTrip | crates/qq-domain/src/device.rs:252-286 | Every profile built from a portrait survives its snapshot unchanged |
| DeviceSnapshot.ProfileShowsItsPortrait | crates/qq-domain/src/device.rs:252-286 | A profile takes host name and hardware model from its portrait and the kernel from the release, without architecture, and its version without family |
| DeviceSnapshot.AcceptedSnapshotIsCanonical | crates/qq-domain/src/device.rs:378-413 | Encoding what accepted bytes carry gives the same bytes |
| DeviceSnapshot.NewProfileRecovered | crates/qq-domain/src/device.rs:199-244 | A profile from the direct constructor recovers everything but its kernel version, and is recovered whole if and only if that version is the kernel name without its family |
| DeviceSnapshot.NewAcceptsExactly | crates/qq-domain/src/device.rs:199-244 | The direct constructor accepts exactly valid identities and texts whose device name is a host name and whose kernel leaves room for the architecture suffix |
| DeviceSnapshot.TextAcceptedIff | crates/qq-domain/src/device.rs:428-433 | A text is accepted if and only if it has 1 to 96 octets, is its own trimmed form and has no control character |
| DeviceSnapshot.HostnameAcceptedIff | crates/qq-domain/src/device.rs:435-442 | A host name has small letters, digits and hyphens only, none of these at its ends, and at most 63 octets |
| DeviceSnapshot.SizeAcceptedIff | crates/qq-domain/src/device.rs:444-446 | A printed number is accepted as a size if and only if it is positive and fits 64 bits |
| DeviceSnapshot.NewProfileShowsItsArguments | crates/qq-domain/src/device.rs:199-244 | A profile from the direct constructor holds its arguments and the portrait made of them and of the fixed texts |
| DeviceSnapshot.EncodeSnapshot | crates/qq-domain/src/device.rs:340-371 | The appending loop writes the snapshot |
| DeviceSnapshot.DecodeSnapshot | crates/qq-domain/src/device.rs:378-413 | The shrinking reader accepts exactly the snapshots and returns what they carry |
| DeviceSnapshot.SnapshotReader.Text | crates/qq-domain/src/device.rs:467-474 | One text is read exactly when its length and its UTF-8 allow it, and the rest stays |
| HighwayUpload.SuccessDeliversTheObject | crates/qq-highway/src/upload.rs:96-147 | A successful upload has been acknowledged for ceil(length / chunk) frames whose bodies together are the object |
| HighwayUpload.BlocksTileTheObject | crates/qq-highway/src/upload.rs:114-123 | Blocks are numbered from one, start at offset zero, follow each other without gap and end with the object |
| HighwayUpload.BlockShowsTheJob | crates/qq-highway/src/upload.rs:114-137 | Every block carries the identity, command and secrets of the job, size and digest of the whole object, and its own piece at its offset |
| HighwayUpload.GeometryNeverRejects | crates/qq-highway/src/frame.rs:194-215 | A block of the loop is rejected only for what all blocks share: its number, offset and length never are the reason |
| HighwayUpload.AcknowledgedIsAPrefix | crates/qq-highway/src/upload.rs:96-147 | Whatever the network answers, the acknowledged frames are the first frames of the object, all of them if and only if the upload succeeds |
| HighwayUpload.AcknowledgedOfRun | crates/qq-highway/src/upload.rs:149-187 | The acknowledged frames are those whose post was answered by an acknowledgement, once each |
| HighwayUpload.TriesStopWhenSettled | crates/qq-highway/src/upload.rs:149-187 | A frame goes to the endpoints in order until one settles it; every answer before that was unclear |
| HighwayUpload.PostsAreBounded | crates/qq-highway/src/upload.rs:149-187 | No frame is posted more often than there are endpoints |
| HighwayUpload.FailureHasItsReason | crates/qq-highway/src/upload.rs:149-187 | A run that fails does so for its first unacknowledged block: it cannot be framed, its last post was rejected, or every endpoint left it unclear |
| HighwayUpload.AcknowledgesIff | crates/qq-highway/src/frame.rs:150-191 | A reply acknowledges a block if and only if it is a whole frame of bounded size whose head reports no error and a bounded extension, and rejects it if and only if such a frame reports an error or too long an extension |
| HighwayUpload.EchoesAreNotCompared | crates/qq-highway/src/upload.rs:180-184 | With any other echoes in the heads, every reply is judged the same |
| HighwayUpload.UploadSucceedsOnForeignEchoes | crates/qq-highway/src/upload.rs:149-187 | An upload of any number of blocks succeeds on one and the same reply to all of them, for every head the decoder reads as no error, whatever that head echoes |
| HighwayUpload.FrameRoundTrip | crates/qq-highway/src/frame.rs:132-142 | A frame gives back its head and its body under the framing of the responses, between its two marks |
| HighwayUpload.Upload | crates/qq-highway/src/upload.rs:96-147 | The upload posts and returns what the account of its frames says, or rejects its inputs before posting anything |
| HighwayUpload.SendBlock | crates/qq-highway/src/upload.rs:149-187 | The endpoint loop posts to a prefix of the endpoints and returns the verdict of the last |
| CumulativeDigest.CumulativeSha1 | crates/qq-media/src/upload.rs:189-200 | Nonempty bytes give one digest more than whole blocks, entry i of everything up to the end of block i, the last of all the bytes; empty bytes give none |
| Chunking.ChunkAt | crates/qq-highway/src/upload.rs:114-123 | Every chunk is the slice at its number times the size |
| Chunking.AllChunksAreTheBytes | crates/qq-media/src/upload.rs:189-200 | The chunks together are the bytes |

## Left out

- SecureChannel: the server endpoint is not in the repository, so both sides of the link run the client's own seal and open.
- SecureChannel: decryption is an ideal log per key; the Noise handshake that yields the keys is not modelled.
- InstallationWorker.Run: timeouts and cancelled callers; a request is served to its end, and a queue that is closed is a queue that has ended.
- InstallationWorker: building the inner frames of requests and the admission data; they are values here.
- TelemetryStore.CommunityTelemetryStore: the message counters and the account-set call take part in every run as steps and have no method of their own.
- TelemetryStore: crash points between the statements of one call, and counters beyond SQLite's 64 bits.
- TelemetryRuntime: the report identifier and the account-set digest, which are hashes of their arguments.
- TelemetryStore: the buckets to which a report coarsens a day's figures, one table lookup each.
- MarkedReserve: building a whole reserve and its random correlation.
- MessageTable: the lookups by quote, group and private message, schema migration, and file permissions.
- MessageRow: rendering and parsing of the stored JSON is a codec assumed faithful on what it renders.
- NotificationRuntime: the actor's channels and timers; a run is the list of commands they produce, in any order.
- NotificationStore: event texts and destination kinds, which no decision depends on.
- CqParser: JSON message segments, and the size and length checks around parse_message.
- BindingTranscripts: comparing a received digest with the computed one.
- DuplicateWindow: protobuf decoding of the outer push, and wire fields that no code reads.
- HistoryDecoder: encoding of the requests beyond their validation, and decoding of the outer response.
- AccountLifecycle: numeric codes of phases and reasons in the row, and the local account identifier, which never changes.
- DeviceSnapshot.DecodeSnapshot: checks the texts after reading all of them, where the source checks them before the power bytes; both fail with the one error there is.
- HighwayUpload: URLs, headers and time limits of the HTTP posts; a post has a reply or none.
- CumulativeDigest: the extension message the digests are put into.
- Grant planning, login transitions, request flags, address filters and protobuf field mapping: their claims can be read off single branches.
