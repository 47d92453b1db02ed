# Verified models of the agent's integrations and checks

This project models, in Dafny 4.11, the parts of the repository whose correctness does not show in any one
function: protocols that run over many calls, several processes or several passes over a file. Each module
models one component. Loops and classes of the source are methods and classes here, proved against a
specification function; what the component promises is then proved about that function, for all inputs, all
runs or all interleavings.

* **Resumable mailbox reads** (`Utf8`, `Base64Url`, `Json`, `JsonReader`, `Cursors`, `Mime`, `Versions`,
  `MessageBody`, `ThreadPages`, `HistoryPages`, `HistoryReading`, `HistorySync`, `CutDeparture`). A mailbox
  object is a timeline of states whose revision rises with every write; a call reads the timeline at any moments.
  Three cursor protocols read it: history pages re-cut to a byte limit, thread pages read optimistically, and
  message bodies continued by byte offset. UTF-8 (section 3 of RFC 3629), unpadded base64url (section 5 of
  RFC 4648) and JSON lists and objects are modelled character by character, because offsets, limits and cursors are
  counted in bytes.
* **A rotating credential shared by processes** (`RotatingGrant`, `CredentialStore`). Every step of
  `access_token` is one atomic action of one of any number of processes; processes fail and crash at any point.
  Section 6 of RFC 6749 gives the provider's side. `CredentialStore` is the class itself, run while others
  interfere between any two of its steps.
* **Replay-safe run watching** (`RunWatch`, `EventStream`, `TerminalSafe`). The watcher's class and loops
  against a durable log, any server schedule and any handler failures; the event-stream parser against a
  frame-by-frame reading of sections 9.2.5 and 9.2.6 of the WHATWG HTML Living Standard; and the scanner that
  keeps control sequences off the terminal.
* **The citation ledger** (`Words`, `CitationText`, `CitationLedger`, `CitationRun`, `CitationDepartures`). The citation
  pattern is a character scanner; a repair is a splice into the text; the ledger maps citations to fingerprints.
* **Graph checks** (`ImportGraph`, `Migrations`), the **authentication-results scanner** (`AuthResults`),
  **effect reporting** (`Effects`) and **configuration overlays** (`Overlay`).

## Where the code and its promises part

Each of these is proved twice: as the exact condition under which the promise does hold, and on an input on
which it does not.

* A thread cursor is handed out whatever its length and accepted on return if and only if its JSON takes at most
  3072 bytes (`Cursors.ThreadCursorRoundTrip`); long thread ids outside ASCII exceed that
  (`Cursors.LongForeignThreadCursorRefused`).
* A body offset handed out is accepted on return if and only if it is at most 8388608
  (`MessageBody.HandedOutIsAcceptedIff`). The transport's bound is on the base64 text; decoding replaces each
  undecodable byte by three, so a message within the bound can have a body that is never read to its end
  (`MessageBody.LongBodyNeverEnds`, `MessageBody.LegacyTextIsTooLong`).
* A provider page token is accepted on return if and only if it is not blank (`HistorySync.TokenIsAccepted`,
  `HistorySync.BlankTokenIsRefused`).
* A listed attachment is fetched if and only if its name is neither blank nor holds a NUL (`Mime.ListedIsFetched`,
  `Mime.BlankNameIsNeverFetched`).
* A history page fails not when one change is over the limit but when neither one change nor the whole remainder
  fits (`HistoryPages.CutIsLongest`): the last page carries the provider's token instead of a local one, so one
  change may fail where two succeed (`CutDeparture.OneFailsTwoSucceed`).
* A refreshed token is not checked again. Every returned token is good for the skew if and only if no call hands
  out a grant that was shorter than the skew to begin with (`RotatingGrant.ReturnsAreFitIff`), and such a grant
  is handed out (`RotatingGrant.ShortGrantIsReturned`).
* The grant is lost if and only if a process that holds a rotated token fails or crashes before the replace
  (`RotatingGrant.LostIff`), as it can right behind any reserve (`RotatingGrant.CrashInWindowLoses`); this includes
  a rotation whose answer never becomes usable.
* A watch dispatches the log's next events without a gap if and only if no durable event comes behind an overflow
  frame that moved the resume position past an entry (`RunWatch.GaplessIff`, `RunWatch.ReplaySafe`); what such a
  frame skips is lost (`RunWatch.SkippedIsLost`, `RunWatch.OneOverflowLoses`).
* A check behind an update without errors passes if and only if no rewriting fell inside a cited span and every
  entry written is true (`CitationLedger.CheckAfterUpdateIff`), provided that the rewritten documents scan back as
  repaired, which is so if and only if no repair drops a range end in front of text that looks like one
  (`CitationLedger.FoundAgain`). Each of the three conditions can fail: `a.md:1-1` in front of `-9`
  (`CitationDepartures.GluedRepairBreaksUpdate`), an entry on record under an empty excerpt, which the tool never
  writes of its own accord (`CitationDepartures.EmptyExcerptBreaksUpdate`, `CitationLedger.ReadableStays`), and a
  document that cites a line in which another citation is repaired (`CitationDepartures.DisturbedSpanBreaksUpdate`).
* The migration check passes exactly the chains and some graphs with a ring (`Migrations.LinearIff`), such as a
  ring beside a chain and a ring below the head (`Migrations.RingBesideChainPasses`,
  `Migrations.RingUnderHeadPasses`).

## Model

| member | source | states |
|---|---|---|
| Utf8.DecodeInvertsEncode | src/gmail_mcp/client.py:438-458 | strict decoding gives every encoded string back |
| Utf8.EncodeInvertsDecode | src/gmail_mcp/sync.py:495-557 | what decodes strictly is the encoding of what it decodes to, so the decoder accepts exactly the encoded strings |
| Utf8.DecodePrefix | src/gmail_mcp/client.py:444 | cutting an encoded text at a byte limit and decoding with errors ignored keeps exactly the characters that fit whole |
| Utf8.FittingFills | src/gmail_mcp/sync.py:547-548 | the kept characters use at most the limit and fall short of it by at most three bytes unless everything fits |
| Utf8.FittingIsCut | src/gmail_mcp/sync.py:547-548 | and are as many as fit: one more would not |
| Utf8.Examples | src/gmail_mcp/sync.py:541-548 | the encoding agrees with the examples of RFC 3629 |
| Utf8.BoundaryIff | src/gmail_mcp/sync.py:541-546 | a byte prefix decodes if and only if it ends at a character boundary |
| Base64Url.RoundTrip | src/gmail_mcp/sync.py:304-326 | every byte string comes back from its unpadded encoding once the padding is recomputed |
| Base64Url.Examples | src/gmail_mcp/sync.py:304-310 | the encoding agrees with the examples of RFC 4648 and has the URL-safe characters |
| Base64Url.EncodedLength | src/gmail_mcp/sync.py:304-310 | the length of an encoded text is fixed by the number of bytes, rounded up without padding |
| Json.CompactIsSmaller | src/gmail_mcp/sync.py:43-49 | the compact form of any value never takes more bytes than the form with blanks |
| Json.QuoteExamples | src/gmail_mcp/sync.py:43-49 | each kind of character is written as `json.dumps` writes it |
| Json.DumpExamples | src/gmail_mcp/sync.py:43-49 | and so are the values, with the separators of each style |
| Json.FieldsWithin | src/gmail_mcp/sync.py:435-451 | the size of an object is additive over its fields, so differences in fields bound the difference in size |
| JsonReader.RowBack | src/gmail_mcp/sync.py:304-326 | a list of numbers, strings and nulls is read back as itself from either style in which cursors are written, escapes and surrogate pairs included |
| JsonReader.WrittenIsRead | src/gmail_mcp/sync.py:43-49 | whatever is written in any of the styles used is read back as the value it was written from, so the written forms say everything and in order |
| Cursors.RowsReadBack | src/gmail_mcp/sync.py:96-148 | the one law asked of the JSON reader can be kept: no two such lists, in either style, are written alike |
| Cursors.HistoryCursorRoundTrip | src/gmail_mcp/sync.py:96-148 | every history cursor the code can mint is within the checks on the way in and gives back the same page, limit, offset and fingerprint, whatever `max_results` comes with it |
| Cursors.HistoryCursorConfined | src/gmail_mcp/sync.py:96-148 | a history cursor is refused for any other account or start id |
| Cursors.HistoryPositionIs | src/gmail_mcp/sync.py:96-135 | no token starts at the front, a provider token passes as it is, and a position read from any token, forged ones included, is within the limits |
| Cursors.LocalPositionIff | src/gmail_mcp/sync.py:96-135 | a local cursor, forged or not, is accepted if and only if it reads as a list of a version, this account, this start, a page, a limit, an offset and a fingerprint within their bounds; and the position is the one it names |
| Cursors.ThreadCursorRoundTrip | src/gmail_mcp/sync.py:304-326 | a thread cursor is accepted with its fields if and only if its JSON takes at most 3072 bytes |
| Cursors.PlainThreadCursorReturns | src/gmail_mcp/sync.py:304-326 | cursors for thread ids of printable ASCII always come back |
| Cursors.LongForeignThreadCursorRefused | src/gmail_mcp/sync.py:304-326 | the failing family: thread ids of 512 or more characters outside ASCII pass their own check and yield cursors that are refused |
| Cursors.ThreadCursorConfined | src/gmail_mcp/sync.py:312-326 | a thread cursor is refused for any other account or thread |
| Cursors.ThreadPositionIs | src/gmail_mcp/sync.py:312-326 | the same limits for any thread token |
| Cursors.ThreadPositionIff | src/gmail_mcp/sync.py:312-326 | and the same for thread cursors |
| Mime.PopAndPush | src/gmail_mcp/client.py:305-354 | popping a part and pushing its children in reverse keeps the order of what is still to be visited |
| Mime.PreorderIs | src/gmail_mcp/client.py:305-354 | the preorder holds each part of the tree at its path exactly once, parents before children, children in order |
| Mime.BodyTextIs | src/gmail_mcp/client.py:305-337 | the body text is the decoded plain parts in document order, one below the other; only where there is none, the rendered HTML parts |
| Mime.PayloadContent | src/gmail_mcp/client.py:305-337 | the explicit-stack walk equals recursive preorder: it returns the message's plain or rendered text and the attachments in document order |
| Mime.AttachmentParts | src/gmail_mcp/client.py:340-354 | the second walk returns the attachment parts in the same preorder |
| Mime.CheckInline | src/gmail_mcp/sync.py:58-81 | the walk that takes children last-first decides exactly whether every part of the tree is readable inline |
| Mime.InlineIff | src/gmail_mcp/sync.py:58-81 | that is, whether every part at every path has its text here and decodable, attachments and other types aside |
| Mime.ListingMatches | src/gmail_mcp/client.py:305-354 | the listing and the parts have equal length, and each entry gives its part's file name cut to 1024 characters, its type, and its size where that is positive |
| Mime.ListedIsFetched | src/gmail_mcp/client.py:368-394 | a listed position and name fetch the very part that was listed there, exactly when the name is one the fetch accepts |
| Mime.BlankNameIsNeverFetched | src/gmail_mcp/client.py:368-394 | an attachment with a blank name is listed, and no index and no name fetch it |
| Mime.OtherNameIsNotFetched | src/gmail_mcp/client.py:389-394 | any other name at that position fetches nothing |
| Versions.RevisionPins | src/gmail_mcp/sync.py:366-451 | when writes raise the revision, one revision names one content at whatever moments it is seen |
| Versions.NothingBetween | src/gmail_mcp/sync.py:411-434 | reading the same revision before and after means nothing was written in between |
| MessageBody.ChunkInOrder | src/gmail_mcp/sync.py:495-557 | a call at a character boundary returns the whole characters that fit, ends at a boundary and, unless the body ends, moves by at least `max_bytes - 3` bytes |
| MessageBody.ChunkFits | src/gmail_mcp/sync.py:495-557 | the closing size check of a body chunk can never fail |
| MessageBody.InlineBodyIs | src/gmail_mcp/sync.py:344-362 | the body shown inline is the most whole characters that 65536 bytes hold, complete exactly when it is all, with the offset right behind it where it is not |
| MessageBody.AnswersWithoutText | src/gmail_mcp/sync.py:495-540 | the answers of a call that has no text to give, each in its own case: bad arguments, a message that is gone, moved on or not inline |
| MessageBody.RunProgress | src/gmail_mcp/sync.py:495-557 | after any number of calls pinned to one revision the client holds exactly the characters up to the boundary it asks for next, whatever was written in between |
| MessageBody.BodyRebuilt | src/gmail_mcp/sync.py:344-362 | the inline body followed by the chunks of any run that reports no change is the full body of one revision, in a bounded number of calls |
| MessageBody.BodyReadFromStart | src/gmail_mcp/sync.py:495-557 | a body read from offset 0 is rebuilt in the same way |
| MessageBody.ChangedChunkIsEmpty | src/gmail_mcp/sync.py:520-536 | a chunk says `source_changed` exactly when the message is gone or at another revision, and then carries no text |
| MessageBody.OffsetAcceptedIff | src/gmail_mcp/sync.py:541-546 | an offset is accepted if and only if it is a character boundary of the body and at most 8388608 |
| MessageBody.HandedOutIsAcceptedIff | src/gmail_mcp/sync.py:495-557 | for a message that stands still, an offset that a call hands out is accepted in turn if and only if it is at most 8388608 |
| MessageBody.LongBodyNeverEnds | src/gmail_mcp/sync.py:495-557 | no run of chunks reaches the end of a body of more than 8388608 + 65536 bytes |
| MessageBody.LegacyTextIsTooLong | src/gmail_mcp/client.py:438-458 | a text part of 2900000 undecodable bytes takes less than half the transport's bound, counts as inline, and decodes to such a body |
| ThreadPages.KeepFitting | src/gmail_mcp/sync.py:435-440 | the appending loop keeps a prefix of the fetched messages, the longest below the reserve by `KeptIsLongest` |
| ThreadPages.KeptIsLongest | src/gmail_mcp/sync.py:435-440 | a prefix of the messages leaves 8192 of the page's 1048576 bytes free if and only if it is no longer than the one kept |
| ThreadPages.ReserveSuffices | src/gmail_mcp/sync.py:435-451 | with a token that fits into the reserve, a call over a non-empty window fails exactly when its first message alone reaches into the reserve; the closing check never fails |
| ThreadPages.PageIsSnapshot | src/gmail_mcp/sync.py:366-451 | a page without `source_changed` holds consecutive messages of one state, all read in it, each under its own id with its record's revision and header verdict and the inline part of its body; at least one while any is left; its token stands right behind them; its counts are right, and it is complete exactly when it ends the thread and holds each message whole |
| ThreadPages.PageIsLongest | src/gmail_mcp/sync.py:423-440 | and it holds the most of the messages asked for that leave the reserve free |
| ThreadPages.AnswersWithoutMessages | src/gmail_mcp/sync.py:366-410 | the answers of a call that reads no message, each in its own case: bad arguments, a thread that is gone, malformed or at another revision than the token, a position behind its end |
| ThreadPages.AnswersWithMessages | src/gmail_mcp/sync.py:411-434 | the answers of a call that does: it fails with the fault of the first message that is missing, foreign or malformed, or of the second index; it reports a change exactly when the revision is another one or a message is newer than it; and otherwise it delivers or is over the limit |
| ThreadPages.QuietThreadIsDelivered | src/gmail_mcp/sync.py:366-451 | a thread nobody writes to is delivered, and the call fails exactly when the first message alone reaches into the reserve |
| ThreadPages.RunIsPrefix | src/gmail_mcp/sync.py:366-451 | after any number of such pages the client holds the first messages of one revision, each under its own id |
| ThreadPages.PagesAreOneSnapshot | src/gmail_mcp/sync.py:290-451 | following tokens to the end gives exactly the message ids of one revision, in order and once each, with the inline bodies of that revision, in at most one page per message plus one |
| ThreadPages.WrittenThreadIsReported | src/gmail_mcp/sync.py:411-434 | a thread written during a call is always reported, and the page then carries no message |
| HistoryPages.FlattenLoop | src/gmail_mcp/sync.py:205-235 | the nested loops return the flattened changes of all records, or fail where any record is malformed; `HistoryReading` says which changes these are |
| HistoryPages.RecordLoop | src/gmail_mcp/sync.py:208-235 | one record contributes its four kinds of changes in their fixed order |
| HistoryReading.EntryIff | src/gmail_mcp/sync.py:221-235 | an entry reads as a change if and only if its message has an id and a thread id and its labels are texts, its own ones or else the message's; the change then says just these |
| HistoryReading.FlattenedAre | src/gmail_mcp/sync.py:205-235 | the changes of a page are made one from each entry of each of the four lists of each record, in document order, each under its record's id and its list's kind |
| HistoryReading.FlattenReadsIff | src/gmail_mcp/sync.py:205-235 | flattening fails exactly where some record has no id, a list that is none, or an entry that does not read |
| HistoryReading.NormalizeIff | src/gmail_mcp/sync.py:202-236 | a whole answer reads as its history id, the token it names, and the flattened records, if and only if these are there and no more than asked for |
| HistoryPages.FitsDownward | src/gmail_mcp/sync.py:256-288 | short of the last change, a page that fits has only smaller pages that fit |
| HistoryPages.SearchLargest | src/gmail_mcp/sync.py:269-287 | the binary search returns what trying every count from the largest down would return |
| HistoryPages.CutPageLoop | src/gmail_mcp/sync.py:256-288 | the whole cut, measuring the full count first, equals the specification of the cut |
| HistoryPages.CutIsLongest | src/gmail_mcp/sync.py:256-288 | the page is the longest that fits and not empty while changes are left; it fails exactly when neither one change nor the whole remainder fits |
| CutDeparture.OneFailsTwoSucceed | src/gmail_mcp/sync.py:256-288 | a page on which asking for one change fails and asking for two delivers both |
| HistoryPages.EmptyPageFits | src/gmail_mcp/sync.py:256-288 | a page without changes always fits |
| HistorySync.SyncChangesLoop | src/gmail_mcp/sync.py:169-288 | the call with its loops computes the specified answer for every provider |
| HistorySync.AnswerIs | src/gmail_mcp/sync.py:169-288 | which answer a call gives: a resync exactly where the provider no longer knows the start or shows another page than the cursor was cut from, the provider's own refusals, and a failure exactly where the answer does not read or the page cannot be cut |
| HistorySync.DeliversSlice | src/gmail_mcp/sync.py:169-288 | a call delivers the next changes of the page at its position, at least one while any is left, and a token right behind them |
| HistorySync.ContinuationPinsPage | src/gmail_mcp/sync.py:236-254 | a continuation delivers exactly when the provider still shows the page it was cut from; any page that differs without a digest collision gives `resync_required` and no changes |
| HistorySync.RunStands | src/gmail_mcp/sync.py:96-288 | after any number of calls with any limits the client stands at one exact position of the provider's pages |
| HistorySync.RunIsExact | src/gmail_mcp/sync.py:96-288 | against a stable provider a run delivers the changes of `FlattenedAre`, page after page, without a gap or a repeat and ends within one call per change plus one per empty page |
| HistorySync.TokenIsAccepted | src/gmail_mcp/sync.py:96-135 | a token handed out is accepted next time, except a provider token of nothing but blanks |
| HistorySync.BlankTokenIsRefused | src/gmail_mcp/sync.py:96-135 | under settings that keep every law assumed here, a blank provider token is handed out and refused by the next call |
| RotatingGrant.StepKeepsInv | src/svp_mcp/credential.py:129-200 | every step of every process, failures and crashes included, keeps the invariant over file, lock and provider |
| RotatingGrant.GrantSafety | src/svp_mcp/credential.py:129-200 | in every interleaving the file is one whole document, one process at most is inside the lock, outside the rotation window the file holds the live token unless a window was broken off, and a spent token is presented only after that |
| RotatingGrant.LostMeansBrokenOff | src/svp_mcp/credential.py:146-187 | a lost grant names the event that lost it: a failure or crash of a process that holds an unsaved rotated token |
| RotatingGrant.LostIff | src/svp_mcp/credential.py:146-187 | over whole runs the grant is lost if and only if such an event happened |
| RotatingGrant.CrashInWindowLoses | src/svp_mcp/credential.py:146-187 | from every state in which a process has reserved its file, a rotation followed by its crash leaves a spent token in the file |
| RotatingGrant.LostGrantIsOver | src/svp_mcp/credential.py:146-187 | once lost, the provider refuses every refresh and the file stays as it is |
| RotatingGrant.FailingEarlySpendsNothing | src/svp_mcp/credential.py:146-157 | over whole runs, a call that fails or crashes while it waits, reads or reserves has presented no refresh token since it began, and leaves provider and file as they were |
| RotatingGrant.PresentFollowsReserve | src/svp_mcp/credential.py:146-166 | in every run a process presents the refresh token only right after its own successful reserve, with the reserved file still in place |
| RotatingGrant.ExpiredFileIsReserved | src/svp_mcp/credential.py:129-157 | a call that finds the token in the file expired gets to reserve, so the states behind a reserve are reached |
| RotatingGrant.ReturnsAreFitIff | src/svp_mcp/credential.py:124-127 | no call of any process returns the token it was told is rejected; and every returned token outlives the skew at the moment it was checked or granted if and only if no call hands out a grant shorter than the skew |
| RotatingGrant.ReturnedTokensAreFit | src/svp_mcp/credential.py:124-127 | while every grant outlives the skew, so does every returned token |
| RotatingGrant.ShortGrantIsReturned | src/svp_mcp/credential.py:189-200 | without that condition it fails: a schedule on which a grant shorter than the skew is returned |
| RotatingGrant.RunKeepsKnown | src/svp_mcp/credential.py:146-200 | every access token in the file, a cache or a return was issued by the provider |
| RotatingGrant.SingleFlight | src/svp_mcp/credential.py:189-200 | callers in any processes holding the same expired or rejected token cause one replacement of the file at most; no call returns before it and all return the one new token |
| CredentialStore.Machine.Do | src/svp_mcp/credential.py:129-200 | one atomic step, recorded in the run it extends |
| CredentialStore.Machine.Interfere | src/svp_mcp/credential.py:129-144 | whatever other processes do in between leaves this process where it was, and nothing but their own enabled steps happens |
| CredentialStore.CredentialStore.Refreshed | src/svp_mcp/credential.py:146-187 | reserve, refresh, write, replace, in that order. It fails as invalid only where a step behind the reserve fails, and as a failed refresh only where the provider gave no new grant for the live token; otherwise the file ends up holding the grant |
| CredentialStore.CredentialStore.Ask | src/svp_mcp/credential.py:158-166 | the refresh token is presented once, and granted whenever it is live and the provider answers with a new grant |
| CredentialStore.CredentialStore.Decide | src/svp_mcp/credential.py:195-200 | the token just read is returned when it is good at that moment, and otherwise refreshed |
| CredentialStore.CredentialStore.UnderLock | src/svp_mcp/credential.py:129-157 | the same for the whole locked section: while every step succeeds it never fails as invalid, and it ends with the file holding what it returns |
| CredentialStore.CredentialStore.FromFile | src/svp_mcp/credential.py:129-144 | the locked section, entered once the lock is free, returns the file's token if that was good when judged and otherwise the new grant, which the file then holds; `CredentialInvalid` means that a step failed, `RefreshFailed` that the provider granted nothing new or the file's token was not live; it stays blocked only while another process holds the lock throughout the waits |
| CredentialStore.CredentialStore.AccessToken | src/svp_mcp/credential.py:189-200 | under any interference: a cached token that is good when looked at is returned, and no other; else the token comes from the file as in `FromFile`, with the same meaning of the two failures; a raising call leaves the cache as it was; what is returned was issued, is not the rejected token and, given long grants, is good for the skew; a call is blocked only while another process holds the lock |
| CredentialStore.ReadWithRetry | src/svp_mcp/client.py:127-156 | at most two requests are sent, the second only after a 401 and never with the same token, and the answer is that of the last one |
| RunWatch.WatchState.HandleEvent | client/veetbot_client/chat.py:317-390 | how one event moves the resume position and the terminal status; it goes on exactly after a plain event and an answered prompt, ends with the status of a terminal event, reconnects after an overflow or a connection lost in a prompt, and raises after any other failure there |
| RunWatch.WatchState.ReadStream | client/veetbot_client/chat.py:392-426 | reading a stream dispatches its events in order up to the one that leaves it |
| RunWatch.WatchRun | client/veetbot_client/chat.py:392-426 | the nested loops with their two retry counters have the specified outcome for every server |
| RunWatch.StreamReadsTo | client/veetbot_client/chat.py:392-410 | a stream is dispatched up to and including the first event that ends it, or to where the server ends it |
| RunWatch.DoneIff | client/veetbot_client/chat.py:392-426 | a watch ends with a status if and only if it handled a terminal event, which is then the last one handled and names that status |
| RunWatch.WatchHistory | client/veetbot_client/chat.py:392-426 | it gives up exactly when it would reconnect more than `max_total_reconnects` times, or more often in a row without an event than its attempts allow |
| RunWatch.StreamAdvances | client/veetbot_client/chat.py:317-426 | each event one stream dispatches fits at the resume position it meets, a durable one being the log's next entry, and the position afterwards is the one these events lead to |
| RunWatch.WatchAligned | client/veetbot_client/chat.py:392-426 | the same over all streams a watch opens |
| RunWatch.PlaceIsCountIff | client/veetbot_client/chat.py:317-390 | the resume position counts exactly the durable events dispatched if and only if no handled overflow moved it past an entry |
| RunWatch.GaplessIff | client/veetbot_client/chat.py:317-390 | the durable events dispatched are the log's next ones without a gap if and only if none came behind such an overflow |
| RunWatch.SkippedIsLost | client/veetbot_client/chat.py:317-390 | an entry that an overflow moves the position past, at any point of any streams, is dispatched neither before nor after |
| RunWatch.WatchInOrder | client/veetbot_client/chat.py:392-426 | each durable event is dispatched at most once and in log order, whatever handlers and overflow frames do |
| RunWatch.WatchGapless | client/veetbot_client/chat.py:392-426 | when no overflow handled names a sequence beyond the position it meets, none is left out |
| RunWatch.WatchEnds | client/veetbot_client/chat.py:392-426 | a watch that finished ends in the terminal event, and the number of streams is bounded |
| RunWatch.ReplaySafe | client/veetbot_client/chat.py:317-426 | at most once, in order, at most `max_total_reconnects + 1` streams; exactly the log's first events if and only if no durable event came behind a skip, and for a finished watch, which then ends in the terminal event and by `DoneIff` is one that handled it, if and only if no overflow skipped |
| RunWatch.OverflowAheadSkips | client/veetbot_client/chat.py:317-390 | an overflow that runs ahead, at any point of any stream a watch opens, loses the entries it skips |
| RunWatch.OneOverflowLoses | client/veetbot_client/chat.py:317-426 | a server on which a watch handles one overflow and never dispatches the event it names |
| EventStream.ParseSse | client/veetbot_client/api.py:158-199 | the streaming parser equals splitting the lines at blank ones and interpreting each frame alone, with the first fault ending the stream |
| EventStream.StripIs | client/veetbot_client/api.py:169-172 | line ends behind a line are dropped, and nothing else |
| EventStream.FieldOfIs | client/veetbot_client/api.py:186-190 | a field's value is what stands behind the first colon, less one blank in front |
| EventStream.ValuesAre | client/veetbot_client/api.py:188-196 | the values of a field are those of the lines that name it, in their order |
| EventStream.DispatchIs | client/veetbot_client/api.py:131-155 | what a frame's fields come to: nothing without data, each error in its own case, and otherwise the object under the kind and the id the frame gives |
| EventStream.PiecewiseAtBlank | client/veetbot_client/api.py:158-199 | input cut at a blank line parses piecewise, so no id or data leaks from frame to frame |
| EventStream.OversizedFrameRaises | client/veetbot_client/api.py:166-172 | a frame over the limit is never yielded |
| EventStream.FaultIff | client/veetbot_client/api.py:166-172 | a frame is taken if and only if it has at most 1048576 bytes and each line is UTF-8 |
| EventStream.DumpIsOneLine | client/veetbot_client/api.py:131-155 | a JSON value never contains a line end, so it stays on its `data` line |
| EventStream.PrintedFrame | client/veetbot_client/api.py:131-155 | a printed frame is read back as the event it was printed from |
| EventStream.PrintThenParse | client/veetbot_client/api.py:131-199 | printing events and parsing the print is the identity, each event with its own id or none |
| TerminalSafe.TerminalSafe | client/veetbot_client/chat.py:66-112 | the index-driven scanner equals the recursive reading of the text |
| TerminalSafe.SafeIsPrinted | client/veetbot_client/chat.py:66-112 | no control character except line feed and tab is ever printed |
| TerminalSafe.UnchangedIff | client/veetbot_client/chat.py:66-112 | a text passes unchanged if and only if it holds no such character, and a second pass removes nothing |
| TerminalSafe.SequenceDisappears | client/veetbot_client/chat.py:66-112 | a complete control sequence, character for character, between printed text disappears and takes nothing with it |
| TerminalSafe.OpenSequenceSwallows | client/veetbot_client/chat.py:66-112 | one that does not end takes the rest of the text with it, and nothing before |
| CitationText.ScanRenders | scripts/check_citations.py:56 | scanning a line splits it into matches and other characters and loses nothing |
| CitationText.BeginsIff | scripts/check_citations.py:56 | the pattern matches where a name of lower-case letters, digits and hyphens, `.md:` and a digit stand, with or without a backtick in front |
| CitationText.TakeOfShow | scripts/check_citations.py:56 | a written citation is matched as a whole, field by field, in front of any text that does not run on |
| CitationText.RescanIff | scripts/check_citations.py:372-391 | a repaired line scans back as exactly the repaired citations if and only if no repair drops a range end in front of text that looks like one |
| CitationText.RemarkIff | scripts/check_citations.py:372-391 | nor, under the same condition and only then, do the matches alone scan back as repaired |
| CitationText.SpliceLoop | scripts/check_citations.py:387-394 | the loop over one document's lines applies the edits last first |
| CitationText.DocEditsAscend | scripts/check_citations.py:377-391 | repairs are gathered in the order in which descending sorting reverses them, and never overlap |
| CitationText.SplicesAreSimultaneous | scripts/check_citations.py:387-394 | descending splices equal simultaneous substitution; all other text and the line count stay |
| CitationLedger.FindSpan | scripts/check_citations.py:229-255 | exactly the start lines at which the recorded span stands whole |
| CitationLedger.FingerprintIsText | scripts/check_citations.py:73-113 | two spans have equal fingerprints if and only if their lines hold the same words |
| CitationLedger.NormIsWords | scripts/check_citations.py:73-90 | the normalized text is the words joined by one blank each, so it is the same for two texts exactly when their words are |
| Words.SplitIsRuns | scripts/check_citations.py:73-90 | the words of a text are its maximal runs of characters that are not white space, in order |
| CitationLedger.VerdictIs | scripts/check_citations.py:291-385 | what each verdict means in terms of the cited lines and the record: unknown, malformed, past the end, blank, new, steady exactly where excerpt and words agree, moved to the one place where the record stands, lost where there is none or more than one |
| CitationLedger.FoundIff | scripts/check_citations.py:148-177 | a run takes up every match in every line of every live document, and nothing else |
| CitationLedger.ReportedIff | scripts/check_citations.py:291-370 | it reports every citation that is not steady, but for the new and the moved ones of an update |
| CitationLedger.EntriesIff | scripts/check_citations.py:291-385 | the new ledger holds under each key what the last citation that writes there leaves: itself where steady or new, its new place where moved, and its old entry in every other case, errors included |
| CitationLedger.RelocationFindsIff | scripts/check_citations.py:229-255 | wherever the recorded span stands again it is found if and only if its first line is not blank |
| CitationLedger.RelocationKeepsText | scripts/check_citations.py:350-370 | a citation is moved only to where its recorded words stand line by line, and only if nowhere else |
| CitationLedger.MovedEntryIsTrue | scripts/check_citations.py:379-385 | the entry written for a moved citation is the fingerprint of its new place if and only if its excerpt is not empty or the place holds no text |
| CitationLedger.FreshIsTrue | scripts/check_citations.py:291-385 | after an update without errors there is one entry per citation, under its new key and with the digest of the text there; every entry equals the current fingerprint at its key, provided that none is moved under an empty excerpt over text |
| CitationLedger.FoundAgain | scripts/check_citations.py:148-177 | the rewritten corpus holds the same citations in the same places, each as repaired, if and only if no repair in any document glued |
| CitationLedger.CheckAfterUpdateIff | scripts/check_citations.py:282-405 | after an update without errors whose repairs do not glue, the check passes if and only if no cited span gained or lost text by the rewriting and every entry written is true |
| CitationLedger.SparedUpdateIsFixpoint | scripts/check_citations.py:282-405 | it passes whenever no rewritten line lies inside a cited span and nothing is moved under an empty excerpt over text |
| CitationLedger.SecondUpdateChangesNothing | scripts/check_citations.py:282-405 | a second update then changes no file, no entry, and reports no error |
| CitationLedger.ReadableStays | scripts/check_citations.py:316-385 | the tool never records an empty excerpt of its own |
| CitationLedger.ReadableMovesSoundly | scripts/check_citations.py:350-385 | from a ledger without an empty excerpt, nothing is moved under an empty excerpt over text |
| CitationLedger.UpdateKeepsMeaning | scripts/check_citations.py:282-405 | a recorded citation that is no error is left citing exactly the words it was recorded against, and in the rewritten documents still does if and only if no rewriting fell inside its span |
| CitationDepartures.GluedRepairBreaksUpdate | scripts/check_citations.py:372-394 | an update that reports no error, rewrites `a.md:1-1-9` to `a.md:2-9`, and is followed by a check that fails |
| CitationDepartures.EmptyExcerptBreaksUpdate | scripts/check_citations.py:379-385 | the same for an entry on record under an empty excerpt, with nothing glued |
| CitationDepartures.DisturbedSpanBreaksUpdate | scripts/check_citations.py:282-405 | the same for a repair inside a cited line, with nothing glued and every entry sound |
| CitationRun.JudgeLoop | scripts/check_citations.py:291-385 | the loop gathers the specified ledger, repairs and errors |
| CitationRun.RunCheck | scripts/check_citations.py:282-405 | the whole run, judging before it rewrites, yields the specified documents, ledger and errors |
| ImportGraph.TargetIsUnique | scripts/architecture_checks.py:247-253 | longest-prefix resolution does not depend on the order of the modules |
| ImportGraph.TargetIff | scripts/architecture_checks.py:247-253 | an imported name stands for the innermost of the modules that are it or enclose it at a dot |
| ImportGraph.EdgeIff | scripts/architecture_checks.py:255-260 | a module leads to exactly the modules that the names it imports stand for |
| ImportGraph.PartsAre | scripts/architecture_checks.py:274-381 | the first dotted part of a name, and the first two, which the rules compare |
| ImportGraph.Reachable | scripts/architecture_checks.py:262-272 | the worklist ends on every graph and returns exactly the ends of paths whose interior avoids the stop nodes |
| ImportGraph.ReachErrors | scripts/architecture_checks.py:274-381 | the reaching rules report exactly the forbidden targets that some import path leads to, and the application modules from which one leads to an import of FastAPI |
| ImportGraph.CleanReportIff | scripts/architecture_checks.py:274-381 | the report is empty of these if and only if every import path keeps to the targets allowed to its first module, entry points on paths that avoid the composition root |
| ImportGraph.PortsStayInsideIff | scripts/architecture_checks.py:300-307 | the report holds no complaint about ports if and only if every module on every import path out of a ports module, however long or cyclic, lies in domain or ports |
| ImportGraph.ApplicationStaysFreeIff | scripts/architecture_checks.py:347-353 | the report holds no complaint about FastAPI if and only if no module on any import path out of an application module imports it, the application module included |
| Migrations.Register | scripts/architecture_checks.py:643-679 | the revisions of the scripts, reported without error exactly when all are well-formed and distinct, and otherwise with each fault there is and no other |
| Migrations.RegisteredIff | scripts/architecture_checks.py:643-679 | the parent on record is that of the last script that names the revision |
| Migrations.GraphErrors | scripts/architecture_checks.py:640-705 | no error is reported exactly when the scripts register cleanly and the graph has known parents, one head, and the expected one; and otherwise exactly the faults of the scripts, the revisions without their parent, the wrong number of heads and the wrong head |
| Migrations.PassingIsUnbranched | scripts/architecture_checks.py:682-705 | a passing graph has at most one root, and with a root no revision has two children |
| Migrations.LinearIff | scripts/architecture_checks.py:640-705 | a graph passes and has no cycle if and only if its revisions form one chain from the root to `EXPECTED_REVISION` |
| Migrations.RingUnderHeadPasses | scripts/architecture_checks.py:682-705 | the check passes a ring under the head, with no root at all |
| Migrations.RingBesideChainPasses | scripts/architecture_checks.py:682-705 | the check passes a ring beside a proper chain |
| AuthResults.ScansGrammar | src/gmail_mcp/unsubscribe.py:156-189 | on the text of any sequence of plain characters, quoted strings and nested comments the scanner keeps exactly what the grammar keeps |
| AuthResults.EveryTextReads | src/gmail_mcp/unsubscribe.py:156-189 | every text is such a sequence and at most one element left open, and the scanner's variables are that reading's |
| AuthResults.HiddenTextIsDropped | src/gmail_mcp/unsubscribe.py:156-189 | the result list does not depend on what a closed comment or quoted string holds |
| AuthResults.SeparatorsAreTop | src/gmail_mcp/unsubscribe.py:156-189 | only semicolons outside comments and quoted strings separate results |
| AuthResults.ScanResults | src/gmail_mcp/unsubscribe.py:156-189 | the character loop computes the specified result list |
| AuthResults.SplitIs | src/gmail_mcp/unsubscribe.py:156-189 | the results are what stands between the semicolons |
| AuthResults.UnfoldJoins | src/gmail_mcp/unsubscribe.py:156-189 | a folded header is read with one blank for each line end |
| AuthResults.PassingDomainsLoop | src/gmail_mcp/unsubscribe.py:192-215 | the loops collect the identities of the first verdict carrying Gmail's identifier |
| AuthResults.SenderCheckLoop | src/gmail_mcp/unsubscribe.py:218-235 | the loops return the first DMARC result of that verdict |
| AuthResults.SenderCheckIff | src/gmail_mcp/unsubscribe.py:218-235 | the check passes if and only if the first DMARC word in the first header with Gmail's identifier is `pass`, and fails if and only if it is `fail` |
| AuthResults.PassingIff | src/gmail_mcp/unsubscribe.py:192-215 | a domain passes if and only if a result of that header names it |
| AuthResults.OnlyFirstVerdictCounts | src/gmail_mcp/unsubscribe.py:192-235 | headers below the first such verdict, and unrelated ones above it, decide nothing |
| AuthResults.ForgedResultIsIgnored | src/gmail_mcp/unsubscribe.py:156-235 | a forged result inside a comment or quoted string changes neither reading |
| Effects.MutatingVerdict | src/gmail_mcp/client.py:197-256 | for a mutating request the failure code is known exactly when the provider refused in so many words, and unknown exactly when it neither delivered nor refused |
| Effects.ReadVerdict | src/gmail_mcp/client.py:197-256 | for a read each answer has its code, and a 401 leads to one renewal of the credential |
| Effects.TokenVerdict | src/gmail_mcp/client.py:133-177 | each answer of the token endpoint has its code, and only a success with a token and a positive lifetime has none |
| Effects.GmailClient.Token | src/gmail_mcp/client.py:133-177 | the cached token while it has more than 30 seconds left, else the endpoint's answer; a failure leaves the cache alone and never claims an unknown outcome |
| Effects.GmailClient.Request | src/gmail_mcp/client.py:197-256 | a mutating request is dispatched at most once; a read twice exactly when it was told 401 and a new token could be fetched, which is then the one it is sent with; a known failure of a dispatched mutation means it was refused, and a read fails with the code of its last answer |
| Effects.GmailClient.ModifyLabels | src/gmail_mcp/client.py:715-750 | one request per thread in order; a known non-effect is reported only when no thread was changed |
| Effects.RejectedIff | src/gmail_mcp/client.py:715-732 | what makes it fail before anything is sent |
| Effects.ReportIsSound | src/gmail_mcp/server.py:19-44 | a call reported `not_applied` had no effect, if the provider's refusals mean refusal |
| Effects.CallOnce | src/gmail_mcp/server.py:19-44 | the same for every tool that sends one request, and a read never reports an unknown effect |
| Overlay.MergeMappings | src/agent_core/config.py:1139-1150 | the loop computes the recursive overlay |
| Overlay.MergedAt | src/agent_core/config.py:1139-1150 | overlaid leaves win, shipped paths are lost only below them, and everything else stays as shipped |
| Overlay.MergeIsIdempotent | src/agent_core/config.py:1139-1150 | laying an overlay on twice is the same as once |
| Overlay.Validate | src/agent_core/config.py:1153-1195 | the recursive check raises one of the document's faults if there is any |
| Overlay.FaultIff | src/agent_core/config.py:1153-1195 | the faults are, at each shipped path and under its dotted name, a missing key, a value that is no mapping, one of another kind, or a number below its minimum |
| Overlay.AcceptedIff | src/agent_core/config.py:1153-1195 | a document is accepted if and only if at every shipped path there is a value of the same kind, or a number for a number that is no integer, and not below its minimum |
| Overlay.NeverRequired | src/agent_core/config.py:1335-1347 | no overlay can make the merged document lack a shipped key |
| Overlay.UntouchedIsHonoured | src/agent_core/config.py:1335-1347 | a shipped path the overlay leaves alone stays valid |

## Left out

- `json.loads`, `yaml`, `hashlib`, `ast` and regular expressions other than the citation pattern: parameters with stated laws, or outside the model. The digest of a cited span is the span itself, so it never collides; the digest of a history page is a parameter whose collisions are hypotheses.
- HTTP, TLS, the OAuth exchange, file modes, timeouts, sleeps and cancellation: steps that succeed or fail.
- CredentialStore.CredentialStore.AccessToken: threads of one process are serialized by its guard and are one process here; the client id and secret of the state file never change and are left out.
- RotatingGrant.GrantSafety: a crash of a process, not of the machine; whether `fsync` makes a replace durable is not modelled. A state file that outgrows its read limit is not modelled.
- Cursors.HistoryCursorRoundTrip: of the JSON reader only one law is used, that it reads back a written list of numbers, strings and nulls, which the reader of `JsonReader` keeps; numbers such as `1.0` in a forged cursor are not values of the model.
- MessageBody.LegacyTextIsTooLong: decoding with replacement is modelled with one U+FFFD for each byte that starts no well-formed sequence, as Python does for the bytes used there; elsewhere it is a parameter.
- ThreadPages.PagesAreOneSnapshot: the shape checks on labels, dates and header lists of a raw message are one Boolean, and the normalized message is an opaque JSON value.
- ThreadPages.ReserveSuffices: a window without messages is not covered; its page is a few fields long.
- RunWatch.ReplaySafe: what handlers print and how approvals and questions are answered is left out; a handler succeeds, loses the connection or fails otherwise.
- EventStream.PrintThenParse: there is no printer in the repository; the printed form is the one the standard gives.
- CitationText.RescanIff: `\d` matches the ten ASCII digits; Python's pattern also takes other decimal digits.
- CitationLedger.CheckAfterUpdateIff: once a repair has glued, what the next check says depends on whether the span now read happens to be on record; the model gives one input on which it fails.
- CitationRun.RunCheck: line terminators are kept aside, the text of an error message is left out, and prose references to line numbers (`check_bare_references`) are not modelled.
- ImportGraph.ReachErrors: the rules that use `reachable`, all of them; the rules over direct imports, calls and annotations each read off one loop. Rules that forbid the same target to the same module are one complaint here.
- AuthResults.PassingDomainsLoop: case folding and the two patterns for DKIM and DMARC results are parameters.
- Effects.CallOnce: the bodies of the requests and what is read from a delivered reply are left out.
- Overlay.AcceptedIff: keys are strings; a nested shipped key that is not one, which the merge renames only where it is overlaid, is not a value of the model. The further checks on single documents are left out.
- `_reader_html`, `_bounded`, `covered_headers`, `mailto_fields`, `offer`, `minimum_reading_lane`, `_read_gmail_accounts_file`, `_parse_web_provider_allocations`, `send`, `document`: each is settled by reading its one body.
