# IMAP2EWS relay scripts, modelled in Dafny

Two short Python scripts relay mail out of an IMAP mailbox.

- `imap2ews.py` searches one IMAP folder for its unseen (or all) messages. For each one, in
  the order SEARCH returned them, it:
  - fetches the message;
  - saves it into an Exchange inbox with the marker property `tag_message_flags = 1`;
  - sets `\Seen`.
- `imap2smtp.py` walks a list of folders. In each it searches for the flagged (or all)
  messages. For each one it:
  - fetches the message;
  - tags every `\r\nSubject: ` in the bytes with `[NOT FOUND] `;
  - sends the result from the login user to a forwarding address;
  - removes `\Flagged`.

Neither script catches anything. The first non-OK status ends the whole run, and so does a
failed delivery. CLOSE and LOGOUT are reached only by a run in which nothing failed.

The model is purely functional. The IMAP server is an `Account`: a map from folder names to
mailboxes. A mailbox is a sequence of messages, each holding a flag set and its RFC 822
bytes, and message sequence number h is `mb[h - 1]`. The server follows RFC 3501:

- SEARCH `ALL`, `UNSEEN` and `FLAGGED` return exactly the matching sequence numbers
  (section 6.4.4). The model's server also lists them in ascending order without repeats,
  which RFC 3501 does not require (see "Left out");
- a FETCH of a non-PEEK item sets `\Seen` (section 6.4.5);
- STORE `+FLAGS` / `-FLAGS` adds or removes flags (section 6.4.6).

Whether a search, fetch, delivery or store succeeds is decided by an oracle, `Faults`. It
holds sets of folder indexes and of (folder index, message index) positions that fail. A
delivery can fail in two ways. The destination may be unreachable: for Exchange that means
building the account raised. Or the destination may refuse the message. A
run returns its final state (account, destination, log of the calls that took effect)
together with `Completed` or `Aborted(stage, folderIndex, msgIndex)`.

The model has one generic engine and two instances.

- The generic loop is in `transfer.dfy` (one folder) and `folders.dfy` (a list of folders,
  then CLOSE and LOGOUT). It is parametrised by a `Policy`: search key, fetch items and
  acknowledging STORE.
- `ews.dfy` instantiates it for `imap2ews.py`: one folder, `UNSEEN`/`ALL`, `+FLAGS (\Seen)`.
- `smtp.dfy` instantiates it for `imap2smtp.py`: many folders, `FLAGGED`/`ALL`,
  `-FLAGS (\Flagged)`.
- The destinations are in `sinks.dfy`:
  - the Exchange account created lazily, at most once, with the saved items;
  - the relay with the mails it accepted.
- The Subject rewrite of `imap2smtp.py` is in `subject.dfy`. It scans left to right without
  overlaps, as `bytes.replace` does.

Each operation is proved to agree with an independent reference description. For the loop:

- `Clean` is the number of messages before the first failure;
- `HandlesLog` is the log that loop should produce;
- `SinkAfter` is the destination afterwards;
- `ReachOf` and `FlagsAfter` give each message's final flags.

The operations are also proved to agree with their inverses (`Strip` undoes `Rewrite`) and
with invariants such as `Evolves`: the folder loop never changes a body and adds no flag
other than its own.

Two facts about the code shape the model:

- `imap2smtp.py:32` fetches `RFC822` as well as `BODY.PEEK[...]`. `RFC822` is not a PEEK item,
  so the SMTP script sets `\Seen` on every message it fetches (`Imap2Smtp.FetchMarksSeen`).
  This does not disturb its own `FLAGGED` selection (`Imap2Smtp.NeverFlags`).
- Neither script checks the status of SELECT, CLOSE or LOGOUT (`imap2ews.py:40`,
  `imap2ews.py:62-63`, `imap2smtp.py:24`, `imap2smtp.py:45-46`). The model treats a folder that
  cannot be selected as a failed SEARCH, which is what imaplib then reports.

## Model

| member | source | states |
|---|---|---|
| SubjectRewrite.Rewrite | imap2smtp.py:12 | the rewrite only inserts bytes: the result is never shorter, is at least 12 bytes longer when the message starts with the pattern, and equals the input whenever its length does |
| SubjectRewrite.RewriteLength | imap2smtp.py:12 | the rewritten message is 12 bytes longer per occurrence of `\r\nSubject: ` |
| SubjectRewrite.UnchangedWhenAbsent | imap2smtp.py:12 | a message without the pattern is sent byte for byte as fetched |
| SubjectRewrite.RewriteIdentityIff | imap2smtp.py:12 | the rewrite changes nothing exactly when the pattern does not occur |
| SubjectRewrite.OccurrencesAfterMatch | imap2smtp.py:12 | matches do not overlap: after one, counting resumes past the whole pattern |
| SubjectRewrite.SubjectLineTagged | imap2smtp.py:12 | a `Subject: ` header after CRLF gets `[NOT FOUND] ` inserted and the rest is rewritten on |
| SubjectRewrite.LeadingSubjectKept | imap2smtp.py:12 | a `Subject: ` on byte 0 has no CRLF before it and is not tagged |
| SubjectRewrite.NoSpaceSubjectKept | imap2smtp.py:12 | `Subject:` without the following space is not tagged |
| SubjectRewrite.LowerCaseSubjectKept | imap2smtp.py:12 | the match is case-sensitive: `subject: ` is not tagged |
| SubjectRewrite.UnmatchedLineKept | imap2smtp.py:12 | a CRLF that does not open a match is copied through with the CR-free text after it |
| SubjectRewrite.StripUndoesRewrite | imap2smtp.py:12 | removing each inserted `[NOT FOUND] ` gives back the original bytes in order |
| SubjectRewrite.RewriteInjective | imap2smtp.py:12 | different messages are sent as different messages |
| Imap.Search | imap2ews.py:42 | SEARCH returns exactly the valid sequence numbers whose flags match the key, in strictly ascending order |
| Imap.SearchEmptyIff | imap2smtp.py:26 | SEARCH returns nothing exactly when no message of the folder matches |
| Imap.SearchAllIsEverything | imap2smtp.py:26 | `(ALL)` returns 1..N, every message of the folder |
| Imap.Fetch | imap2ews.py:48 | FETCH changes only the fetched message, keeps its body, and sets `\Seen` exactly when a non-PEEK item is fetched |
| Imap.Store | imap2ews.py:58 | STORE changes only the stored message, keeps its body, makes the operation take effect and leaves other flags alone |
| Imap.Apply | imap2smtp.py:42 | `+FLAGS` adds and `-FLAGS` removes the listed flags and keeps every other flag |
| Sinks.PutEws | imap2ews.py:16-33 | the account is built only when there is none yet, and stays absent when building it raises; a successful save appends the fetched bytes with marker 1; a failed call appends nothing |
| Sinks.PutSmtp | imap2smtp.py:7-13 | a successful send appends one mail from the user to the forwarding address with the rewritten bytes; a failed one sends nothing |
| Sinks.PutEwsKeepsOneSession | imap2ews.py:17-24 | every call, successful or not, keeps at most one Exchange account, the configured one; afterwards one exists unless there was none and building it raised |
| Sinks.Deliver | imap2ews.py:55 | the destination keeps its kind and configuration and gains one item or mail exactly when the call is accepted |
| Sinks.DeliverEachEws | imap2ews.py:26-33 | successive saves reuse the account and append the fetched bytes in order, each marked 1 |
| Sinks.DeliverEachSmtp | imap2smtp.py:12-13 | successive sends append one rewritten mail per message, in order, keeping earlier mails |
| Transfer.ProcessMessage | imap2ews.py:48-60 | one message either completes, and then carries the acknowledgement, or aborts at its own index at the fetch, delivery or store stage; a failed fetch changes nothing; only the processed message changes, and no body does |
| Transfer.ProcessHandles | imap2ews.py:47-60 | the loop keeps the mailbox size and, when it aborts, does so at one of its own messages, at the fetch, delivery or store stage |
| Transfer.ProcessFolder | imap2smtp.py:24-44 | a folder's processing fails, if at all, at that folder and never at the close stage |
| Transfer.ProcessFolders | imap2smtp.py:23-44 | a failure is reported at one of the listed folders, never at the close stage |
| Transfer.Run | imap2smtp.py:23-46 | a run fails at CLOSE exactly when it was given no folder; a completed run ends its log with CLOSE, then LOGOUT |
| Transfer.Clean | imap2ews.py:47-60 | the messages before index n all succeed and, when n is short of the end, message n fails |
| Transfer.ProcessHandlesSpec | imap2ews.py:47-60 | the message loop ends as `Ended` says (completed, or aborted at the first failing message and stage), logs `HandlesLog` and leaves the destination as `SinkAfter` |
| Transfer.ProcessHandlesFlags | imap2ews.py:47-60 | after the loop every message has the flags `FlagsAfter` gives for how far it got (untouched, fetched only, acknowledged) |
| Transfer.HandlesLogKinds | imap2ews.py:47-60 | the loop fetches, delivers and stores prefixes of the search result, from the first, with stores <= deliveries <= fetches |
| Transfer.HandlesLogShape | imap2ews.py:55-58 | each store follows the delivery of the same message, which follows its fetch; the loop's events all belong to its folder |
| Transfer.LaterUntouched | imap2ews.py:47-60 | a message listed after the failing one is never fetched and keeps its flags |
| Transfer.ProcessFolderNoSearch | imap2smtp.py:24-28 | a missing folder or a failed SEARCH aborts at the search stage with nothing changed but the log's SELECT |
| Transfer.ProcessFolderSearched | imap2smtp.py:24-44 | a folder whose SEARCH succeeds processes exactly its search result with the loop's result, log and destination |
| Transfer.ProcessFolderMailbox | imap2smtp.py:31-44 | processing a folder changes only that folder's flags; sizes and bodies are kept |
| Folders.FoldersResult | imap2smtp.py:23-44 | a run over the folders aborts only at one of them, and never at the close stage |
| Folders.FoldersLog | imap2smtp.py:23-44 | the log extends the old one, concerns only the listed folders, visits them in order, starts with the first SELECT, and stops at the failing folder |
| Folders.FoldersSplit | imap2smtp.py:23-44 | running a+b is running a, then, only if a completed, running b from a's final state |
| Folders.FoldersSequenced | imap2smtp.py:39-42 | across all folders, each store follows that message's delivery, which follows its fetch |
| Folders.NothingAfterFailure | imap2smtp.py:27-28 | after a failure the next folder is never selected |
| Folders.NextSelectedAfterCompletion | imap2smtp.py:23-24 | after the earlier folders completed, the next folder is selected |
| Folders.SelectedIffEarlierCompleted | imap2smtp.py:23-44 | folder j is selected exactly when every folder before it completed |
| Folders.FoldersEvolve | imap2smtp.py:23-44 | a run keeps every folder's size and bodies and adds no flag other than `\Seen` from a non-PEEK fetch or the `+FLAGS` of the acknowledgement |
| Folders.FoldersUntouched | imap2smtp.py:23-44 | unlisted folders, and after a failure every folder past the failing one, are exactly as before |
| Folders.RunCloses | imap2smtp.py:45-46 | CLOSE and LOGOUT are logged exactly when every folder completed, and then they end the log |
| Imap2Ews.TransferMessages | imap2ews.py:36-63 | the run keeps the folders, sizes and bodies and can only add `\Seen`; the destination is the configured Exchange mailbox |
| Imap2Ews.SearchFailureTouchesNothing | imap2ews.py:42-44 | a failed SEARCH aborts before any fetch, save or flag change: server and Exchange untouched |
| Imap2Ews.ProcessesSearchResultInOrder | imap2ews.py:42-47 | the messages fetched, saved and flagged are prefixes of the UNSEEN (or ALL) search result in ascending order, all of it when the run completes; nothing else changes |
| Imap2Ews.SeenOnlyAfterDelivery | imap2ews.py:55-58 | `\Seen` is stored on a message only right after its save returned, which follows its fetch |
| Imap2Ews.FailFastPrefix | imap2ews.py:47-60 | the run completes exactly when no message fails; otherwise it reports the first failing one, k; the messages before k are saved and `\Seen`, and only they are flagged |
| Imap2Ews.FailFastSuffix | imap2ews.py:47-60 | messages after the failing one are neither fetched nor saved and keep their flags |
| Imap2Ews.ClosedOnlyWhenComplete | imap2ews.py:62-63 | CLOSE and LOGOUT happen exactly when the run completed |
| Imap2Ews.AtMostOneSession | imap2ews.py:17-24 | at most one Exchange account is built; it exists exactly when some message was fetched and the run did not stop because building it raised for the first message; it is the configured one |
| Imap2Ews.SinkShape | imap2ews.py:26-31 | the saved items are the successfully saved messages' bytes, in order, each with marker 1 |
| Imap2Ews.SavedItemsAreFetchedPayloads | imap2ews.py:26-31 | saved item j holds the unchanged bytes of the j-th delivered message, marked 1 |
| Imap2Ews.FetchMarksSeen | imap2ews.py:48 | the script's FETCH sets `\Seen` |
| Imap2Ews.RerunSkipsFetched | imap2ews.py:42-48 | every fetched message, even one whose save failed, is `\Seen` afterwards, so a rerun's UNSEEN search skips it |
| Imap2Ews.CompletedLeavesNothingUnseen | imap2ews.py:42-58 | after a completed run a rerun's UNSEEN search finds nothing |
| Imap2Ews.FetchedIsReached | imap2ews.py:48 | a fetched message is valid and got at least as far as the fetch |
| Imap2Smtp.TransferMessages | imap2smtp.py:16-46 | the run keeps the folders, sizes and bodies and adds no flag but `\Seen` |
| Imap2Smtp.FetchMarksSeen | imap2smtp.py:32 | only the header item is a PEEK; the FETCH as a whole sets `\Seen` through `RFC822` |
| Imap2Smtp.NeverFlags | imap2smtp.py:32-42 | whatever the settings, the run can add `\Seen` and never `\Flagged` |
| Imap2Smtp.FoldersInOrder | imap2smtp.py:23-44 | the events before CLOSE concern listed folders in non-decreasing order; a failure is reported at a listed folder, or at CLOSE when none was given; nothing after it is touched |
| Imap2Smtp.NextFolderOnlyAfterCompletion | imap2smtp.py:23-44 | folder j is selected exactly when every earlier folder completed |
| Imap2Smtp.FolderAfterPrefix | imap2smtp.py:23-24 | folder j is processed from the state the earlier folders left |
| Imap2Smtp.FolderForwardsItsSearch | imap2smtp.py:26-44 | per folder, the messages fetched, sent and unflagged are prefixes of the FLAGGED (or ALL) search result in order, all of it when the folder completes; other messages do not change |
| Imap2Smtp.FolderLaterUntouched | imap2smtp.py:31-44 | in the failing folder, the messages after the failing one keep their flags |
| Imap2Smtp.UnflagOnlyAfterDelivery | imap2smtp.py:39-42 | `\Flagged` is removed from a message only right after its send returned, which follows its fetch |
| Imap2Smtp.AnyFailureAborts | imap2smtp.py:27-46 | any failure skips CLOSE and LOGOUT, and leaves every later and every unlisted folder as it was |
| Imap2Smtp.ClosedOnlyWhenComplete | imap2smtp.py:45-46 | CLOSE and LOGOUT happen exactly when every folder completed |
| Imap2Smtp.FailureLocated | imap2smtp.py:23-44 | a failed run fails inside one listed folder after every earlier folder completed |
| Imap2Smtp.DeliveryFailureKeepsFlag | imap2smtp.py:26-44 | a message whose send failed ends with its old flags plus `\Seen`; with `only_flagged` a rerun's FLAGGED search selects it again |
| Imap2Smtp.FailedSendKeepsFlag | imap2smtp.py:32-39 | within the folder, the message whose send failed keeps `\Flagged` and gains only `\Seen` |
| Imap2Smtp.FolderClearsFlags | imap2smtp.py:26-44 | a folder that completed has no flagged message left, whether it searched FLAGGED or ALL |
| Imap2Smtp.FoldersClearFlags | imap2smtp.py:23-44 | after a completed run over the folders, none of them holds a flagged message |
| Imap2Smtp.RerunSelectsNothing | imap2smtp.py:26-44 | after a completed run, a rerun's FLAGGED search finds nothing in any listed folder |
| Imap2Smtp.MailsIndex | imap2smtp.py:12-13 | mail i goes from the user to the forwarding address carrying body i rewritten |
| Imap2Smtp.DeliverEachMails | imap2smtp.py:12-13 | successful sends append one rewritten mail per body, in order, and change nothing else |
| Imap2Smtp.BodiesOfFolder | imap2smtp.py:36-39 | within one folder, the bodies handed over are those of the delivered messages, in order |
| Imap2Smtp.FolderSent | imap2smtp.py:31-44 | one folder sends, in order, the rewritten bodies of the deliveries its log records |
| Imap2Smtp.FoldersSent | imap2smtp.py:23-44 | the folders together send the rewritten bodies of every logged delivery, in order |
| Imap2Smtp.SentMailIsRewritten | imap2smtp.py:12-13 | every sent mail is one logged delivery, in order, from the user to the forwarding address, carrying that message's body with its Subject tagged |

## Left out

- Command-line parsing, logging and the log file, and the verbosity and `--echo-ews`
  switches are left out. They are plumbing outside the transfer. So is the verbose folder
  listing (`imap2smtp.py:20-22`): it only logs.
- The IMAP connection, LOGIN, timeouts and raw response parsing are left out
  (`messages[0].split()`, `data[0][1]`). The server is abstract, and SEARCH and FETCH return
  sequence numbers and bytes directly.
- The `Message-ID` fetched with each message is used only in log lines. It is fetched, and
  its PEEK or non-PEEK form is modelled because it decides `\Seen`, but its value is not.
- The statuses of SELECT, CLOSE and LOGOUT are not modelled. The scripts never check them.
  A connection dropping at CLOSE or LOGOUT is likewise not modelled.
- The exchangelib objects (Credentials, Configuration, Account construction, registration
  of the extended property) and the wire behaviour of `save()` are reduced to a lazily
  built session value, which may fail to be built, and a list of saved items. The property
  tag `0x0E07` is not modelled; only the marker value 1 is.
- The SMTP connection, EHLO, STARTTLS, LOGIN and `sendmail` are collapsed into one outcome
  per message. A mail the relay accepted before a later step failed is not modelled.
- The global `account_ews` lives for the Python process. The model covers one call of
  `transfer_messages`, starting with no account.
- The failure oracle is not a clock or a network. Exceptions raised inside exchangelib or
  smtplib appear only as a failed delivery at that message.
- An empty `imap_inbox` list for `imap2smtp.py` is modelled as a failure at CLOSE. This
  follows imaplib, which refuses CLOSE with no folder selected.
- Imap.Search: the server is assumed to answer SEARCH in ascending order without repeats.
  RFC 3501 (sections 6.4.4 and 7.2.5) promises neither, and both scripts process whatever
  list comes back. The loop lemmas (`Transfer.ProcessHandlesSpec` and the log lemmas) hold
  for any list. The final-flags lemmas (`Transfer.ProcessHandlesFlags` and what builds on
  it) need the handles to be distinct.
- Imap2Ews.TransferMessages: CLOSE also expunges every message flagged `\Deleted` (section
  6.4.2 of RFC 3501). The model's flags are only `\Seen` and `\Flagged`, so "the run keeps
  every folder's size and bodies" holds only for folders without `\Deleted` messages.
- Imap2Smtp.TransferMessages: the same applies to the CLOSE after the last folder. The expunge
  of `\Deleted` messages is not modelled, and sizes and bodies are kept only for folders that
  hold none.
