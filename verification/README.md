# Verification of the IMAP/JMAP/SMTP gateway

A Dafny model of the parts of the gateway where a mistake loses, duplicates or leaks mail, with
proofs over every input, every reply of the outside world and every run.

| file | models |
|---|---|
| `GoStrings.dfy` | byte strings, `strings.Compare` and `sort.Slice` on ids |
| `MailIds.dfy` | mailbox and email ids, base64url, UTF-8 |
| `ChangeLog.dfy` | the email mutation log, its fold and its upkeep |
| `ChangeTracker.dfy`, `ChangeTheorems.dfy`, `ClientTheorems.dfy` | `EmailChanges` and what its answers mean for a client |
| `MailboxTracker.dfy` | `MailboxChanges` |
| `Crlf.dfy` | `normalizeCRLF` |
| `Outbound.dfy`, `OutboundTheorems.dfy`, `OutboundReplies.dfy`, `Relay.dfy` | `tryHost`, `deliverToDomain`, `mxHosts`, `SendMail` |
| `ResultReferences.dfy`, `ReferenceTheorems.dfy`, `Dispatch.dfy`, `DispatchTheorems.dfy` | result references and the method-call loop of a JMAP request |
| `SenderAuth.dfy`, `Receiver.dfy`, `ReceiverData.dfy` | SPF/DKIM/DMARC verdict, SMTP session, DATA |
| `ItipScan.dfy` | the scan for scheduling mail at every sync |
| `Tags.dfy` | tag keywords |
| `Sections.dfy` | the row order of the requirement tables |

The outside world is an arbitrary input everywhere: remote SMTP hosts are a record of replies
(`Outbound.Host`), stores and handlers are functions or records of outcomes, and a Go map is
visited in an order the code does not choose. `strings.ToLower`, `strings.TrimSpace`, address
parsing, JSON pointers, the public-suffix list and the DNS are function parameters. Integers have
the source's width where it matters (`Uint32` UIDs and counters, `Uint64` sequence numbers with
wrap-around in `ChangeTracker.Next`).

Some things one might expect of the code do not hold, and each is settled exactly:

* A recipient listed twice can be settled and retried at once, and its first result is then
  overwritten. `OutboundTheorems.FirstOutcomeExactly`: the first outcome stands against all hosts if
  and only if the recipients are distinct. Such a recipient can even have the message and be reported
  as not reached; `OutboundTheorems.TakenReportedExactly`, under the same condition.
* A `/get` call whose `ids` contain an array or an object panics while repeated ids are removed, and
  the whole request is left without a response list. `Dispatch.PanicExactly`, with
  `Dispatch.OneBadIdLosesTheRequest` as an instance.
* An email created through the server in a folder that is then deleted stays in the client's id set.
  `ChangeTheorems.StrayExactly`, with `ChangeTheorems.StrayWitness` as an instance.
* Messages that are gone can stay in the client's id set while their folder stays: one that another
  IMAP client expunged, which is not in destroyed (`ClientTheorems.ExpungedStays`, with
  `ClientTheorems.ExpungedWitness`), and one created and destroyed through the server between two syncs,
  which the log lists as destroyed and the folder's UID range as created
  (`ClientTheorems.DestroyedAgainStays`, with `ClientTheorems.DestroyedAgainWitness`).
  `ClientTheorems.ClientHoldsExactly` says which ids the client holds, and
  `ClientTheorems.ExactSyncExactly` when they are exactly the account's.
* The three lists of an answer can overlap, for instance wherever a folder was recreated
  (`ClientTheorems.RecreatedOverlaps`). `ClientTheorems.OverlapExactly` says for which ids, and
  `ClientTheorems.DisjointExactly` when there are none.
* When the counter of the mutation log goes back (the memory was dropped and the extension store is
  missing or behind, `ChangeLog.EmailLog.GetEmailSeq`), events recorded since go unreported without a
  refusal. `ChangeTheorems.FutureTokenHidesEvents`; `ChangeTheorems.AccountedExactly` says which tokens
  are served right.
* A backend without the marker-aware scan is searched by plain text, which finds processed mail again.
  `ItipScan.AtMostOnceExactly`: as long as marking works, a message is applied at most once if and only
  if the search returns no marked message and none twice; `ItipScan.PlainQueryExactly` and
  `ItipScan.PlainQueryReapplies`. A mark that fails is only logged, and the message is then applied
  again when it is found again: `ItipScan.FailedMarkReapplies`.
* Scheduling mail that lies only in Sent, Drafts or Trash is applied when the mailboxes cannot be
  listed. `ItipScan.SkippedMailExactly`.
* A message rejected by a recipient's script stays behind as a blob, exactly when the account's blob
  store took it. `ReceiverData.DeliverToAccount`, `ReceiverData.HandleData`.
* Section components such as `1a` make the row order cyclic. `Sections.SafeExactly` says which
  components do. Numbers of 2^63 and more wrap around, which makes no cycle
  (`Sections.RowOrderIsPreorder`) but orders them by what `Sections.ParseNum` leaves of them.

## Model

| member | source | states |
|---|---|---|
| `GoStrings.Sort` | jmap/imapsmtp/change_tracker.go:323-325 | sorting ids keeps every occurrence and leaves them in byte order |
| `GoStrings.SortedUnique` | jmap/imapsmtp/change_tracker.go:303-325 | two sorted lists with the same occurrences are equal, so the order in which the maps were visited leaves no trace |
| `GoStrings.CompareTransitive` | spec/markdown.go:151-156 | bytewise comparison is transitive (with `CompareFlips` and `CompareIsZero`: a total order) |
| `MailIds.Decode64Encode64` | imap/convert.go:156-179 | decoding an encoded name gives the name back, for every byte string |
| `MailIds.MbPrefixDecodes` | imap/convert.go:141-157 | base64url text beginning "mb-" stands for bytes beginning 0x99, which starts no UTF-8 text |
| `MailIds.MailboxIdsFaithful` | imap/convert.go:141-157 | two UTF-8 names have the same mailbox id if and only if they are equal or both lowercase to the same reserved name, whatever lowercasing does |
| `MailIds.NonUtf8Collision` | imap/convert.go:141-157 | a six-byte name that is not UTF-8 has the id of INBOX, so the UTF-8 condition is needed |
| `MailIds.NameForMailboxIDInverts` | imap/convert.go:160-180 | every UTF-8 name that is not reserved is recovered from its id |
| `MailIds.ReservedNamesExactly` | imap/convert.go:141-157 | the id of a folder that lowercases to one of the six reserved names is "mb-" and that name, any other id is the base64url text |
| `MailIds.ReservedIdsInvert` | imap/convert.go:141-180 | a reserved id names a spelling of its own word, which has that id again |
| `MailIds.ParseEmailIDRoundTrip` | imap/convert.go:14-33 | parsing a formatted email id gives back mailbox id and UID, for every mailbox id (with or without "-") and every 32-bit UID |
| `MailIds.EmailIDForInjective` | imap/convert.go:14-16 | distinct pairs of mailbox id and UID have distinct email ids |
| `MailIds.ParsedIdReprints` | imap/convert.go:19-33 | an accepted id prints back as itself if and only if it uses "-" and its number has no leading zero |
| `MailIds.ParseEmailIDExactly` | imap/convert.go:19-33 | exactly which ids are accepted and as what: a mailbox id, "-" (or ":" in an id without "-") and decimal digits of a 32-bit number |
| `ChangeLog.FoldLog` | jmap/imapsmtp/change_tracker.go:217-236 | the loop over the log computes the fold of the entries newer than the token |
| `ChangeLog.ReplayLaw` | jmap/imapsmtp/change_tracker.go:213-236 | for every id set and log, dropping the destroyed and adding the created ids equals living through the events one by one |
| `ChangeLog.TwoStepSync` | jmap/imapsmtp/change_tracker.go:213-236 | folding two stretches of the log one after the other reaches the same id set as folding both at once |
| `ChangeLog.FoldMeaning` | jmap/imapsmtp/change_tracker.go:220-233 | membership in the three sets, both directions, in terms of the last event of an id in the log |
| `ChangeLog.FoldDisjoint` | jmap/imapsmtp/change_tracker.go:220-233 | created is disjoint from updated and destroyed; updated is disjoint from destroyed if and only if no id is updated after being destroyed for good |
| `ChangeLog.EmailLog.RecordMutation` | jmap/imapsmtp/backend.go:554-582 | with a store that may be missing or fail at each call, recording appends one event numbered next in the numbering in force and keeps the log a gap-free suffix of that numbering; the store follows when saving works |
| `ChangeLog.EmailLog.GetEmailSeq` | jmap/imapsmtp/backend.go:554-589 | the sequence number counts the events of the numbering in force, which stays what it was if and only if the memory has it, or the store answers and has it, or there were no events |
| `ChangeLog.EmailLog.Forget` | jmap/imapsmtp/backend.go:174-177 | eviction loses the log, and leaves the count to what the store holds |
| `ChangeLog.SinceIsSuffix` | jmap/imapsmtp/change_tracker.go:218-219 | filtering a gap-free log that reaches back to the token keeps exactly the events after it |
| `ChangeTracker.EmailChanges` | jmap/imapsmtp/change_tracker.go:187-340 | the answer is the log's delta joined with every folder's, hidden creations left out, sorted and without repetition, or one of the four early answers under its condition |
| `ChangeTracker.AddFolder` | jmap/imapsmtp/change_tracker.go:244-291 | one folder contributes its UID ranges for the case new, recreated or kept |
| `ChangeTracker.AddDeleted` | jmap/imapsmtp/change_tracker.go:293-301 | every folder missing from the snapshot contributes all its old UIDs as destroyed |
| `ChangeTracker.DropHidden` | jmap/imapsmtp/change_tracker.go:307-315 | of the created ids only the hidden ones are dropped, which are those of Trash and Drafts whose fetch succeeded and came back empty (`ClientTheorems.HiddenExactly`) |
| `ChangeTracker.SortedKeys` | jmap/imapsmtp/change_tracker.go:316-325 | the keys of a set are listed once each and in order, from any visiting order |
| `ChangeTracker.ListsMeaning` | jmap/imapsmtp/change_tracker.go:303-325 | such a list has the set's elements and size, no repetition, and is the only one |
| `ChangeTheorems.NoMissedMessage` | jmap/imapsmtp/change_tracker.go:187-340 | for all account contents before and after that obey the UID rules, a client that applies an answer without hasMore knows every message now in the account, across new, recreated and deleted folders and the Trash and Drafts filter |
| `ChangeTheorems.NeverMissesOverRuns` | jmap/imapsmtp/change_tracker.go:187-340 | over every sequence of such syncs, a client that once knew all messages knows all messages of the account at its last sync |
| `ChangeTheorems.StrayExactly` | jmap/imapsmtp/change_tracker.go:213-315 | an id outside every folder of the snapshot stays with the client if and only if the log reaches back to the token and created it last, and the filter lets it pass |
| `ChangeTheorems.StrayWitness` | jmap/imapsmtp/change_tracker.go:213-301 | a message created in a folder that is then deleted is reported as created though no folder is left |
| `ClientTheorems.ClientHoldsExactly` | jmap/imapsmtp/change_tracker.go:187-340 | for every UID a current folder has assigned, the client holds its id if and only if it is old and was held and the log did not destroy it last, or the log created it last and it is visible, or it is new and visible |
| `ClientTheorems.ExactSyncExactly` | jmap/imapsmtp/change_tracker.go:187-340 | a client that held exactly the account holds exactly the account again if and only if every message that left a kept folder was logged as destroyed, every new UID already gone is hidden, and what the log created last exists or is hidden |
| `ClientTheorems.ExpungedStays` | jmap/imapsmtp/change_tracker.go:244-301 | every message that left a kept folder and not through the server stays with the client though it is not in the account |
| `ClientTheorems.ExpungedWitness` | jmap/imapsmtp/change_tracker.go:244-301 | an instance: one message in one folder, expunged, with an empty log |
| `ClientTheorems.DestroyedAgainStays` | jmap/imapsmtp/change_tracker.go:213-291 | every visible new UID that the log destroyed last is in created and in destroyed, and the client ends up with it |
| `ClientTheorems.DestroyedAgainWitness` | jmap/imapsmtp/change_tracker.go:213-291 | an instance: a message created and destroyed through the server between two syncs |
| `ClientTheorems.ListedExactly` | jmap/imapsmtp/change_tracker.go:187-340 | for each list of an answer, exactly which ids are in it, in terms of UIDs assigned, lost or suspected in the folders and of the log's last event |
| `ClientTheorems.OverlapExactly` | jmap/imapsmtp/change_tracker.go:187-340 | for each pair of lists, exactly which ids are in both: those of recreated folders below both UIDNEXTs, new ones that the log destroyed or updated last, those the log created or updated in a folder that is gone, and clashes of log and counters |
| `ClientTheorems.DisjointExactly` | jmap/imapsmtp/change_tracker.go:187-340 | the three lists are pairwise disjoint if and only if every id of those kinds is hidden or there is none |
| `ClientTheorems.RecreatedOverlaps` | jmap/imapsmtp/change_tracker.go:257-266 | every visible UID that a recreated folder had and has again is in created and in destroyed |
| `ChangeTheorems.DistinctIdsExactly` | imap/convert.go:141-157 | the distinct-ids condition of these theorems holds for UTF-8 names if and only if no two are spellings of one reserved folder |
| `ChangeTheorems.NoSilentGap` | jmap/imapsmtp/change_tracker.go:202-242 | with a gap-free log and a token not from the future, an answer either reports what all events since the token come to or refuses with no ids, and it refuses when events were lost before the log starts |
| `ChangeTheorems.LogReplays` | jmap/imapsmtp/change_tracker.go:202-236 | a log that reaches back to the token acts on every id set as the replay of every event since the token |
| `ChangeTheorems.FutureTokenHidesEvents` | jmap/imapsmtp/change_tracker.go:205-242 | with any token from the future no event in the log is reported: the answer lists the delta of the folders alone and refuses only over the limit |
| `ChangeTheorems.AccountedExactly` | jmap/imapsmtp/change_tracker.go:187-340 | for every mailbox naming, fetch, token and snapshot: the answers to a client that has seen a number of the events refuse or report all the others, whatever the events, the log left and the limit, if and only if it has seen them all or that number is the lesser of the token's and the current sequence number |
| `ChangeTheorems.LimitHeld` | jmap/imapsmtp/change_tracker.go:327-339 | an answer without hasMore holds at most a positive maxChanges ids in total |
| `ClientTheorems.HiddenExactly` | jmap/imapsmtp/change_tracker.go:307-315 | the filter hides an id if and only if its folder lowercases to trash or drafts and the fetch succeeded and found nothing |
| `ClientTheorems.NewMailListed` | jmap/imapsmtp/change_tracker.go:244-315 | a UID assigned since the token is in created if and only if not (its folder is Trash or Drafts and the message is found to be gone) |
| `ClientTheorems.EarlyAnswersExactly` | jmap/imapsmtp/change_tracker.go:187-211 | the answers to an unreachable server, an unreadable token, and a log that does not reach back although there were events; otherwise nothing is refused without a limit |
| `ClientTheorems.LimitExactly` | jmap/imapsmtp/change_tracker.go:327-339 | the limited answer is the unlimited one, or a refusal without state if and only if a positive maxChanges is below its number of ids |
| `ChangeTheorems.AnswerUnique` | jmap/imapsmtp/change_tracker.go:187-340 | the answer is determined by the inputs, whatever order maps are visited in |
| `ChangeTheorems.CountersSound` | jmap/imapsmtp/change_tracker.go:281-284 | the counter test is false whenever all old messages are still there with the same seen flag |
| `ChangeTheorems.CountersExact` | jmap/imapsmtp/change_tracker.go:281-284 | the counter test is true if and only if no append-only change of any mailbox could produce the counters, so no better test on them exists |
| `ChangeTheorems.AppendsNotUpdated` | jmap/imapsmtp/change_tracker.go:275-290 | with both sequence numbers 0 and no mod-sequence, appending to a folder reports none of its old messages as updated |
| `MailboxTracker.MailboxChanges` | jmap/imapsmtp/change_tracker.go:129-179 | the answer lists the ids of new, changed and missing folders, one per folder, or refuses; the updated properties come with a full answer only |
| `MailboxTracker.ExactFolderDelta` | jmap/imapsmtp/change_tracker.go:142-178 | with distinct ids the lists hold the ids of the new, the changed and the missing folders and no others, are sorted, repetition-free and pairwise disjoint, carry the old id set to the current one, and a surviving folder is in updated if and only if anything but its UIDNEXT differs |
| `MailboxTracker.MailboxAnswerUnique` | jmap/imapsmtp/change_tracker.go:129-179 | the answer is determined by the inputs, whatever order the folder maps are visited in and even where folders share an id |
| `MailboxTracker.AllOrNothing` | jmap/imapsmtp/change_tracker.go:171-178 | the answer is refused if and only if the total exceeds a positive maxChanges, and is then empty, else complete |
| `Crlf.NormalizeCanonical` | smtp/outbound.go:367-375 | in the output every CR is followed by LF and every LF preceded by CR, it ends in CRLF, and its lines are the input's with at most one final newline added |
| `Crlf.CanonicalIsFixed` | smtp/outbound.go:367-375 | a message is left alone if and only if it is already canonical |
| `Crlf.NormalizeIdempotent` | smtp/outbound.go:367-375 | normalising twice is normalising once |
| `Crlf.SameLinesSameWire` | smtp/outbound.go:367-375 | two messages go out alike if and only if they have the same lines |
| `Outbound.TryHostConversation` | smtp/outbound.go:131-293 | for every pattern of replies, and with repeated recipients too, the conversation ends in the outcome whose conservation, partition and verdict are the three rows below |
| `Outbound.AskRecipients` | smtp/outbound.go:226-249 | after the RCPT loop the accepted, rejected and deferred recipients are those whose own replies say so, in the order asked |
| `Outbound.DeliverToDomain` | smtp/outbound.go:78-106 | stopping when nobody is pending or the context is cancelled gives the same results as asking every host before the cancellation |
| `OutboundTheorems.TryHostConserves` | smtp/outbound.go:131-293 | for every host behaviour, a recipient was offered if and only if it is in final or in retry afterwards |
| `OutboundTheorems.TryHostPartition` | smtp/outbound.go:131-293 | distinct recipients stay distinct and are never both final and to be retried |
| `OutboundTheorems.TryHostIsVerdict` | smtp/outbound.go:131-293 | a recipient's outcome is the one read off the replies to MAIL, to its own RCPT, to DATA and to end of data |
| `OutboundTheorems.DeliverConserves` | smtp/outbound.go:78-106 | the results have exactly the offered recipients as keys, repeated or not |
| `OutboundTheorems.FirstOutcome` | smtp/outbound.go:78-106 | among distinct recipients, a settled one is offered to no later host, keeps that host's result, and one nobody settles gets the 421 line |
| `OutboundTheorems.FirstOutcomeExactly` | smtp/outbound.go:78-106 | that holds against every list of hosts if and only if the recipients are distinct |
| `OutboundTheorems.RepeatedRecipient` | smtp/outbound.go:88-104 | any repeated recipient loses its first outcome to a host that answers 550 once and 450 then |
| `OutboundTheorems.DeliveredExactly` | smtp/outbound.go:276-281 | a recipient reported delivered, repeated or not, was offered to a host that answered 250 to MAIL, to its RCPT and to end of data, and 354 to DATA; among distinct recipients the converse holds too |
| `OutboundTheorems.TakenReportedExactly` | smtp/outbound.go:78-106 | every recipient that some host took is reported delivered, against every list of hosts, if and only if the recipients are distinct |
| `OutboundTheorems.TakenUnreported` | smtp/outbound.go:226-281 | any repeated recipient that a host takes once and defers once has the message and is reported as not reached |
| `OutboundReplies.DeliverFirst` | smtp/outbound.go:78-106 | delivery over a list of hosts is the first host's outcome and delivery of what it leaves over the others |
| `OutboundReplies.FirstHostDelivers` | smtp/outbound.go:131-281 | from the replies alone: a host that is reached, in plain text when STARTTLS is missing or declined and else inside TLS, has room, and answers 250, 250, 354 and 250 delivers, with its RCPT reply |
| `OutboundReplies.FirstHostRefuses` | smtp/outbound.go:207-289 | a 5xx reply to MAIL, to the RCPT or at the end of the data is final and quoted |
| `OutboundReplies.FirstHostTooSmall` | smtp/outbound.go:190-203 | a message over the size announced, inside TLS if there is TLS, gets the 552 line |
| `OutboundReplies.FirstHostPassedOver` | smtp/outbound.go:131-222 | a host that cannot be reached, greeted or secured, or that defers MAIL, changes nothing |
| `OutboundReplies.FirstHostDefers` | smtp/outbound.go:226-293 | a recipient deferred at RCPT, or accepted before DATA or its end fails, gets what the other hosts make of it |
| `OutboundReplies.NoHostLeft` | smtp/outbound.go:99-104 | with no host left the result is the 421 line |
| `OutboundReplies.FlattenExactly` | smtp/outbound.go:328-333 | a quoted reply is code, blank and text, with each line break read as a blank |
| `Relay.MxHosts` | smtp/outbound.go:110-125 | the hosts are the MX records' endpoints in order of preference, or the domain itself when it only has addresses, or none |
| `Relay.RecordsDialed` | smtp/outbound.go:110-125 | every MX record is dialed once on port 25 under its name without the final dot, and the bare domain when it has only addresses; IPv6 in brackets |
| `Relay.GroupByDomain` | smtp/outbound.go:57-68 | recipients that do not parse are set aside and the others grouped by domain, in order and with repetitions |
| `Relay.SendMail` | smtp/outbound.go:54-106 | the results have exactly the trimmed recipients as keys, with the 554 line for an address that does not parse and for any other the result of delivering to its domain over the domain's MX hosts in preference order |
| `Relay.FirstByPreference` | smtp/outbound.go:78-125 | among distinct recipients of a domain with MX records, each has the result of a host such that every host of better preference was offered it first and left it open, or the 421 line when no host settled it |
| `ResultReferences.ResolveValue` | jmap/server.go:1039-1101 | on every JSON tree and in every visiting order, resolution terminates, fails if and only if some position fails, fails with the kind of such a position, and otherwise gives the one resolved tree |
| `ResultReferences.ResolveKey` | jmap/server.go:1043-1083 | one key passes if and only if neither it nor anything below it fails |
| `ResultReferences.ResolveArgs` | jmap/server.go:1023-1037 | absent arguments resolve to none, others as the tree does |
| `ResultReferences.TargetsApart` | jmap/server.go:1047-1051 | keys that do not fail never land on one another |
| `ResultReferences.KeysOfResult` | jmap/server.go:1042-1085 | the result's keys are the input's with one "#" stripped from each reference key, and as many |
| `ResultReferences.SubstitutedVerbatim` | jmap/server.go:1058-1074 | a substituted value appears as the earlier response holds it, at most wrapped in a list, and is not resolved again |
| `ResultReferences.UnchangedExactly` | jmap/server.go:1039-1101 | a tree comes back unchanged if and only if it holds no reference; nested "#" keys with other values are kept |
| `ResultReferences.ReadsOnlyNamed` | jmap/server.go:1103-1127 | the outcome depends on no response but those the references name |
| `ReferenceTheorems.NestedUnchangedExactly` | jmap/server.go:1039-1101 | below the top a tree comes back unchanged if and only if it holds no "#" key, at any depth, over an object with resultOf, name and path |
| `ReferenceTheorems.ArgsUnchangedExactly` | jmap/server.go:1023-1101 | arguments come back unchanged if and only if, besides, they have no "#" key of their own |
| `ReferenceTheorems.ReferenceExactly` | jmap/server.go:1103-1127 | a reference gives a value if and only if its three non-empty strings name a response by call id and method and the path finds the value in it |
| `ReferenceTheorems.SubstitutedExactly` | jmap/server.go:1043-1074 | the value stands under the key without "#", as a one-element list exactly for the seven list arguments at the top |
| `ReferenceTheorems.OthersInPlace` | jmap/server.go:1076-1101 | all other keys and all list elements stay in place with their values resolved |
| `ReferenceTheorems.KeysExactly` | jmap/server.go:1042-1085 | the keys of the result are those that stay and those referred to, as many as before |
| `ReferenceTheorems.FailureExactly` | jmap/server.go:1043-1127 | resolution can fail with invalidArguments if and only if an argument is given in both forms, with invalidResultReference if and only if a reference is none or leads nowhere, and otherwise succeeds |
| `Dispatch.HandleCalls` | jmap/server.go:657-952 | there is a run that takes one turn per call, each decided by the checks and the responses before it, whose responses, each followed by its spilled ones, are the list; without a list there is a run up to a call that panics |
| `Dispatch.OneResponsePerCall` | jmap/server.go:657-952 | the response list holds at strictly increasing positions one response per call, under that call's id and with what its handler returned or an error, and at all others the spilled responses: each once and in order, but for those still in the spill at the end |
| `Dispatch.ResponsesAnswer` | jmap/server.go:657-944 | over every run, a response is the handler's name and result, put in shape unless the call is an echo, and an error when no handler ran |
| `Dispatch.ShapedEach` | jmap/server.go:946-949 | spilled responses keep name and call id and are put in shape one by one |
| `Dispatch.LatestMeaning` | jmap/server.go:628 | the executed map holds the last response of each call id |
| `Dispatch.ReferencesLookBack` | jmap/server.go:702 | a reference that resolves reads the latest response of a strictly earlier call |
| `Dispatch.HandlersWithinLimits` | jmap/server.go:714-754 | no handler of a /get or /set call runs with more ids or objects than a positive limit, also after references were resolved |
| `Dispatch.HandlersOnlyWhenEntitled` | jmap/server.go:657-929 | a handler runs only for a registered method under a declared capability, with the resolved arguments but for the account and repeated ids, and only on the caller's own account or one the guard allows |
| `DispatchTheorems.PlanExactly` | jmap/server.go:657-929 | for every call the error or the run that the first deciding check gives, in terms of the request alone |
| `DispatchTheorems.HandlersRunExactly` | jmap/server.go:657-929 | over every run a handler runs if and only if the arguments resolve, the capability is declared, the limits are kept, the method is known, and account, ids, maxChanges, limit, filter and access are in order |
| `DispatchTheorems.DedupKeepsFirsts` | jmap/server.go:809-821 | the ids left are each once and in order of first occurrence |
| `DispatchTheorems.GetIdsOnce` | jmap/server.go:809-821 | these are the ids a /get handler runs with |
| `DispatchTheorems.OtherArgumentsKept` | jmap/server.go:757-929 | all other arguments are the resolved ones, but for the account, which becomes the caller's own where it is |
| `Dispatch.PanicExactly` | jmap/server.go:809-821 | a call panics if and only if it reaches the removal of repeated ids with an id that is an array or an object |
| `Dispatch.NoRunPastPanic` | jmap/server.go:657-821 | no run of the loop goes on from where the next call panics |
| `Dispatch.OneBadIdLosesTheRequest` | jmap/server.go:809-821 | a request with such an id, for which no response list exists |
| `SenderAuth.AlignmentIsEquivalence` | smtp/sender_auth.go:359-372 | on non-empty domains alignment is reflexive, symmetric and transitive in either mode, and relaxed contains strict |
| `SenderAuth.CanonExactly` | smtp/sender_auth.go:359-362 | domains are compared in lower case without a final dot |
| `SenderAuth.StrictExactly` | smtp/sender_auth.go:359-370 | strict alignment is identity of non-empty domains |
| `SenderAuth.RelaxedExactly` | smtp/sender_auth.go:343-372 | relaxed alignment is identity of the registrable domains, or of the domains where the list has none |
| `SenderAuth.PolicyExactly` | smtp/sender_auth.go:267-286 | the policy is the one at the From domain or, only when there is none, at its organisational domain; a failed lookup is no absence |
| `SenderAuth.EvaluateDmarc` | smtp/sender_auth.go:267-300 | a policy counts as found unless both lookups say there is none, and passes if and only if an aligned identifier passed |
| `SenderAuth.AnyDkimPass` | smtp/sender_auth.go:375-382 | true if and only if some signature verified |
| `SenderAuth.Verify` | smtp/sender_auth.go:168-220 | the sender is authenticated if and only if its From domain is usable and a found policy has an aligned pass, or there is no policy and SPF or some signature passed; a failed lookup authenticates nobody |
| `SenderAuth.StrictPolicyExactly` | smtp/sender_auth.go:168-300 | under a strict policy authentication means a pass for the From domain itself |
| `SenderAuth.SiblingExactly` | smtp/sender_auth.go:168-300 | SPF for another domain of the same owner authenticates if and only if the policy is relaxed |
| `SenderAuth.NoPolicyExactly` | smtp/sender_auth.go:190-220 | without a policy any pass authenticates, with one that cannot be looked up nothing does |
| `SenderAuth.RelaxingKeeps` | smtp/sender_auth.go:290-299 | relaxing every policy's alignment never loses an authentication |
| `Receiver.Session.DoAuth` | smtp/receiver.go:158-186 | AUTH is accepted if and only if it is PLAIN on submission and the authenticator, if any, grants it; refused it changes nothing, accepted only who the client is, and never less than authenticated; the session stays one that its commands lead to |
| `Receiver.AuthenticatedExactly` | smtp/receiver.go:158-210 | over every run the session is authenticated if and only if some AUTH proved the client, which without an authenticator the second entry point never does, and it knows the client by the last name proved |
| `Receiver.Session.DoMail` | smtp/receiver.go:223-263 | MAIL is refused with 530 or 550 leaving the session alone, or starts a transaction without a cached verdict, on submission only for an authenticated client that may send as that address |
| `Receiver.MailExactly` | smtp/receiver.go:223-263 | the reply to MAIL for every session, sender and list of identities |
| `Receiver.Session.DoRcpt` | smtp/receiver.go:266-288 | RCPT stores the recipient if and only if there is no resolver, it is local or the session relays, refuses it with 550 otherwise, changes nothing else, and leaves all stored recipients such |
| `Receiver.ResetForgets` | smtp/receiver.go:740-744 | after RSET, whatever two sessions of the same client did before, every further run brings them to the same state and asks the verifier equally often |
| `Receiver.Session.SenderAuthResult` | smtp/receiver.go:616-663 | the verdict is the cached one, else local trust, else the verifier's, asked at most once |
| `Receiver.VerdictExactly` | smtp/receiver.go:603-663 | the verdict is the one of the transaction, else trust for logged-in, trusted, local or unverified senders with nothing to report, else the verifier's, and no on its error |
| `Receiver.RunKeeps` | smtp/receiver.go:158-288 | over every run of commands, a stored recipient is local or the session is authenticated submission with an outbound sender, and submission mode has no sender without authentication |
| `Receiver.AuthenticatedForGood` | smtp/receiver.go:158-288 | over every run, authentication never reverts |
| `Receiver.ExternalOnlyWhenRelaying` | smtp/receiver.go:355-392 | DATA can treat a recipient as external only in authenticated submission with an outbound sender |
| `Receiver.SenderIsAuthorized` | smtp/receiver.go:223-263 | over every run, a session's sender is that of its last accepted MAIL with no RSET since, and on submission the client was then authenticated and could send as that address |
| `Receiver.OneVerdictPerTransaction` | smtp/receiver.go:631-663 | over every run the verifier is asked at most once per start of a transaction, however many DATA commands follow |
| `ReceiverData.DeliverToAccount` | smtp/receiver.go:409-539 | an account delivers if and only if it discards, redirects or stores; the blob is kept before the script is asked; a rejecting one gets no email and sends nothing on; whenever nothing was delivered a failure is on record: an earlier one, or the first of blob, parser, script and mail store |
| `ReceiverData.AccountExactly` | smtp/receiver.go:409-539 | when an account keeps the blob, stores, forwards and delivers, for every script and every failure of its backends |
| `ReceiverData.CodesExactly` | smtp/receiver.go:409-581 | a rejection by script is answered with 550, an error of the mail store with its code or 451 |
| `ReceiverData.PlaceRecipients` | smtp/receiver.go:355-371 | recipients become the accounts the resolver gives them or are external |
| `ReceiverData.ExternalsExactly` | smtp/receiver.go:355-371 | the external recipients are those the resolver gives no local account |
| `ReceiverData.TargetsExactly` | smtp/receiver.go:355-384 | the target accounts are those of local recipients, or where nothing is resolved the fallback account, or failing that the first recipient's |
| `ReceiverData.DeliverToAll` | smtp/receiver.go:385-564 | from any visiting order, each account gets one copy or none, scheduling parts are applied where the script lets the message through and the verdict of the trace header says authenticated, and the session is unchanged |
| `ReceiverData.HandleData` | smtp/receiver.go:300-587 | past the size check, success is replied if and only if there was no recipient and no fallback, or an external recipient, or some account took the message, and a refusal has the code of some target account's failure, 451 for one without; the blobs, stored copies, forwarded copies and applied schedules are those of exactly the entitled accounts, once each; header and gate share one verdict; the session stays one that its commands lead to |
| `ReceiverData.ReceiveData` | smtp/receiver.go:300-663 | with the verifier of `SenderAuth`, an outside client and no verdict from before, the scheduling part is applied for exactly the accounts whose script lets the message through, and only if the sender is authentic |
| `ItipScan.Processor.ProcessMailbox` | jmap/itip_processor.go:45-129 | one scan takes the marks and the applied list from one state to the next of the runs below, leaving both alone when a backend is missing or fails |
| `ItipScan.SkipMailboxes` | jmap/itip_processor.go:68-85 | the skipped mailboxes are those with role or name sent, drafts or trash, and none when the listing fails |
| `ItipScan.SkippedExactly` | jmap/itip_processor.go:68-85 | a mailbox is skipped if and only if it is listed with role or name sent, drafts or trash in any case |
| `ItipScan.AppliedAtMostOnce` | jmap/itip_processor.go:45-129 | over every sequence of scans that find only unmarked mail and can mark it, each message reaches the calendar at most once |
| `ItipScan.AppliedExactly` | jmap/itip_processor.go:45-129 | over every sequence of scans, a message reaches the calendar if and only if some scan looks at it with a calendar part while it does not lie only in the sent, drafts and trash mailboxes that scan was told of |
| `ItipScan.MarkedExactly` | jmap/itip_processor.go:87-138 | over every sequence of scans a message is marked if and only if a scan that could mark it looked at it and skipped it or got its body |
| `ItipScan.SkippedMailExactly` | jmap/itip_processor.go:68-107 | mail that lies only in sent, drafts and trash is applied by a scan if and only if the mailbox listing fails and it has a calendar part |
| `ItipScan.LeftForNextSync` | jmap/itip_processor.go:88-113 | a found message stays unmarked only if it was not returned or its body could not be fetched |
| `ItipScan.AtMostOnceExactly` | jmap/itip_processor.go:45-129 | against every behaviour of backends that can mark, at every sync and from every state, each message is applied at most once if and only if the search returns no marked message and none twice |
| `ItipScan.PlainQueryExactly` | jmap/itip_processor.go:57-63 | a search that takes no notice of marks is safe in that sense if and only if it never finds anything |
| `ItipScan.PlainQueryReapplies` | jmap/itip_processor.go:57-63 | an instance: a message found again at the next sync is applied again |
| `ItipScan.FailedMarkReapplies` | jmap/itip_processor.go:131-138 | a message that cannot be marked is applied at every sync that finds it, so marking must work |
| `Tags.EscapeTagSegment` | jmap/tags.go:54-68 | the written text is the one that unescapes to the input (with `SegmentRoundTrip`) |
| `Tags.UnescapeTagSegment` | jmap/tags.go:70-94 | the loop decodes every escape and fails on exactly those cut off or not hexadecimal |
| `Tags.SegmentRoundTrip` | jmap/tags.go:54-94 | unescaping undoes escaping on every byte string |
| `Tags.HexExactly` | jmap/tags.go:96-106 | hexadecimal digits of both cases are read, and nothing else |
| `Tags.EscapeKeepsExactly` | jmap/tags.go:40-68 | text is left alone if and only if it is letters, digits, "$", "_" and "-" |
| `Tags.KeywordIsValid` | jmap/tags.go:112-124 | a produced keyword obeys the keyword grammar, has no capitals, and no "/" but the prefix's and the separator |
| `Tags.TagRoundTrip` | jmap/tags.go:112-149 | whenever a tag encodes, parsing the keyword gives the lower-cased name and value |
| `Tags.TagInjective` | jmap/tags.go:112-149 | two tags have the same keyword if and only if they agree up to case |
| `Tags.TagFitsExactly` | jmap/tags.go:112-124 | a tag has a keyword if and only if it has a name and the keyword has at most 255 bytes |
| `Tags.KeywordToTagExactly` | jmap/tags.go:129-149 | exactly which keywords are tags and of what name and value, whatever their case |
| `Sections.ParseNum` | spec/markdown.go:180-193 | succeeds exactly on non-empty digit strings, with their value wrapped around to 64 bits, which is the value if and only if it is below 2^63 |
| `Sections.SectionCompare` | spec/markdown.go:158-178 | the loop compares component by component, numbers by value and others as text, and then by length |
| `Sections.SubsectionsFollow` | spec/markdown.go:158-178 | a section comes before its subsections |
| `Sections.SiblingsByNumber` | spec/markdown.go:158-178 | siblings with numbers below 2^63 are in order of these |
| `Sections.SiblingsByText` | spec/markdown.go:158-178 | other siblings are in byte order |
| `Sections.DocumentsFirst` | spec/markdown.go:151-156 | requirements of different documents are in order of the documents |
| `Sections.RowOrderIsPreorder` | spec/markdown.go:151-178 | on requirements with safe section components the row order is reflexive, total and transitive |
| `Sections.SafeExactly` | spec/markdown.go:158-178 | a component is safe if and only if there are no two numbers whose order it contradicts |
| `Sections.NineTenOneA` | spec/markdown.go:158-178 | 9 comes before 10, 10 before 1a, and 1a before 9 |

## Left out

- Relay.MxHosts: records of equal preference keep their order, where the source's sort may permute them; its contract and the delivery theorems allow every order by preference.
- MailboxTracker.MailboxChanges: new and changed folders are collected in two passes over one visiting order instead of one pass.
- ReceiverData.HandleData: with several target accounts, whose failure decides the code of a refusal depends on the visiting order and is left open.
- ChangeLog.EmailLog.RecordMutation: the counter does not reach 2^64.
- ReceiverData.DeliverToAccount: forwarded copies are counted per account, not per redirect address.
- Dispatch.HandleCalls: error descriptions, the creation-id map and the request-level checks before the loop are not modelled.
- The text of state tokens (JSON and base64 of a snapshot) and the reading of a snapshot from IMAP: the decoded token and the snapshot are inputs.
- Sieve, MIME, address and DMARC-record parsing, SPF and DKIM checks, the JSON pointer evaluator and all handlers: libraries or code behind an interface, present as arbitrary inputs.
- Network, TLS, HTTP, storage, clocks, logging and the text of Received and Authentication-Results headers.
- Goroutine interleavings: requests, syncs and sessions are sequential here.
- Push (WebSocket, EventSource), calendars, contacts, quotas, identities and the vacation reply are not modelled.
