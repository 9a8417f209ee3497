# Verified model of an error-tracking server's hard parts

The server accepts events from Sentry SDKs over HTTP, stores each one durably before it
acknowledges it, and lets people look at the results under role-based access control. A test
client uploads source maps to it as a ZIP archive. This project models five parts and proves
what they promise.

**Publishing a pending event** (`Publication*.dfy`, `Publisher.dfy`). Any number of calls may
store the same event at once. Each writes a hidden temporary file, syncs it, and hard-links it
to the record's name; when the name is taken it keeps a complete record, or puts a malformed
one in quarantine and renames its own over it. Deleters, the sweeper of temporary files and
crashes interleave freely. `Publication.State` holds the directory, the inodes, the earlier
directory states a crash may still bring back, and one program counter per call.
`Publication.Next` is one system call, which may fail. `Publisher.IngestDirectory` is the code
of the call itself, on a directory that others change between any two of its system calls; each
of its ways out ends a run of the state machine, so every theorem about runs applies to it. A
crash lets every name fall back on its own to any state since the last directory sync. Hidden
names are told apart by `FileNames.HiddenNamesDistinct`.

**Record format and recovery** (`Base64*.dfy`, `PendingRecords.dfy`, `File*.dfy`,
`EventPlaces.dfy`, `Recovery.dfy`, `Acknowledged.dfy`). A record is JSON around the payload's base64, encoded chunk
by chunk. Recovery lists a directory's pending events by parsing file names and contents.

**Access control** (`Rbac*.dfy`). The permission catalog, grants with implied read, the fold of
assignments into one access, token caps, every derived query, and runs of role changes in which
each giver passes `covers`, with personal permissions, owners, invitations, the creation of
projects and the ownerless token. What runs may do is stated for any group of actors, so that it
says something of members whatever the owners can do.

**CRC-32 and ZIP** (`Crc*.dfy`, `Zip.dfy`, `UploadChunks.dfy`). The
table-driven checksum against its bit-serial definition and what it detects, the archive writer
against a reader that starts from the end record (sections 4.3.7, 4.3.12 and 4.3.16 of PKWARE
APPNOTE), and the cut into upload chunks.

**Envelopes** (`Envelope*.dfy`, `NulEscapes.dfy`, `JsonText.dfy`). The cursor parser with its two framing modes
and limits, the printer it undoes, and the removal of NUL escapes (section 7 of RFC 8259).

JSON is an abstract codec: printed headers and records read back, and printed headers stay on
one line. The clock, randomness and every system call's outcome are arbitrary.

## Results that correct a first impression

- The first record wins after every history and in every interleaving exactly when the name
  starts absent or complete (`PublicationLimits.FirstWinsExactly`); from a malformed start two
  calls that both saw it may replace it in turn and both succeed.
- A call that finds another's record returns without syncing the directory, so a crash may lose
  the event it acknowledged. It is safe exactly when a complete record stood there before any
  of the calls started (`PublicationLimits.DuplicateSafeExactly`); in general, exactly when the
  record was safe already (`PublicationDuplicates.DuplicatesSafeExactly`).
- A file system that does not keep directory operations in order may lose the quarantined file
  in a crash before the sync; the file that stood there first is safe from that exactly when it
  is complete (`PublicationLimits.ReachableExactly`). One that keeps them in order cannot lose
  it (`PublicationDurable.MalformedIsNeverLost`).
- Handing out permissions never lets a group of actors do more than they could among themselves,
  but creating a project does: the creator's own roles are extended to it, so that they come to
  hold there what only an owner held (`RbacNewProjects.CreationGivesNewPower`). It adds exactly
  what they could do on some project (`RbacCreation.CreationAddsExactly`).
- Visibility through an unlimited token agrees with no token because stored pairs are in the
  catalog, as every constructor of grants makes sure. On pairs outside it the two would agree
  exactly under the condition of `RbacTokens.UnlimitedVisibleExactly`.
- Stripping twice is not always stripping once. It is exactly when no copied backslash and `u`
  comes to stand before four zero digits (`NulEscapes.StripTwiceExactly`); text with
  well-formed escapes never does that; ill-formed text may or may not.
- Cutting a bundle into chunks ends exactly when the chunk size is positive or the bundle is
  empty (`UploadChunks.EndsExactly`).

## Model

| member | source | states |
|---|---|---|
| PublicationWhole.NeverHalfWritten | apps/server/src/ingest/storage.rs:183-311 | in every run, deleters, sweeper and crashes included, the canonical name is absent, holds what it held at first, or one call's whole record, which is complete for this event and project |
| Publication.WrittenIsComplete | apps/server/src/ingest/storage.rs:66-82 | what a call writes passes the identity check of every reader and decodes to the call's payload |
| Publication.SpellingIrrelevant | apps/server/src/ingest/storage.rs:62-82 | publishers that spell the event id differently accept exactly the same records |
| Publication.OthersDoNotMove | apps/server/src/ingest/storage.rs:183-311 | no other actor changes a call's progress or its temporary file's contents, crashes apart |
| PublicationWhole.SealedKept | apps/server/src/ingest/storage.rs:159-181 | once a temporary file is synced no step or crash changes it; the same for the inode that stood there first |
| PublicationFirst.FirstRecordWins | apps/server/src/ingest/storage.rs:194-234 | from an absent or complete start and after any history, deletes and crashes included, a record that is present is never changed or replaced by any number of publishers and the sweeper |
| PublicationFirst.OneWinner | apps/server/src/ingest/storage.rs:194-234 | from such a start and after any history, every call that looks and succeeds leaves a complete record, its own when it linked, and never replaces anything |
| PublicationFirst.OnlyOneLinks | apps/server/src/ingest/storage.rs:194-197 | as long as nothing is deleted, two different calls cannot both succeed by linking, crashes included |
| PublicationFirst.StandingRecordKept | apps/server/src/ingest/storage.rs:194-234 | from any start and after any history, a complete record is kept by every interleaving once no call is about to replace a malformed one |
| PublicationFirst.NothingReplaced | apps/server/src/ingest/storage.rs:229-271 | from an absent or complete start the replacing branch is never reached and no quarantine name exists, in any run |
| PublicationFirst.LinkedRecordStands | apps/server/src/ingest/storage.rs:194-197 | from such a start the record of a call that linked and returned stands through every later step and every crash until it is deleted, whatever happened before the call |
| PublicationFirst.CompleteStartStands | apps/server/src/ingest/storage.rs:229-234 | a complete record that was there first stands through every step and every crash until it is deleted |
| PublicationLimits.FirstWinsExactly | apps/server/src/ingest/storage.rs:194-271 | a complete record is kept after every history and in every interleaving if and only if the name starts absent or complete |
| PublicationLimits.MalformedStartMayReplaceTwice | apps/server/src/ingest/storage.rs:236-264 | a run from a malformed start in which two calls succeed one after the other, each with its own record in place |
| PublicationDurable.ReplacingNeverLosesTheName | apps/server/src/ingest/storage.rs:245-264 | after any history that left the name present since the last sync, it is present at every step of every race and after a crash at any point, until it is deleted |
| PublicationDurable.MalformedIsNeverLost | apps/server/src/ingest/storage.rs:236-264 | the first inode is under the canonical name or under a quarantine name at every step, and after any crash that restores one whole directory state |
| PublicationLimits.QuarantineMayBeLost | apps/server/src/ingest/storage.rs:245-271 | a crash that restores names independently, between rename and sync, can lose the quarantined inode: the failing half of the next row |
| PublicationLimits.ReachableExactly | apps/server/src/ingest/storage.rs:236-271 | under such crashes the inode that stood there first stays reachable in every delete-free run if and only if it was complete |
| PublicationLimits.ReachableAfterCrashExactly | apps/server/src/ingest/storage.rs:245-271 | in any state, every possible crash leaves the name present and that inode reachable if and only if the name is present in every directory state since the last sync and one and the same name keeps the inode in all of them |
| PublicationDurable.StoredMeansComplete | apps/server/src/ingest/storage.rs:183-274 | whatever happened before and whatever stood there, once a call has looked and succeeded a complete record stands there, and racing calls do not take it away |
| PublicationDurable.StoredSurvivesCrashes | apps/server/src/ingest/storage.rs:194-274 | whatever happened before the call, deletes and crashes included, success by link or rename leaves a complete record that survives every later step and every crash until the next delete |
| PublicationDurable.SurvivesExactly | apps/server/src/ingest/storage.rs:320-329 | in any state, every possible crash leaves a sound record if and only if every directory state since the last sync has one |
| PublicationDurable.OldestDecides | apps/server/src/ingest/storage.rs:320-329 | with nothing deleted since some sync, that holds if and only if the oldest directory state since the last sync has a sound record |
| PublicationLimits.DuplicateMayBeLost | apps/server/src/ingest/storage.rs:229-234 | a run in which a call returns through the duplicate exit and a crash then removes the event |
| PublicationLimits.DuplicateOfReplacement | apps/server/src/ingest/storage.rs:229-234 | a run in which a call returns through the duplicate exit while a crash may still bring the malformed record back |
| PublicationLimits.DuplicateSafeExactly | apps/server/src/ingest/storage.rs:229-234 | success through the duplicate exit is safe from every crash, in all delete-free runs, if and only if a complete record stood there to begin with |
| PublicationDuplicates.DuplicatesSafeExactly | apps/server/src/ingest/storage.rs:229-234 | after any history, every later success through the duplicate exit is safe from every crash if and only if the record already is |
| Publisher.IngestDirectory.WritePendingRecordAtomically | apps/server/src/ingest/storage.rs:276-311 | success or failure is the end of a run; with nothing deleted during the call success leaves a complete record, and by link or rename one that every crash keeps; and the call succeeds unless a system call of its own fails, its temporary file is swept, or something is deleted, whatever other publishers do; and it leaves no temporary file unless removing that fails |
| PublicationProgress.CallSucceeds | apps/server/src/ingest/storage.rs:183-311 | under every interleaving and after any history, a call fails only for a failing system call of its own, a swept temporary file, a delete or a crash |
| PublicationProgress.CallFinishes | apps/server/src/ingest/storage.rs:183-311 | at every moment of such a run the call needs at most eleven more system calls of its own to return successfully, counting its writes as one |
| PublicationCleanup.NothingLeftBehind | apps/server/src/ingest/storage.rs:194-311 | after any history and whatever others do meanwhile, a call that returns, with success or without, has no temporary file in the directory, unless a removal of its own failed or a crash came between |
| PublicationCleanup.FailureChangesNothing | apps/server/src/ingest/storage.rs:194-311 | a system call that fails leaves the directory and every file as they were, and takes its call no further, unless it was only to remove the temporary file |
| PublicationCleanup.CreatesOnlyNew | apps/server/src/ingest/storage.rs:288-296 | a temporary file is made only where none is, and starts empty |
| PublicationCleanup.TakenAway | apps/server/src/ingest/storage.rs:577-642 | a deleter takes exactly the record, the sweeper exactly one temporary file, and calls go on as they were |
| PublicationCleanup.CrashTears | apps/server/src/ingest/storage.rs:159-181 | a crash may leave anything at all of a file that was not synced, and of a synced one what it held |
| PublicationCleanup.CrashEndsAll | apps/server/src/ingest/storage.rs:276-311 | no call that had not returned goes on after a crash |
| PublicationTiming.SweptIsOld | apps/server/src/ingest/storage.rs:614-628 | in every run on one clock, whatever temporary file is swept was last written to at least 300 seconds before |
| PublicationTiming.QuickCallIsNotSwept | apps/server/src/ingest/storage.rs:595-642 | within 300 seconds of a call's first action its temporary file is never swept, whatever happened before |
| PublicationTiming.QuickCallSucceeds | apps/server/src/ingest/storage.rs:276-311 | a call that is done within the grace period never fails, whatever the sweeper and other publishers do, if no system call of its own fails and nothing is deleted or crashes |
| Publisher.IngestDirectory.PublishPendingFile | apps/server/src/ingest/storage.rs:183-274 | the result is the end of a run, stored by the exit it names or failed; after the link and rename exits nothing in the directory is left unsynced |
| Publisher.IngestDirectory.KeepOrReplace | apps/server/src/ingest/storage.rs:198-264 | when the name is taken the call ends stored as a duplicate, goes on to sync its replacement, or fails, as the machine does |
| Publisher.IngestDirectory.Replace | apps/server/src/ingest/storage.rs:236-263 | a malformed record is quarantined before it is replaced, or the call fails |
| Publisher.IngestDirectory.WritePendingRecord | apps/server/src/ingest/storage.rs:159-181 | on success the temporary file holds exactly the record, synced; any error leaves the call failing |
| Publisher.IngestDirectory.WriteAll | apps/server/src/ingest/storage.rs:168-178 | on success the file holds exactly that much more of the record, in place; otherwise the call fails |
| Publisher.IngestDirectory.HardLink | apps/server/src/ingest/storage.rs:194-198 | on success the canonical name is the temporary file; a name that is taken is reported as such; anything else fails the call |
| Publisher.IngestDirectory.RemoveTemporary | apps/server/src/ingest/storage.rs:195-197 | says whether the temporary file was removed, and then it is gone; the call goes on the same either way |
| Publisher.IngestDirectory.SymlinkMetadata | apps/server/src/ingest/storage.rs:199-210 | what stands under the name is a link or not; a link counts as malformed without being read |
| Publisher.IngestDirectory.ReadCanonical | apps/server/src/ingest/storage.rs:211-227 | the bytes are those under the canonical name, and the identity check on them decides between keeping and replacing |
| Publisher.IngestDirectory.LinkToQuarantine | apps/server/src/ingest/storage.rs:247-253 | on success the quarantine name and the canonical name are the same file |
| Publisher.IngestDirectory.RenameTemporary | apps/server/src/ingest/storage.rs:254-260 | on success the canonical name is present and the temporary name gone |
| Publisher.IngestDirectory.SyncParentDirectory | apps/server/src/ingest/storage.rs:320-329 | on success no earlier state of the directory can come back, and only then is the event stored |
| Base64.DecodesExactlyEncodings | apps/server/src/ingest/storage.rs:79-81 | text decodes to some bytes if and only if it is their encoding: padding and spare bits must be canonical |
| Base64.EncodeSplits | apps/server/src/ingest/storage.rs:119-134 | encoding splits at every multiple of three bytes |
| Base64Bits.ThreeBytesSpelled | apps/server/src/ingest/storage.rs:136-143 | every three bytes are spelled, in place, by the four symbols of the alphabet for their 24 bits, the highest first |
| Base64Bits.RestSpelled | apps/server/src/ingest/storage.rs:136-143 | one or two bytes left over are spelled as if zeros followed, with padding in place of the symbols that spell nothing else |
| Base64Chunks.RangesPartition | apps/server/src/ingest/storage.rs:119-134 | the ranges partition the payload, none exceeds the chunk size, and only the last may have a length not divisible by three |
| Base64Chunks.ChunkedEncodingIsEncoding | apps/server/src/ingest/storage.rs:174-177 | the encodings of the ranges, concatenated, are the encoding of the whole payload |
| Base64Chunks.ChunkRanges.Next | apps/server/src/ingest/storage.rs:121-133 | yields the ranges in order and stops only at the end of the payload |
| PendingRecords.WrittenRecordDecodes | apps/server/src/ingest/storage.rs:66-103 | a written record decodes to its payload for its own event and project, and to an error for any other |
| EventPlaces.LayoutIsObject | apps/server/src/ingest/storage.rs:159-181 | the pieces a record is written in make up one JSON object of its version, metadata and base64 text |
| EventPlaces.DecodesExactly | apps/server/src/ingest/storage.rs:66-103 | a record is read as some bytes if and only if it is of version 1, of this event and project, and carries exactly their base64 |
| PendingRecords.StoreThenRead | apps/server/src/ingest/storage.rs:460-471 | a stored event is read back unchanged, under every spelling of its id and whatever else is in the directory |
| PendingRecords.StoringLeavesOthers | apps/server/src/ingest/storage.rs:389-401 | storing changes what is read of no other event and no other project |
| EventPlaces.StoredUnderOwnName | apps/server/src/ingest/storage.rs:389-401 | an event is accepted for storing if and only if its metadata is for it, and then under the name of its own project; the only other answer is a validation error |
| EventPlaces.ReadsFirstPlace | apps/server/src/ingest/storage.rs:460-498 | an event is read from the first of its four places that is there, with the payload and the location of that place; when that file is not in order the answer is an error, never another place |
| EventPlaces.MissingExactly | apps/server/src/ingest/storage.rs:460-502 | an event is reported missing if and only if it is at none of its four places, and its id refused if and only if it is none |
| PendingRecords.DeletePaths | apps/server/src/ingest/storage.rs:577-589 | removes exactly the named files that can be removed |
| PendingRecords.DeletedIsGone | apps/server/src/ingest/storage.rs:542-559 | with its project copies deleted an event is read from the legacy places, and with those deleted too it is reported missing |
| EventPlaces.DeletesExactly | apps/server/src/ingest/storage.rs:542-559 | a location is cleared of exactly the two project names, or the three legacy names, of the event |
| FileNames.ParsingUndoesNaming | apps/server/src/ingest/storage.rs:644-649 | the file name of a project record parses back to its project and event id, for every 32-bit id and every UUID |
| FileNames.ProjectNamesInjective | apps/server/src/ingest/storage.rs:48-60 | two events share a project file name only if they are the same event of the same project |
| FileNames.LegacyNameMatches | apps/server/src/ingest/storage.rs:651-663 | a legacy record's name matches exactly its own event and is never taken for a project's |
| FileNames.PlacesDistinct | apps/server/src/ingest/storage.rs:34-60 | a project record's name is no other place of any event |
| FileNames.HiddenNeverListed | apps/server/src/ingest/storage.rs:701-705 | no temporary or quarantine name looks like a pending record or legacy metadata |
| FileNames.SweepsOnlyTemporaries | apps/server/src/ingest/storage.rs:591-593 | the sweeper's test accepts temporary names and neither records nor quarantine names |
| FileNames.HiddenNamesDistinct | apps/server/src/ingest/storage.rs:236-287 | the hidden names of different calls differ from each other and from the record's |
| FileNames.ParseUuidUndoesPrinting | apps/server/src/ingest/storage.rs:34-38 | both printed forms of a UUID parse back to it |
| FileSpellings.UuidExactly | apps/server/src/ingest/storage.rs:34-38 | an id is read if and only if the text is its 32 hexadecimal digits in either case, bare, hyphenated, braced or as a URN |
| FileSpellings.Int32Exactly | apps/server/src/ingest/storage.rs:644-649 | a project id is read from a name if and only if the text is its decimal form, after any zeros, with a sign that fits |
| FileSpellings.FormatIsShortest | apps/server/src/ingest/storage.rs:48-52 | a project's number is written in a name as the shortest text that is read as it |
| Recovery.ListPendingEventMetadataExcept | apps/server/src/ingest/storage.rs:677-762 | sweeps first and reports its failure; then nothing is pending in a missing directory, a directory that cannot be read to its end is an error, and otherwise the first candidate of each event is listed |
| Recovery.ScanEntries | apps/server/src/ingest/storage.rs:695-757 | the scan returns the first candidate of each event, in directory order |
| Recovery.EachListedOnce | apps/server/src/ingest/storage.rs:695-757 | no (project, event) is listed twice |
| Recovery.ListedExactly | apps/server/src/ingest/storage.rs:695-757 | a (project, event) is listed if and only if some entry of the directory offers it |
| Recovery.ListedAreFirst | apps/server/src/ingest/storage.rs:695-757 | the metadata listed are exactly those of the first entry to offer each event |
| Recovery.AcceptedIsListed | apps/server/src/ingest/storage.rs:719-731 | every record that publishers and readers accept, of an event nobody owns, is listed, whatever else is in the directory |
| EventPlaces.ProjectRecordOffers | apps/server/src/ingest/storage.rs:706-731 | under a project name, a file offers exactly the metadata of a version-1 record of that project and event that nobody owns |
| EventPlaces.LegacyRecordOffers | apps/server/src/ingest/storage.rs:719-731 | under an event's legacy name, exactly those of a version-1 record of that event, for whichever project |
| EventPlaces.LegacyMetadataOffers | apps/server/src/ingest/storage.rs:741-757 | a legacy metadata file offers exactly what it says, if its event id is one |
| EventPlaces.NothingElseOffers | apps/server/src/ingest/storage.rs:701-721 | no other name, and no file that cannot be read, offers anything |
| Recovery.PublishedIsListed | apps/server/src/ingest/storage.rs:719-731 | every record as a call writes it, of an event nobody owns, is listed, whatever else is in the directory |
| Recovery.OwnMetadataIsListed | apps/server/src/ingest/storage.rs:719-731 | the metadata listed for a published record are its own when no earlier entry offers the event |
| Recovery.OwnedOnlyFromLegacy | apps/server/src/ingest/storage.rs:706-711 | an owned event can only be listed from a file without a project in its name |
| Recovery.HiddenOffersNothing | apps/server/src/ingest/storage.rs:701-705 | temporary and quarantined files are never listed, whatever they contain |
| Recovery.CleanupOrphanedTemporaryFiles | apps/server/src/ingest/storage.rs:599-642 | removes nothing but hidden temporary names of age 300 seconds or more, and of those every one that it comes to and can remove; fails exactly when the directory cannot be read to its end |
| Recovery.SweepingChangesNoEvent | apps/server/src/ingest/storage.rs:591-593 | whatever the sweeper removes, every event is read as before |
| Acknowledged.AcknowledgedIsListed | apps/server/src/ingest/storage.rs:677-762 | whatever happened before, an event acknowledged by link or rename is listed by recovery after every later step and every crash until it is deleted, unless it is owned |
| Acknowledged.AcknowledgedMetadataIsListed | apps/server/src/ingest/storage.rs:677-762 | from an absent or complete start, recovery lists the very metadata that was acknowledged by link, when no earlier file offers the event |
| Acknowledged.AcknowledgedIsRead | apps/server/src/ingest/storage.rs:460-471 | from an absent or complete start, the payload acknowledged by link is the payload read back, under every spelling of its id, after every later step and crash until it is deleted |
| Rbac.NewAccess | apps/server/src/auth/rbac.rs:243-254 | the loop over assignments computes the fold the theorems are about |
| Rbac.FoldMeansSomeAssignment | apps/server/src/auth/rbac.rs:269-305 | through any token or none, folded access allows something if and only if some single assignment does |
| Rbac.OneMoreAssignment | apps/server/src/auth/rbac.rs:187-190 | adding an assignment adds exactly what it allows on its own |
| Rbac.NothingByDefault | apps/server/src/auth/rbac.rs:7-10 | without assignments nothing is allowed |
| RbacMeaning.CanMeans | apps/server/src/auth/rbac.rs:269-305 | in terms of stored pairs and places alone: an action is allowed if and only if an assignment that reaches the place names it or, for reading, anything else of the resource; a project is seen if and only if one that reaches it names anything on projects |
| RbacMeaning.TokenMeans | apps/server/src/auth/rbac.rs:214-226 | a token does exactly what its owner can of what its own pairs name, and on projects only on those it lists |
| RbacMeaning.TokenSees | apps/server/src/auth/rbac.rs:284-305 | a token sees exactly the listed projects on which its owner holds some project permission that its own pairs name too |
| RbacMeaning.ScopeAllowsExactly | apps/server/src/auth/rbac.rs:276-282 | what a token was limited to allows an action if and only if the token would, somewhere, in the hands of somebody who can do everything; without a token nothing is limited |
| RbacLists.CatalogByAction | apps/server/src/auth/rbac.rs:88-119 | which resources each of the four actions means something for |
| Rbac.SortedIdsIncrease | apps/server/src/auth/rbac.rs:353-360 | visible ids come in strictly increasing order |
| RbacQueries.OrderIndependent | apps/server/src/auth/rbac.rs:243-254 | the same assignments in any order and number give the same access |
| RbacQueries.MoreAssignmentsAllowMore | apps/server/src/auth/rbac.rs:187-190 | more assignments never take a permission away, with or without a token |
| RbacQueries.VisibleExactly | apps/server/src/auth/rbac.rs:349-370 | a project is among the visible ones if and only if reading it is allowed |
| RbacQueries.AllowedImpliesVisible | apps/server/src/auth/rbac.rs:269-305 | any action allowed on a project's resource makes the project visible |
| RbacQueries.RequireExactly | apps/server/src/auth/extractors.rs:298-321 | for every resource: succeeds if and only if the action is allowed and the project, where one is named, is visible; answers "not found" exactly for an invisible project, and "forbidden" in every other case |
| RbacQueries.InstancePairsExactly | apps/server/src/auth/rbac.rs:395-406 | holds a project permission if and only if it is allowed on every project, as a set |
| RbacLists.InstanceListExactly | apps/server/src/auth/rbac.rs:395-406 | lists a permission if and only if it is allowed everywhere, each once, in the catalog's order |
| RbacQueries.PairsOnContents | apps/server/src/auth/rbac.rs:408-430 | holds a project permission on a project if and only if the project is named and the permission is allowed there, as a set |
| RbacLists.ProjectListsExactly | apps/server/src/auth/rbac.rs:408-430 | has an entry for exactly the named projects on which something is allowed, by increasing id, each listing what is allowed there in the catalog's order |
| RbacLists.CatalogContents | apps/server/src/auth/rbac.rs:132-136 | the catalog lists exactly the permissions that resources accept |
| RbacQueries.HoldsSomewhereExactly | apps/server/src/auth/rbac.rs:433-440 | true if and only if the workspace permission is allowed, or some project allows the project permission |
| RbacQueries.CanSomewhereExactly | apps/server/src/auth/rbac.rs:321-333 | true if and only if some project allows it |
| RbacQueries.CanOnNewProjectExactly | apps/server/src/auth/rbac.rs:338-346 | the same query in terms of the access it is asked of: what holds everywhere for those who see everything, otherwise what holds somewhere, and nothing through a token with a list |
| RbacTokens.TokenNeverExceedsOwner | apps/server/src/auth/rbac.rs:256-267 | a token never does more than its owner, visibility included |
| RbacTokens.NarrowingAllowsLess | apps/server/src/auth/rbac.rs:215-231 | narrowing a token's pairs or projects never allows more |
| RbacTokens.UnlimitedTokenChangesNothing | apps/server/src/auth/rbac.rs:256-440 | a token for everything answers every query as no token does |
| RbacTokens.UnlimitedShowsExactly | apps/server/src/auth/rbac.rs:286-291 | visibility through a token for everything agrees with no token if and only if the grants hold everything, nothing on projects, or something there the catalog knows |
| RbacTokens.UnlimitedVisibleExactly | apps/server/src/auth/rbac.rs:349-370 | a token for everything leaves the visible projects the same if and only if the instance grants are such and either show everything or the grants on every project are such too |
| RbacTokens.UnlimitedNeedsCatalog | apps/server/src/auth/rbac.rs:155-160 | an access with a pair outside the catalog, which no constructor of grants lets in, would see less through a token for everything |
| RbacHandouts.CoversExactly | apps/server/src/auth/rbac.rs:374-391 | `covers` holds if and only if no single handed-out permission lets its holder do what the giver cannot |
| RbacHandouts.CoversIsNoEscalation | apps/server/src/auth/rbac.rs:374-391 | `covers` holds if and only if somebody holding only these grants there can do nothing the giver cannot, at a project or everywhere, with or without a token |
| RbacHandouts.CoversAllExactly | apps/server/src/auth/rbac.rs:375-377 | an "everything" grant, at a project or everywhere, is covered if and only if the giver can already do everything everywhere |
| RbacHandouts.CoveredPairIsHeld | apps/server/src/auth/rbac.rs:378-390 | whatever a covered permission allows its holder, the giver can do |
| RbacWorkspace.MemberCan | apps/server/src/services/role.rs:379-401 | a member may do something if and only if one stored row of a role they hold, or of their personal permissions, allows it |
| RbacEffects.MemberCanExactly | apps/server/src/services/role.rs:379-401 | a member may do something if and only if one permission they have, by a role or personally, gives it at that place: itself, reading its resource, or seeing its project; workspace permissions count wherever held |
| RbacEffects.AssignGives | apps/server/src/routes/roles.rs:390-398 | assigning a role that the giver covers gives its receiver exactly its permissions at that place, and nobody anything else; otherwise nothing changes |
| RbacEffects.UnassignTakes | apps/server/src/routes/members.rs:227-238 | taking it back leaves its holder exactly what they have otherwise |
| RbacEffects.WriteRoleSets | apps/server/src/routes/roles.rs:273-294 | rewriting a role that is covered before and after gives each holder exactly its new permissions in place of the old, and otherwise nothing changes |
| RbacEffects.DropRoleTakes | apps/server/src/routes/roles.rs:312-320 | a deleted role leaves everybody what they have by other roles or personally |
| RbacEffects.SetPersonalSets | apps/server/src/routes/roles.rs:409-432 | personal permissions are replaced by the given ones at the given places if all are covered there, and otherwise stay |
| RbacEffects.PromoteMakesOwner | apps/server/src/routes/team.rs:122-156 | whoever an owner makes an owner can do everything |
| RbacEffects.DemoteLeavesRoles | apps/server/src/routes/team.rs:122-156 | whoever is unmade one can do exactly what their roles and personal permissions allow |
| RbacEffects.RemovedCanNothing | apps/server/src/routes/team.rs:177-218 | a removed user can do nothing, through a token or not |
| RbacEffects.InvitedHas | apps/server/src/services/invitation.rs:148-222 | accepting an invitation gives exactly what was offered when it was made, and it can be accepted once |
| RbacEffects.NotInvited | apps/server/src/services/invitation.rs:224-238 | an invitation that its maker does not cover, or that was revoked, gives nobody anything |
| RbacEffects.OthersUnchanged | apps/server/src/routes/roles.rs:368-432 | no change but one of a role itself touches what anybody else can do |
| RbacRuns.NoEscalationByOneChange | apps/server/src/routes/roles.rs:239-432 | what an actor can do after a change of roles, assignments, personal permissions, owners, invitations or projects they could do before, or its maker could through the token used, or the invitation they accepted allowed, or it is on the project they just created and they could do it on another |
| RbacRuns.NoEscalation | apps/server/src/auth/rbac.rs:374-391 | for every group of actors and every run of changes made within the group, through tokens or not: what the group and open invitations can do at the end they could at the start, but on projects created in the run what they could on some project |
| RbacRuns.OwnersFromOwners | apps/server/src/routes/team.rs:122-131 | for every group and every run of changes made within it: a member of the group is an owner, or an owner's invitation is open, at the end only if that was so at the start |
| RbacCreation.CreationAddsExactly | apps/server/src/routes/projects.rs:148-164 | creating a project adds, for every actor, exactly this: for the creator whose roles are extended, on the new project, what they could do on some project |
| RbacEffects.ExtendsExactly | apps/server/src/routes/projects.rs:148-164 | the creator's roles are extended if and only if they are a user who may create projects and sees some project but not every one |
| RbacCreation.ExtendedOnProject | apps/server/src/services/role.rs:240-256 | extending a user's roles to a project gives them there exactly what they could do on some project, through a token that lists none or through none |
| RbacCreation.ExtendedElsewhere | apps/server/src/services/role.rs:240-256 | it changes nothing on any other project or on the workspace |
| RbacNewProjects.CreationGivesNewPower | apps/server/src/routes/projects.rs:148-164 | a workspace with an owner in which creating a project gives a user, on it, what neither they nor anybody but the owner could do there before |
| RbacNewProjects.PredictsNewProject | apps/server/src/auth/rbac.rs:335-346 | the query asked before the project is there answers exactly what the creator can do on it once their roles have been extended |
| Crc32.Crc32 | packages/test-sentry/src/sourcemaps.ts:22-28 | the table-driven loop computes the bit-serial CRC-32 of every byte sequence |
| Crc32.MakeCrc32Table | packages/test-sentry/src/sourcemaps.ts:8-18 | every table entry is the register's eight-step shift of its index |
| Crc32.TableStep | packages/test-sentry/src/sourcemaps.ts:25 | one table look-up equals eight single-bit steps |
| Crc32.UpdateIsBitSerial | packages/test-sentry/src/sourcemaps.ts:22-28 | working a byte at a time equals working a bit at a time |
| Crc32.ShiftByInjective | packages/test-sentry/src/sourcemaps.ts:13 | the register's shifts lose nothing: different states stay different |
| Crc32.BurstDetected | packages/test-sentry/src/sourcemaps.ts:22-28 | equal-length inputs that differ only within four consecutive bytes have different checksums |
| CrcBursts.BitBurstDetected | packages/test-sentry/src/sourcemaps.ts:22-28 | equal-length inputs that differ only within 32 consecutive bits, wherever those begin, have different checksums |
| CrcBursts.LongerBurstMissed | packages/test-sentry/src/sourcemaps.ts:13 | 32 is the limit: an error pattern of 33 consecutive bits that leaves no difference |
| CrcChecks.CheckValue | packages/test-sentry/src/sourcemaps.ts:8-28 | the checksum of the text 123456789 is cbf43926, and that of nothing is zero |
| Zip.ReadingUndoesWriting | packages/test-sentry/src/sourcemaps.ts:34-97 | a reader starting from the end record, which refuses anything but plainly stored files on one disk, recovers exactly the names, data and checksums, in order, of every file list within the limits |
| Zip.BuildZip | packages/test-sentry/src/sourcemaps.ts:34-97 | succeeds if and only if everything fits its field, and then writes that archive |
| Zip.AddFile | packages/test-sentry/src/sourcemaps.ts:39-81 | each file's local and central parts stand at the tracked offset, and failure means it does not fit |
| Zip.WriteLocalHeader | packages/test-sentry/src/sourcemaps.ts:44-56 | fields written at fixed offsets lay out the local header, or one is out of range |
| Zip.WriteCentralHeader | packages/test-sentry/src/sourcemaps.ts:58-76 | the same for the central header |
| Zip.WriteEndRecord | packages/test-sentry/src/sourcemaps.ts:86-94 | the same for the end record |
| Zip.FieldsRoundTrip | packages/test-sentry/src/sourcemaps.ts:44-94 | reading a laid-out header gives back its numbers |
| UploadChunks.Split | packages/test-sentry/src/sourcemaps.ts:285-291 | whenever the loop ends: the chunks join to the bundle, all but the last are full, none is empty, and there are as many as turns are needed |
| UploadChunks.EndsExactly | packages/test-sentry/src/sourcemaps.ts:285-291 | the loop ends if and only if the chunk size is positive or the bundle empty |
| UploadChunks.ChunkingUnique | packages/test-sentry/src/sourcemaps.ts:285-291 | a bundle can be cut that way in one way only |
| NulEscapes.StripNulEscapes | apps/server/src/ingest/parser.rs:61-83 | the loop and the borrowing fast path both return the stripped text, and it borrows exactly when no window spells the escape |
| NulEscapes.StripCommutesWithDecoding | apps/server/src/ingest/parser.rs:57-83 | on well-formed escapes, stripped text means the original code units without NULs and otherwise unchanged |
| JsonText.RawUndoesUtf8 | apps/server/src/ingest/parser.rs:57-66 | in the decoding this is measured against, every character but the backslash and NUL is read as itself from its UTF-8 bytes |
| JsonText.RawIsUtf8 | apps/server/src/ingest/parser.rs:57-66 | and no other bytes are read as a character |
| JsonText.UnicodeEscapeExactly | apps/server/src/ingest/parser.rs:57-66 | and an escape is read as a code unit if and only if its four digits, in either case, spell it |
| NulEscapes.UnchangedExactly | apps/server/src/ingest/parser.rs:57-66 | text is left alone if and only if its meaning holds no NUL |
| NulEscapes.StripTwice | apps/server/src/ingest/parser.rs:61-83 | on well-formed text, stripping twice is stripping once |
| NulEscapes.StripTwiceExactly | apps/server/src/ingest/parser.rs:61-83 | on every byte string, stripping twice is stripping once if and only if nothing rejoins: no copied backslash and `u` comes before four zero digits with only NUL escapes between |
| NulEscapes.WellFormedNeverRejoins | apps/server/src/ingest/parser.rs:57-83 | nothing rejoins in text that decodes |
| NulEscapes.BrokenEscapeMakesAnother | apps/server/src/ingest/parser.rs:69-81 | an ill-formed text that rejoins and one that does not |
| NulEscapes.EscapedBackslashSurvives | apps/server/src/ingest/parser.rs:75-80 | an escaped backslash followed by `u0000` is kept, and what follows is stripped as usual |
| Envelope.RangesInOrder | apps/server/src/ingest/parser.rs:95-114 | on success the raw payloads are disjoint, in order, within their type's limit, at most 1024, and with at least a byte each besides fit in the buffer |
| Envelope.ItemAt | apps/server/src/ingest/parser.rs:127-178 | an item's payload lies behind its header and within its type's limit, and the cursor strictly advances |
| Envelope.LineAt | apps/server/src/ingest/parser.rs:180-198 | a line is a range of the buffer within the limit, and reading one advances unless at the end |
| EnvelopeKinds.KindExactly | apps/server/src/ingest/envelope.rs:126-165 | an item's kind is the one from which its type and payload can be told: the type of each kind, which spans are batches, which sessions are kept as unknown, and the headers an attachment keeps |
| EnvelopeKinds.ParsedRenders | apps/server/src/ingest/parser.rs:95-178 | item by item, a parsed envelope is what stands in the buffer: attachments byte for byte, and every other payload with the meaning it had, without its NULs |
| EnvelopeKinds.LineExactly | apps/server/src/ingest/parser.rs:180-198 | a line is read if and only if it is one of the buffer, ended by a newline or by the buffer's end, and not over the limit; too long is the only error |
| EnvelopeKinds.Limits | apps/server/src/ingest/parser.rs:7-31 | the limits in bytes: 8 KiB a header, 4 MiB an event, 100 MiB an attachment, 1 MiB anything else, and 1024 items |
| EnvelopeKinds.PayloadRefusedExactly | apps/server/src/ingest/parser.rs:143-166 | a payload is refused as too large if and only if it declares more than its type may have, or its line is longer; as malformed if and only if it declares more than there is |
| EnvelopeKinds.HeadersRefusedExactly | apps/server/src/ingest/parser.rs:116-125 | headers are refused as too large if and only if their line is too long, as malformed if and only if it is empty or no header |
| EnvelopeKinds.ItemRefusedExactly | apps/server/src/ingest/parser.rs:127-178 | an item is refused if and only if its line is too long, is no header, or its payload is refused; an empty line is no item |
| EnvelopeParsing.EnvelopeParser.Parse | apps/server/src/ingest/parser.rs:95-114 | the cursor loop returns what the buffer means, ends at its end, and always terminates |
| EnvelopeParsing.EnvelopeParser.ParseItem | apps/server/src/ingest/parser.rs:127-178 | the item at the cursor, a blank line as none, or its error; the item has the type that was sent, and the payload that was sent without its NULs, or untouched for an attachment |
| EnvelopeParsing.EnvelopeParser.ParseEnvelopeHeaders | apps/server/src/ingest/parser.rs:116-125 | the headers at the cursor or their error |
| EnvelopeParsing.EnvelopeParser.ReadPayload | apps/server/src/ingest/parser.rs:143-166 | a declared length or a line, each with its limit and error |
| EnvelopeParsing.EnvelopeParser.ReadLine | apps/server/src/ingest/parser.rs:180-198 | the line at the cursor, with the cursor behind it, or an error with the cursor unmoved |
| EnvelopeParsing.EnvelopeParser.ReadBytes | apps/server/src/ingest/parser.rs:200-211 | succeeds if and only if that many bytes are left |
| EnvelopeParsing.EnvelopeParser.SkipNewline | apps/server/src/ingest/parser.rs:213-217 | passes one newline if there is one |
| EnvelopeRoundTrip.ParsingUndoesPrinting | packages/benchmarks/src/envelope.rs:233-250 | for every list of items that fit, with any blank lines between them, parsing gives back headers and items, and fails only and exactly by the count limit |
| EnvelopeKinds.PrintedComesBack | packages/benchmarks/src/envelope.rs:233-250 | every printed envelope with room for its items parses to its headers and, item by item, to the type and payload that were printed |
| EnvelopeRoundTrip.BlankLinesChangeNothing | apps/server/src/ingest/parser.rs:130-134 | with fewer than 1024 items, blank lines change nothing |
| EnvelopeRoundTrip.PayloadsVerbatim | apps/server/src/ingest/parser.rs:167-174 | payloads come through byte for byte when only attachments hold NUL escapes |
| EnvelopeRoundTrip.BuildEnvelope | packages/benchmarks/src/envelope.rs:233-250 | the printer's loop writes the printed form, which parses back to what was printed |

## Left out

- Rbac.NewAccess: grants and access are values, not objects updated in place; the source holds
  them by exclusive reference, so nothing can alias them.
- RbacRuns.NoEscalation: the first account and accounts mapped from an identity provider are
  not among the changes. An assignment needs only the new role to be covered, where the source
  also demands that of the roles held before, and permission to change roles at all; an invitation
  may name several roles at one place, where the source allows one.
- RbacNewProjects.PredictsNewProject: says nothing of seeing the new project, which the source
  decides apart from permissions and does not ask of this query.
- RbacEffects.DropRoleTakes: covers roles that are still assigned too, which the source refuses to delete.
- PublicationTiming.QuickCallSucceeds: publishers, files and sweeper share one clock, in whole seconds,
  that does not run backwards; what a file's age is when they do not is arbitrary in
  `Recovery.CleanupOrphanedTemporaryFiles`.
- UploadChunks.Split: covers the inputs on which the loop ends.
- PublicationWhole.NeverHalfWritten: a directory that vanishes and is created again is not modelled; the
  retry after it is another call.
- PublicationDurable.MalformedIsNeverLost: a deleter ends the promise, as in the source.
- Recovery.ListPendingEventMetadataExcept: a file that vanishes during the scan is an unreadable one.
- Project ids are unbounded integers in the access model and 32-bit in file names.
- JSON parsing and printing, the clock behind the grace period, and the choice of UUIDs are
  parameters; UUIDs drawn by different calls are taken to differ.
- The printer's header types in the benchmark package are modelled by the parser's own, printed by
  the same codec.
- Writes and reads through the legacy unscoped entry points, decompression, HTTP, the digest that
  consumes events, the network steps of the upload, and the load generator's random payloads.
