# A verified model of Gokapi

Gokapi stores uploaded files under the digest of their content, hands out download links that expire by time or by
count, lets users and API keys with 16-bit permission masks manage all of it, and has browser code that cuts,
encrypts, zips and names uploads. This project models the parts of the server and of the browser code whose state
is shared by many entry points, or whose loops are easy to get wrong, and proves what they promise.

`dafny verify dfyconfig.toml` checks everything. The modules follow the program:

- **The file store.** `Models`, `Encryption` and `Database` hold the records, an abstract perfect cryptography and the
  metadata table. `FileServing` has the storage operations in place on the table, the sources and the map of running
  downloads (`DownloadStatuses`); each is proved against a function of `FileStore`. `FileStoreInvariant` proves what
  every operation keeps, `FileStoreEffects` what each means for those who ask for a file afterwards, `FileStoreSweep`
  that the self-calling clean-up amounts to one sweep, and `FileStoreRuns` the claims about whole runs.
- **Download counting.** `DownloadCounting` interleaves downloads with the two handlers that write back a whole
  record, one lock operation or database statement at a time, over the striped locks of `ApiMutex`;
  `DownloadOutcomes` proves how each of them ends.
- **Accounts.** `Permissions` has the masks, `Accounts` the effect of each handler on users, keys, file requests and
  files, `AccountsApi` the handlers in place, `AccountsRuns` the invariants over any run, `AccountsRights` who may do
  what and what exactly it leaves behind.
- **The log.** `LogLines` says what the lines of a file are, `Logging` has the backward block reader, `GetSince` and
  `DeleteLogs`, `LoggingRuns` the life of a log.
- **Uploads.** `Chunking` puts chunk files together, `PublicUpload` cuts a file, `End2End` slices and encrypts it,
  `UploadPath` follows an upload from the browser to its download, and `ChunkReservations`, `FileRequests`,
  `FileRequestRights` and `FileRequestRuns` limit the uploads to a file request.
- **The timed mutex** of end-to-end users, `E2eMutex`, as interleaved callers and timers.
- **Text.** `Base64` with its formats in `Base64Format`, `UniqueNames`, `Filenames` and `ArchiveName`.

Code that changes things step by step is written as classes and methods with loops. Each such method is proved equal
to a function of the old state, and the claims are lemmas about those functions. Loops over a Go map take the
entries in any order. The clock, random ids, keys and names are parameters. Concurrency is modelled by state machines
whose steps interleave freely; everywhere else one handler runs at a time.

Some things that the code or its comments suggest do not hold; each is stated with its exact condition:

- A server that encrypts also encrypts end-to-end uploads and then serves them encrypted twice
  (`FileStoreInvariant.ServedIsContent`, `FileStoreRuns.AnEndToEndUploadIsEncryptedTwice`).
- The switch on permissions in the key handler is not enough for masks that combine a sensitive permission with others;
  the request parser yields only single ones (`Permissions.OwnerCheckIsEnoughExactlyFor`,
  `Permissions.ApiPermissionFromString`).
- File requests handed over when their owner is deleted can no longer be used, since their key is deleted first
  (`AccountsRuns.MovedRequestsInAnyRun`, `AccountsRuns.AMovedRequestCannotBeUsed`).
- Stopping a timer that has already fired does not help: it releases the lock of the next holder. A holder is safe
  exactly while no earlier unlock or fired timer is pending (`E2eMutex.HolderIsSafeExactlyWithoutPendingUnlock`,
  `E2eMutex.LateTimerReleasesTheNextHolder`).
- Deleting old log entries also drops newer ones that follow a line of 65536 bytes or more
  (`LoggingRuns.NewerEntriesSurvive`, `LoggingRuns.ALongLineHidesANewerEntry`).
- The bounds check on a chunk wraps around for offsets near the end of the 64-bit range; the check in front of it rules
  that out (`Chunking.WriteStaysInTotal`, `Chunking.AcceptedPiecesStayInTotal`).
- Completing an upload that holds no reservation may take a place that is reserved for somebody else
  (`FileRequestRuns.UploadsAndReservationsStayWithin`).
- The browser's copy of the file-name check differs from the server's when the cut leaves two or three bytes of a
  character, and when a name that is cut begins with a byte order mark (`Filenames.BrowserAgreesWithServer`,
  `Filenames.ACutCharacterDiffers`, `Filenames.AMarkIsLost`).
- A resolved archive name is not always left unchanged by the server, contrary to the comment on
  `zipResolveArchiveName`: it is changed exactly if the typed name hides another dot behind its leading dots and the
  spaces after them (`ArchiveName.ServerKeepsTheResolvedName`, `ArchiveName.ALeadingDotMayRemain`).

## Model

| member | source | states |
|---|---|---|
| FileStoreRuns.EveryRunIsSound | internal/storage/FileServing.go:60-460 | after any run of uploads, replacements, duplicates, deletions, schedules, downloads and clean-ups the stored sources are exactly the hashes the metadata names, entries of one hash hold the same key and nonce, every entry opens its source, and it is served as its content unless it is an end-to-end upload on an encrypting server |
| FileStoreInvariant.DonorIsUnique | internal/storage/FileServing.go:337-349 | whichever entry the search for an existing key happens to meet, the key and nonce are those of every entry with the hash |
| FileStoreInvariant.ServedIsContent | internal/storage/FileServing.go:675-699 | what a download sends has the content uploaded or swapped in under the id; it is in the clear exactly if the upload was not end-to-end encrypted on an encrypting server |
| FileStoreRuns.AnEndToEndUploadIsEncryptedTwice | internal/storage/FileServing.go:161-219 | the other case happens with the first end-to-end upload to a server that encrypts |
| FileStoreInvariant.InheritanceKeepsInv | internal/storage/FileServing.go:374-460 | any operation that only passes hash, key and content from entry to entry and drops sources nobody names keeps the store sound |
| FileStoreInvariant.NewFileKeepsInv | internal/storage/FileServing.go:60-123 | an upload in one piece, new or deduplicated, keeps the store sound |
| FileStoreInvariant.NewFileFromChunkKeepsInv | internal/storage/FileServing.go:161-236 | an upload from a chunk file, end-to-end encrypted or not, keeps the store sound |
| FileStoreInvariant.ReplaceKeepsInv | internal/storage/FileServing.go:374-415 | swapping in another file's content, with or without deleting that file, keeps the store sound and leaves no source behind |
| FileStoreInvariant.DuplicateKeepsInv | internal/storage/FileServing.go:422-460 | a duplicate shares source and key and keeps the store sound |
| FileStoreInvariant.SweptKeepsInv | internal/storage/FileServing.go:831-870 | a clean-up at any time keeps the store sound |
| FileStoreRuns.ContentChangesOnlyBySwap | internal/storage/FileServing.go:374-401 | no step changes what an id stands for, except a replacement of that id, which gives it the other file's content |
| FileStoreRuns.NewContentIsUploaded | internal/storage/FileServing.go:60-219 | a new id appears only by an upload or a duplication and has the uploaded or duplicated content |
| FileStoreRuns.UploadStepsTakeEffect | internal/storage/FileServing.go:60-219 | in any sound store an upload step that is allowed adds the file as described |
| FileStoreRuns.ReplaceStepsTakeEffect | internal/storage/FileServing.go:374-401 | a replacement that is possible swaps the content in, and deletes the other file if asked to |
| FileStoreRuns.DuplicateStepsTakeEffect | internal/storage/FileServing.go:422-460 | a duplicate of a file that is found is there as requested |
| FileStoreRuns.DeletionStepsTakeEffect | internal/storage/FileServing.go:1005-1060 | deleted files are not found any more |
| FileStoreRuns.TimerStepsTakeEffect | internal/storage/FileServing.go:1048-1060 | a timer that finds its schedule is a deletion |
| FileStoreRuns.ScheduleStepsTakeEffect | internal/storage/FileServing.go:1037-1046 | nor are those scheduled for deletion |
| FileStoreRuns.EndingStepsTakeEffect | internal/storage/FileServing.go:1065-1077 | a cancelled deletion and the end of a download remove their mark and nothing else |
| FileServing.Storage.GetEncInfoFromExistingFile | internal/storage/FileServing.go:337-349 | finds the encryption info of some entry exactly if one with the hash exists |
| FileServing.Storage.NewFile | internal/storage/FileServing.go:60-123 | the in-place upload has the effect of the specified one, deduplication included |
| FileServing.Storage.NewFileFromChunk | internal/storage/FileServing.go:161-219 | the same for chunk files, with the errors for a wrong size |
| FileStoreEffects.AnUploadIsFound | internal/storage/FileServing.go:299-316 | an upload in one piece is refused exactly if it is too large; otherwise GetFile finds it exactly while neither its time nor its downloads, unless unlimited, have run out, and owner, name, type, size, password, request and date are the ones given |
| FileStoreEffects.AChunkUploadIsFound | internal/storage/FileServing.go:161-219 | the same for an upload in chunks, which is also refused if it is not as long as announced, and is marked as end-to-end encrypted exactly if it was announced so |
| FileStoreEffects.EqualContentsShareASource | internal/storage/FileServing.go:60-123 | in a sound store files that the browser did not encrypt share a source exactly if their contents are equal |
| FileStoreEffects.SourcesAreEncryptedByLevel | internal/storage/FileServing.go:516-531 | sources are stored in the clear exactly on the levels without encryption and with end-to-end encryption |
| FileServing.Storage.ReplaceFile | internal/storage/FileServing.go:374-401 | the in-place replacement has the specified effect, or one of its errors and no effect |
| FileStoreEffects.AReplacementSwapsTheContent | internal/storage/FileServing.go:374-401 | a replacement needs two files that GetFile finds and the browser did not encrypt; it gives the link name, type, size and content of the other file and leaves owner, limits, password, counts and everything else as they are |
| FileStoreEffects.AReplacementMayDeleteTheOther | internal/storage/FileServing.go:396-400 | if asked to, it then deletes the other file |
| FileStoreEffects.AReplacementLeavesNoSource | internal/storage/FileServing.go:403-415 | the old source is kept exactly if some entry still names it |
| FileServing.Storage.DeleteUnreferencedSource | internal/storage/FileServing.go:406-415 | deletes the source exactly if no entry names it, reading the table in any order |
| FileServing.Storage.DuplicateFile | internal/storage/FileServing.go:422-460 | stores a copy with the requested changes under the new id |
| FileStoreEffects.ADuplicateIsFound | internal/storage/FileServing.go:422-460 | a duplicate has the content of the original, no downloads and the given owner; the bits of the request for expiry, downloads, password and name say which of these are new, and when GetFile finds the copy follows from them |
| FileServing.Storage.DeleteFileSchedule | internal/storage/FileServing.go:1037-1062 | sets or clears the pending deletion of the entry and nothing else |
| FileStoreEffects.ADeletedFileIsGone | internal/storage/FileServing.go:1005-1024 | a deleted file is not found any more, and the next clean-up removes it even while it is being downloaded |
| FileStoreEffects.AScheduledFileIsHidden | internal/storage/FileServing.go:1037-1077 | a file scheduled for deletion is not found any more, and as it was if the deletion is cancelled |
| FileStoreEffects.TheTimerActsOnItsSchedule | internal/storage/FileServing.go:1048-1060 | the timer of a schedule deletes the file, unless the deletion was cancelled or scheduled anew in between |
| FileServing.Storage.CleanUp | internal/storage/FileServing.go:831-870 | the self-calling clean-up ends, for any order of entries and any clock between its passes, and amounts to one sweep at the time of its last pass |
| FileServing.Storage.CleanUpPass | internal/storage/FileServing.go:831-854 | one pass is a sweep at its time, and it asks for another pass only if the table shrank |
| FileStoreSweep.SweptTwice | internal/storage/FileServing.go:855-857 | an earlier sweep followed by a later one is the later one alone |
| FileStoreSweep.CleanedKeepsDownloads | internal/webserver/downloadstatus/DownloadStatus.go:30-63 | dropping expired download statuses never changes which files count as being downloaded |
| FileStoreRuns.CleanUpRemovesExactlyTheDue | internal/storage/FileServing.go:831-854 | a clean-up removes an entry exactly if its scheduled deletion is due, or it is expired and no unexpired status holds it |
| FileStoreRuns.CleanUpKeepsExactlyTheUsedSources | internal/storage/FileServing.go:831-870 | a source outlives a clean-up exactly if a remaining entry names it |
| FileStoreRuns.DownloadKeepsFile | internal/storage/FileServing.go:981-986 | from the start of a download to its end or deadline no run removes entry or source of a file that is merely expired, and unless the file is replaced its source is the one being sent, byte for byte |
| FileStoreRuns.StartProtects | internal/webserver/downloadstatus/DownloadStatus.go:14-47 | starting a download gives that protection for 24 hours |
| FileStoreEffects.AnExpiredFileGoesWithItsLastDownload | internal/storage/FileServing.go:831-854 | the first clean-up after the last download of an expired file has ended removes it |
| FileStoreEffects.ADownloadLastsADay | internal/webserver/downloadstatus/DownloadStatus.go:14-47 | a started download holds its file, and no other, for 24 hours, and its end leaves no trace |
| FileStoreEffects.EndingAllDownloads | internal/webserver/downloadstatus/DownloadStatus.go:65-74 | ending the downloads of a file ends those of no other |
| FileStoreEffects.CleaningDropsTheExpired | internal/webserver/downloadstatus/DownloadStatus.go:29-37 | what is left after a cleaning is exactly what has not expired |
| DownloadStatuses.StatusTable.SetDownload | internal/webserver/downloadstatus/DownloadStatus.go:14-20 | adds a status for the file that expires after 24 hours |
| DownloadStatuses.StatusTable.Clean | internal/webserver/downloadstatus/DownloadStatus.go:30-37 | drops exactly the expired statuses, in any order |
| DownloadStatuses.StatusTable.IsDownloading | internal/webserver/downloadstatus/DownloadStatus.go:50-63 | true exactly if an unexpired status names the file |
| DownloadStatuses.StatusTable.SetAllComplete | internal/webserver/downloadstatus/DownloadStatus.go:66-74 | drops exactly the statuses of the file |
| Encryption.HashFileInjective | internal/storage/FileServing.go:462-472 | files with the same digest have the same content, with or without the salt |
| Encryption.OnlyTheRightKeyOpens | internal/storage/FileServing.go:675-699 | what was encrypted opens with its own key, unwrapped with the master key and nonce it was wrapped with, and with no other |
| Encryption.HashFileUsesSalt | internal/storage/FileServing.go:462-472 | different salts give different digests exactly where the salt is used |
| Database.CountingCommutes | internal/configuration/database/provider/sqlite/metadata.go:154-163 | counting is one statement, so two downloads of one file or of two may be counted in either order |
| DownloadCounting.NoLostUpdate | internal/webserver/api/Api.go:82-131 | in every interleaving of downloads, edits and owner changes the stored count grows by exactly the number of counted serves, although the editors write back whole records |
| DownloadCounting.AtMostTheLimitIsServed | internal/storage/FileServing.go:639-656 | of a limited file with R downloads left at most R are served in any interleaving of public downloads, the remaining count never drops below zero, and remaining plus count is constant |
| DownloadOutcomes.ADownloadIsDecidedAtItsRecheck | internal/storage/FileServing.go:639-656 | in every run, whatever happens before, in between and afterwards, a download that fetched a record and reaches its recheck is let through exactly if the fetched record is not expired at the recheck, with the number of downloads stored then |
| DownloadOutcomes.NothingElseDecides | internal/storage/FileServing.go:639-656 | only GetFile and the recheck refuse a download, and only the recheck, if there is one, lets it through |
| DownloadOutcomes.FetchIsExact | internal/storage/FileServing.go:595-617 | the record is fetched exactly if it is there, not marked as deleted, not expired and has its source |
| DownloadOutcomes.TheFirstDownloadsAreServed | internal/storage/FileServing.go:639-656 | of n public downloads, one after the other, of a file with R downloads left exactly the first R are served, and both stored numbers show it |
| DownloadOutcomes.EveryChangeIsAccountedFor | internal/webserver/api/Api.go:82-131 | in every run whatever changes a stored record is a download that counts itself, or an edit by its owner or somebody with the permission, which leaves everything as it is at that moment but for what it asks |
| DownloadOutcomes.OnlyPermittedEditsAreSaved | internal/webserver/api/Api.go:90-98 | an editor goes on exactly if the record is there and may be changed by that editor |
| DownloadOutcomes.PermittedEditsAreSaved | internal/webserver/api/Api.go:99-131 | and then limits, expiry, password or owner are stored as asked |
| DownloadCounting.RemainingStaysAboveTheFloor | internal/storage/FileServing.go:639-656 | even with edits that raise, lower, lift or set limits in between, negative ones included, the stored remaining count of a file never drops below zero, its initial value and the lowest limit set, whichever is least |
| DownloadCounting.SectionIsExclusive | internal/webserver/api/mutex/apimutex/ApiMutex.go:32-38 | two requests inside the locked section at once work on different files |
| DownloadCounting.NextThreadFacts | internal/webserver/api/Api.go:739-765 | one statement of a request changes only the row of its file, and the count only by counting |
| ApiMutex.GetStripe | internal/webserver/api/mutex/apimutex/ApiMutex.go:12-24 | every object maps to one of the 256 locks |
| ApiMutex.HashesOfLetters | internal/webserver/api/mutex/apimutex/ApiMutex.go:20-22 | the hash has the check values of 32-bit FNV-1a |
| ApiMutex.StripeOfLetters | internal/webserver/api/mutex/apimutex/ApiMutex.go:20-23 | it covers the type of the object and then its key |
| Permissions.TokenChecksAreExact | internal/webserver/authentication/tokengeneration/TokenGeneration.go:13-43 | on any mask, the checks of token generation pass exactly the masks the user's permissions cover |
| Permissions.GrantToKeyKeepsCovered | internal/webserver/api/Api.go:187-217 | granting one permission after the handler's check keeps the key covered by its owner |
| Permissions.RemoveFromUserKeepsCovered | internal/webserver/api/Api.go:920-943 | a key is covered again after its owner loses a permission and the key its counterpart |
| Permissions.OwnerCheckIsEnoughExactlyFor | internal/webserver/api/Api.go:187-217 | the switch on permissions makes a grant safe for every owner and key exactly if the mask holds no sensitive permission or is a single sensitive one |
| Permissions.ApiPermissionFromString | internal/models/ApiKey.go:54-79 | the request parser yields exactly single permissions |
| Permissions.UserPermissionFromString | internal/webserver/api/routing.go:556-596 | the same for user permissions |
| AccountsRights.NamesStandForBits | internal/models/ApiKey.go:8-79 | every name of a permission stands for its bit, for keys and for users |
| AccountsRights.OtherNamesAreRefused | internal/models/ApiKey.go:54-79 | and no other name for anything |
| AccountsRuns.SensitiveKeysHavePermittedOwners | internal/webserver/api/Api.go:134-222 | after any run of key, token and user handlers every key that may replace files, manage users, logs or file requests belongs to a user with the matching permission |
| AccountsRuns.NothingIsOrphaned | internal/webserver/api/Api.go:978-1029 | after any run every file, file request and key belongs to an existing user |
| AccountsRuns.SuperAdminStays | internal/webserver/api/Api.go:836-918 | no run demotes or deletes the super admin or makes a second one |
| AccountsRuns.GrantsComeFromTheActor | internal/webserver/api/Api.go:836-918 | apart from promotions to administrator no step gives a user a permission that neither the user nor the acting user had |
| AccountsRuns.PermissionsAreNotInvented | internal/webserver/api/Api.go:836-918 | so a permission that nobody has is never handed out, in any run without a promotion |
| AccountsRights.AdministratorsComeFromAdministrators | internal/webserver/api/Api.go:897-900 | somebody becomes an administrator only by a change of rank by another administrator |
| AccountsRights.NobodyPromotesThemselves | internal/webserver/api/Api.go:876-918 | so in a run in which no administrator acts the set of administrators does not grow |
| AccountsRights.UserNamesAreUnique | internal/webserver/authentication/users/Users.go:20-41 | in every run different users have different names |
| AccountsRights.NewKeyStepsTakeEffect | internal/webserver/api/Api.go:134-152 | in any run keys and tokens that may be made are there afterwards |
| AccountsRights.KeyStepsTakeEffect | internal/webserver/api/Api.go:154-222 | changes and deletions of keys that are allowed take effect |
| AccountsRights.UserStepsTakeEffect | internal/webserver/api/Api.go:836-1029 | so do changes of permissions and ranks and deletions of users |
| AccountsRights.OtherStepsTakeEffect | internal/webserver/api/Api.go:739-765 | and new users and files, changes of owner, and new and deleted file requests |
| AccountsRuns.DeleteUserMovesFiles | internal/webserver/api/Api.go:1007-1027 | without deleteFiles the deleted user's files and requests all survive and belong to the acting user, others are untouched |
| AccountsRuns.DeleteUserDropsFiles | internal/webserver/api/Api.go:1007-1027 | with deleteFiles exactly the deleted user's files and requests go, and of the files that stay exactly uploads to these requests are marked as deleted |
| AccountsRuns.MovedRequestsLoseTheirKey | internal/webserver/api/Api.go:991-1014 | of the requests that could be used before, exactly those stay usable whose key belongs to another user |
| AccountsRuns.MovedRequestsInAnyRun | internal/webserver/api/Api.go:991-1014 | after any run these are exactly the requests of other users |
| AccountsRuns.AMovedRequestCannotBeUsed | internal/webserver/api/Api.go:991-1014 | a run in which a request is handed over and cannot be used any more |
| AccountsRuns.ChangeRankKeepsInv | internal/webserver/api/Api.go:876-918 | changing a rank keeps owners and key permissions in step |
| AccountsRuns.ModifyUserKeepsInv | internal/webserver/api/Api.go:836-874 | changing a user's permissions keeps them in step |
| AccountsRuns.ModifyKeyKeepsInv | internal/webserver/api/Api.go:171-222 | changing a key's permissions keeps them in step |
| AccountsApi.Api.ModifyApiKey | internal/webserver/api/Api.go:171-222 | the in-place handler has the specified effect or error |
| AccountsRights.WhoMayChangeKeys | internal/webserver/api/Api.go:171-210 | a key is changed exactly by its owner or a manager of keys, while it can be used, and for an owner who may use the permission; any refusal changes nothing |
| AccountsRights.WhatChangesOfKeysMean | internal/webserver/api/Api.go:211-222 | a change grants or takes away exactly the permission, and nothing else of any key changes |
| AccountsRights.DeletionOfKeyIsExact | internal/webserver/api/Api.go:154-169 | a key is deleted by the same people and goes alone |
| AccountsRights.NewKeyIsExact | internal/webserver/api/Api.go:244-255 | a new key belongs to the acting user, does not end, and may view, upload, delete and edit, or nothing; with the menu disabled only administrators make one |
| AccountsApi.Api.GenerateToken | internal/webserver/authentication/tokengeneration/TokenGeneration.go:18-43 | the same for token generation |
| AccountsRights.TokenIsExact | internal/webserver/authentication/tokengeneration/TokenGeneration.go:18-43 | a token has exactly the requested permissions, if the acting user covers them, and can be used for five minutes |
| AccountsApi.Api.UpdateApiKeyPermsOnUserPermChange | internal/webserver/api/Api.go:920-943 | the loop strips the affected permission from every key of the user and from no other key |
| AccountsApi.Api.CreateUser | internal/webserver/authentication/users/Users.go:20-41 | a new user has no permission but, if configured, guest uploads; short and taken names are refused |
| AccountsRights.NewUserIsExact | internal/webserver/authentication/users/Users.go:20-41 | a user is created exactly for a name of two bytes that nobody has, as a user without permissions, save that for file requests if it is the default |
| AccountsApi.Api.ModifyUser | internal/webserver/api/Api.go:836-874 | the in-place handler has the specified effect or error |
| AccountsRights.WhoMayChangeUsers | internal/webserver/api/Api.go:836-860 | permissions of others than the super admin are granted by those who have them and taken away by anybody who gets that far; any refusal changes nothing |
| AccountsRights.WhatChangesOfUsersMean | internal/webserver/api/Api.go:861-874 | the user gains or loses exactly the permission, and the user's keys lose exactly the matching one |
| AccountsApi.Api.ChangeUserRank | internal/webserver/api/Api.go:876-918 | the same for changes of rank |
| AccountsRights.WhoMayChangeRanks | internal/webserver/api/Api.go:876-912 | a rank is changed exactly for others than the super admin, to user by everybody and to administrator by administrators |
| AccountsRights.WhatRanksMean | internal/webserver/api/Api.go:902-918 | the level is the new one; an administrator has every permission and keeps the keys as they are, a user has none and the user's keys lose the four sensitive ones |
| AccountsApi.Api.DeleteUser | internal/webserver/api/Api.go:978-1029 | its three loops, in any order of rows, make the specified change of all four tables |
| AccountsRights.DeletionIsExact | internal/webserver/api/Api.go:978-1004 | a user is deleted exactly if neither super admin nor the acting user; with the user go exactly the user's keys, and the keys of the user's requests if the files are deleted |
| AccountsApi.DeletionInThreeLoops | internal/webserver/api/Api.go:978-1029 | the three loops one after the other amount to that change |
| AccountsApi.Api.RemoveRequest | internal/storage/filerequest/Filerequest.go:50-67 | marks exactly the files of the request and removes it with its key |
| AccountsRights.DeletionOfRequestIsExact | internal/webserver/api/Api.go:1134-1152 | a file request is deleted by its owner or by who may delete others' uploads; it goes with its key, and exactly its files are marked as deleted |
| AccountsRights.NewRequestIsExact | internal/webserver/api/Api.go:1176-1215 | a new file request belongs to the acting user and has a key of its own, without permissions, that can be used at once |
| AccountsApi.Api.ChangeFileOwner | internal/webserver/api/Api.go:739-765 | the in-place handler has the specified effect or error |
| AccountsRights.ChangeOfOwnerIsExact | internal/webserver/api/Api.go:739-765 | a file gets a new owner exactly if it can be downloaded, the acting user may edit others' files and the new owner exists; nothing else changes |
| AccountsRights.NewFilesBelongToTheActor | internal/storage/FileServing.go:443-446 | a new file belongs to the acting user |
| E2eMutex.HeldExactlyWhenRecordedOrUnrecorded | internal/webserver/api/mutex/e2emutex/E2eMutex.go:49-75 | in no interleaving of lock, unlock and timers is the inner mutex released while free; outside unlock's critical section it is held exactly if recorded as locked or taken by exactly one locker that has not recorded it yet |
| E2eMutex.StateSectionIsExclusive | internal/webserver/api/mutex/e2emutex/E2eMutex.go:60-75 | two callers are never inside the state section together |
| E2eMutex.OnlyAFreeReleaseCrashes | internal/webserver/api/mutex/e2emutex/E2eMutex.go:60-75 | the release of a mutex that nobody holds, and nothing else, is the fatal error that the claims rule out |
| E2eMutex.ATimerFiresOnce | internal/webserver/api/mutex/e2emutex/E2eMutex.go:49-59 | a timer starts one unlock call and never fires again, whatever happens afterwards |
| E2eMutex.UnlockUndoesLock | internal/webserver/api/mutex/e2emutex/E2eMutex.go:49-75 | an undisturbed lock and unlock restore the mutex and disarm the timer |
| E2eMutex.HolderIsSafeExactlyWithoutPendingUnlock | internal/webserver/api/mutex/e2emutex/E2eMutex.go:49-75 | in every reachable state the holder of a recorded lock keeps it in all further runs without a new unlock and without its own timer, exactly if no earlier unlock or fired timer is still pending |
| E2eMutex.WaitingTimerUnlocksTheNextHolder | internal/webserver/api/mutex/e2emutex/E2eMutex.go:49-58 | a timer that had to wait releases whoever holds the lock when it runs |
| E2eMutex.LateTimerReleasesTheNextHolder | internal/webserver/api/mutex/e2emutex/E2eMutex.go:49-75 | a complete run in which that happens |
| Logging.ReadLinesReverse | internal/logging/Logging.go:145-209 | for every content and block alignment the handler gets the lines of the file in reverse, without an empty first one, up to the first on which it stops, and its error is passed on |
| Logging.EveryLineIsDelivered | internal/logging/Logging.go:145-209 | a handler that never stops gets every line |
| LogLines.TheFirstStopDecides | internal/logging/Logging.go:183-197 | the first line on which the handler does not go on is the last it gets, and its error, if any, is passed on |
| LogLines.AnEmptyFirstLineIsDropped | internal/logging/Logging.go:200-209 | a newline at the start of the file is no line of its own, and an empty file has no line |
| LogLines.JoinUndoesSplit | internal/logging/Logging.go:180-197 | the lines joined with newlines are the file |
| LogLines.SplitUndoesJoin | internal/logging/Logging.go:180-197 | and there is no other way to cut it into lines without newlines |
| Logging.LogFile.GetSince | internal/logging/Logging.go:110-143 | returns, in file order, the well-formed lines behind the last well-formed line older than the time, or nothing if the file was last changed before it |
| LogLines.RecentLinesAreAllSince | internal/logging/Logging.go:118-134 | these are all lines stamped since the time exactly if none of those stands before an older line |
| LogLines.RecentLinesOfASortedLog | internal/logging/Logging.go:118-134 | on a sorted log they are exactly the lines stamped since the time |
| Logging.Scan | internal/logging/Logging.go:357-360 | one step of the line scanner yields the next scanned line, or ends the scan |
| Logging.ACarriageReturnIsDropped | internal/logging/Logging.go:357-360 | a carriage return in front of a newline is not part of the scanned line |
| Logging.LogFile.DeleteLogs | internal/logging/Logging.go:348-392 | the new file is the entry about the deletion and behind it the scanned lines newer than the cutoff |
| LoggingRuns.ClearingLeavesTheEntry | internal/logging/Logging.go:348-352 | deleting everything leaves exactly the lines of the entry about it |
| LoggingRuns.DeletionLeavesNewerLines | internal/logging/Logging.go:353-373 | with a cutoff the file begins with the entry, and behind it stand exactly the scanned lines of the old file that are dated after the cutoff |
| LoggingRuns.DeletedEntriesStayAway | internal/logging/Logging.go:348-402 | after a deletion no run brings back a line older than its cutoff, unless it deletes up to an earlier one |
| LoggingRuns.WritingAppends | internal/logging/Logging.go:394-402 | writing an entry adds its lines behind those of the file |
| LoggingRuns.EveryLogIsSorted | internal/logging/Logging.go:348-402 | any run of writes and deletions with cutoffs not in the future keeps the log sorted and nothing in it later than its last change |
| LoggingRuns.RecentEntriesInEveryRun | internal/logging/Logging.go:110-209 | so in every run GetSince returns exactly the lines stamped since the time |
| LoggingRuns.UnchangedFilesHaveNoRecentLines | internal/logging/Logging.go:155-161 | if no line is stamped later than the last change of the file, the check of the modification time hides nothing, whether the log is sorted or not |
| LoggingRuns.WhenTheTimeCheckHidesNothing | internal/logging/Logging.go:155-161 | for any file it hides nothing exactly if the file was changed at the time or later, or nothing is stamped behind the last older line |
| LoggingRuns.NewerEntriesSurvive | internal/logging/Logging.go:355-369 | for any file, all newer entries survive a deletion exactly if none stands at or behind a line too long for the scanner |
| LoggingRuns.ALongLineHidesANewerEntry | internal/logging/Logging.go:355-369 | behind a line of 65536 bytes a newer entry is lost |
| Base64.DecodeEncode | internal/webserver/web/static/js/all_public.js:149 | for every sequence of 16-bit code units, decoding the encoding gives it back with LF for CR LF |
| Base64.DecodeEncodeIsIdentity | internal/webserver/web/static/js/all_public.js:149 | it comes back unchanged exactly if it holds no CR LF |
| Base64.Encode | internal/webserver/web/static/js/all_public.js:149 | the encoding loop computes the encoding |
| Base64.Decode | internal/webserver/web/static/js/all_public.js:149 | the decoding loop computes the decoding, on any text |
| Base64Format.AlphabetIsKeyStr | internal/webserver/web/static/js/all_public.js:149 | the 65 positions are those of the string of the source, character by character |
| Base64Format.OnlyKeyStrIsRead | internal/webserver/web/static/js/all_public.js:149 | exactly its characters are read; all others are dropped |
| Base64Format.EveryGroupIsWritten | internal/webserver/web/static/js/all_public.js:149 | every group of three bytes, the shorter last one included, is written as the characters of the four six-bit digits of its 24-bit number, with equals signs for digits without a bit |
| Base64Format.AGroupIsRead | internal/webserver/web/static/js/all_public.js:149 | four characters are read as the bytes of their 24-bit number, as many as the padding says |
| Base64Format.GroupsAreReadInTurn | internal/webserver/web/static/js/all_public.js:149 | a text is read group by group, by the positions of its characters |
| Base64Format.MissingCharactersAreReadAsA | internal/webserver/web/static/js/all_public.js:149 | a character that is missing in the last group is read like an A |
| Base64Format.UnitsAreInUtf8 | internal/webserver/web/static/js/all_public.js:149 | code units have the bit patterns of UTF-8 with one, two and three bytes |
| Base64Format.Utf8IsRead | internal/webserver/web/static/js/all_public.js:149 | bytes with these patterns are read as the code unit, whatever follows them |
| Base64Format.ManIsTWFu | internal/webserver/web/static/js/all_public.js:149 | a known text and its encoding |
| Base64.SextetsAreTheGroup | internal/webserver/web/static/js/all_public.js:149 | the four characters of a group are the six-bit digits of its 24 bits, as in section 4 of RFC 4648 |
| Base64.ShortGroups | internal/webserver/web/static/js/all_public.js:149 | a last group of one or two bytes is filled up with zero bits and ends in padding |
| Base64.Base64IsInAlphabet | internal/webserver/web/static/js/all_public.js:149 | the encoding has four characters of the alphabet for every three bytes begun |
| Base64.UnitsOfUndoesUtf8Of | internal/webserver/web/static/js/all_public.js:149 | decoding the one- to three-byte forms gives every code unit back |
| Chunking.PiecesGiveTheFile | internal/storage/chunking/Chunking.go:207-260 | pieces of a file sent in any order, with repeats and any other uploads in between, give a chunk file equal to the original, of the declared and allowed size |
| Chunking.AcceptedPiecesAreExact | internal/storage/chunking/Chunking.go:207-245 | a piece is accepted exactly if its file is there or its total is within both limits and the disk has room, and the piece ends within the total; any other refusal changes nothing, and other files are left alone |
| Chunking.AcceptedPiecesAreStored | internal/storage/chunking/Chunking.go:242-260 | its bytes are at their place, and everywhere else is what was there, or zeros up to the total |
| Chunking.TheGuardIsExact | internal/webserver/fileupload/FileUpload.go:83-99 | the check in front refuses exactly totals and offsets above the maximum |
| Chunking.AdditionWrapsAround | internal/storage/chunking/Chunking.go:243 | the sum in the bounds check is that of 64-bit integers |
| Chunking.WriteStaysInTotal | internal/storage/chunking/Chunking.go:242-260 | an accepted piece stays within the declared total or the former length exactly if its end does not leave the 64-bit range |
| Chunking.AcceptedPiecesStayInTotal | internal/webserver/fileupload/FileUpload.go:83-99 | with the check on the offset in front every accepted piece ends within its declared total |
| Chunking.AWrappingOffsetIsAccepted | internal/storage/chunking/Chunking.go:242-245 | without it a byte at the last offset passes for a total of 0 |
| Chunking.ChunkStore.NewChunk | internal/storage/chunking/Chunking.go:207-213 | the in-place method has the specified effect or error, and a refused piece may leave the allocated file behind |
| Chunking.ChunkStore.ProcessNewChunk | internal/webserver/fileupload/FileUpload.go:83-99 | the same with the checks of the declared sizes in front |
| PublicUpload.StartUpload | internal/webserver/web/static/js/public_upload.js:333-404 | the loop posts contiguous pieces that concatenate to the file, as many as the file has chunks begun, all but the last of the chunk size, and one empty piece for an empty file |
| PublicUpload.SentPostsGiveTheFile | internal/webserver/web/static/js/public_upload.js:333-404 | contiguous posts that all arrive, in any order and with repeats, give the file on the server |
| UploadPath.UploadedFileIsServed | internal/storage/FileServing.go:131-219 | pieces that arrived in any order and with repeats become a stored file that is served as the original, whether its content was stored before or not, encrypted or not |
| UploadPath.EndToEndUploadIsServed | internal/storage/FileServing.go:131-219 | an end-to-end upload to a server that does not encrypt is served as the ciphertext, which decrypts to the file |
| End2End.SetE2eUpload | internal/webserver/web/static/js/end2end_admin.js:127-163 | the recursion ends after as many posts as announced, which together are the ciphertext of the file and fill exactly the announced size |
| End2End.UploadChunk | internal/webserver/web/static/js/end2end_admin.js:212-255 | from any slice on, the slices read make up the rest of the file and each post starts where the one before ended |
| End2End.UploadData.UploadChunk | cmd/wasme2e/Main.go:84-133 | returns the ciphertext that has come out since the last call |
| End2End.SomeSliceIsTheLast | internal/webserver/web/static/js/end2end_admin.js:212-221 | the recursion has a last slice exactly if the encrypted size is not 0 |
| End2End.SlicesFitTheChunkSize | internal/webserver/web/static/js/end2end_admin.js:212-228 | no slice that is read is larger than the chunk size, if encryption does not shorten the file |
| End2End.UploadedFileDecrypts | internal/webserver/web/static/js/end2end_admin.js:212-255 | what the server has in the end decrypts to the uploaded file |
| ChunkReservations.ReservedChunks.SetUploading | internal/storage/chunking/chunkreservation/ChunkReservation.go:56-73 | prolongs a reservation exactly if it is there and not expired |
| ChunkReservations.ReservedChunks.CleanUp | internal/storage/chunking/chunkreservation/ChunkReservation.go:75-93 | drops exactly the expired reservations |
| ChunkReservations.CountAfterNew | internal/storage/chunking/chunkreservation/ChunkReservation.go:31-46 | a new reservation counts one for its request only |
| ChunkReservations.ANewReservationLasts | internal/storage/chunking/chunkreservation/ChunkReservation.go:31-46 | a new reservation may be used for four minutes, and others are not affected |
| ChunkReservations.APieceProlongsItsReservation | internal/storage/chunking/chunkreservation/ChunkReservation.go:56-73 | a piece in time prolongs its reservation to 23 hours, one that comes too late changes nothing |
| ChunkReservations.AReservationIsGivenBack | internal/storage/chunking/chunkreservation/ChunkReservation.go:49-54 | giving back a reservation ends it and no other |
| ChunkReservations.LiveReservationsSurvive | internal/storage/chunking/chunkreservation/ChunkReservation.go:75-93 | a clean-up drops exactly the reservations that may not be used any more |
| FileRequests.FilesRemaining | internal/models/FileRequest.go:97-103 | while files remain, uploads, reservations and remaining files add up to the limit |
| FileRequests.UploadApi.Populate | internal/models/FileRequest.go:32-51 | one pass over the files counts exactly the uploads that are not pending for deletion |
| FileRequests.UploadApi.ChunkReserve | internal/webserver/api/Api.go:384-409 | the in-place handler has the specified effect or error |
| FileRequests.UploadApi.ChunkUnreserve | internal/webserver/api/Api.go:411-424 | the same for giving a reservation back |
| FileRequests.UploadApi.ChunkUploadRequestAdd | internal/webserver/api/Api.go:426-447 | the same for a piece of a file |
| FileRequests.UploadApi.ChunkUploadRequestComplete | internal/webserver/api/Api.go:504-538 | the same for a finished upload |
| FileRequestRights.ChecksAreExact | internal/webserver/api/Api.go:449-464 | the checks pass exactly for a request that is there, with its own key, not expired and not full, and name the first that fails |
| FileRequestRights.ClosedRequestsAreLeftAlone | internal/webserver/api/Api.go:384-538 | every handler refuses what they refuse and changes nothing |
| FileRequestRights.ReservationsAreExact | internal/webserver/api/Api.go:384-409 | a place is given exactly while uploads and reservations leave one, or, without a limit, while the rate allows it |
| FileRequestRights.PiecesAreExact | internal/webserver/api/Api.go:426-447 | a piece is accepted exactly if its size is allowed, its reservation lasts and it can be stored |
| FileRequestRights.CompletionsAreExact | internal/webserver/api/Api.go:504-538 | a finished file becomes an upload of the request and gives its place back |
| FileRequestRights.GivingBackFreesAPlace | internal/webserver/api/Api.go:411-424 | giving back a reservation frees its place |
| FileRequestRights.AnUploadGoesThrough | internal/webserver/api/Api.go:384-538 | an upload that starts while there is room and sends its first piece in time goes through and is one more upload |
| FileRequestRuns.UploadsNeverExceedTheLimit | internal/webserver/api/Api.go:449-464 | in any run of the handlers a request that accepts n files never has more than n uploads |
| FileRequestRuns.UploadsAndReservationsStayWithin | internal/webserver/api/Api.go:384-538 | uploads plus reservations stay within the limit in every state of a run exactly if no upload without a reservation takes the place of a reserved one |
| FileRequestRuns.ReservedUploadsStayWithin | internal/webserver/api/Api.go:384-538 | in particular if every finished upload still holds its reservation |
| FileRequestRuns.AnUnreservedUploadIsAccepted | internal/webserver/api/Api.go:504-538 | a state in which the other case happens |
| FileRequestRuns.StepsTakeEffect | internal/webserver/api/Api.go:384-538 | on a request that is open to the caller every step of a run has its effect on uploads and reservations |
| UniqueNames.FirstFree | internal/storage/FileServing.go:711-719 | the search ends, by pigeonhole, after at most one probe more than there are used names, at the first free number |
| UniqueNames.NumberedIsInjective | internal/storage/FileServing.go:713 | different numbers give different names |
| UniqueNames.NameMap.MakeFilenameUnique | internal/storage/FileServing.go:703-720 | keeps an unused name, otherwise puts the first free number from 2 on in front of the extension; the result was not in use |
| UniqueNames.ServeFilesAsZip | internal/storage/FileServing.go:735-737 | repeated calls on one map give pairwise distinct entries |
| UniqueNames.TwoEqualNames | internal/storage/FileServing.go:703-720 | the second of two equal names gets " (2)" in front of its extension |
| UniqueNames.DeduplicateNames | internal/webserver/web/static/js/admin_ui_zip.js:214-238 | renames the items in place to pairwise distinct paths, with the first free number where a path was taken |
| UniqueNames.UniquePathsKeepDirectories | internal/webserver/web/static/js/admin_ui_zip.js:222-232 | every item stays in its directory |
| UniqueNames.NumberedPathIs | internal/webserver/web/static/js/admin_ui_zip.js:222-232 | the number stands behind an underscore in front of the last dot of the name, unless the name begins with that dot or has none |
| UniqueNames.TwoEqualPaths | internal/webserver/web/static/js/admin_ui_zip.js:214-238 | the second of two equal paths gets the number 1 there |
| Filenames.ZipTrimGoSpace | internal/webserver/web/static/js/admin_ui_zip.js:48-58 | the trimming loops remove exactly the spaces at both ends |
| Filenames.ZipLimitUtf8Bytes | internal/webserver/web/static/js/admin_ui_zip.js:65-78 | the limiting loop computes the limited prefix |
| Filenames.LimitIsLongestPrefix | internal/webserver/web/static/js/admin_ui_zip.js:64-78 | which is the longest that fits without splitting a character |
| Filenames.ZipSanitise | internal/webserver/web/static/js/admin_ui_zip.js:82-99 | the loop computes the sanitised name |
| Filenames.SanitisedIsClean | internal/helper/StringGeneration.go:78-98 | a sanitised name has no control or forbidden character and no space around it |
| Filenames.EachCharacterIsCleaned | internal/helper/StringGeneration.go:87-95 | control characters go, the nine forbidden characters become underscores, and every other character stays |
| Filenames.SpacesAreTrimmed | internal/webserver/web/static/js/admin_ui_zip.js:46-58 | exactly the listed spaces are trimmed |
| Filenames.LongNamesAreCut | internal/helper/StringGeneration.go:84-86 | a clean name that is too long keeps the characters that fit, with a replacement for each byte of a cut one, and three dots |
| Filenames.LongAsciiNamesAreCut | internal/helper/StringGeneration.go:84-86 | of a name in ASCII the first 400 characters stay, with three dots |
| Filenames.Utf8SizeIsTheLeast | internal/webserver/web/static/js/admin_ui_zip.js:60-78 | a character takes the least number of bytes with enough bits for it |
| Filenames.SanitiseLeavesAlone | internal/helper/StringGeneration.go:78-98 | a clean, trimmed name within the limit is left alone exactly if it does not begin with a dot |
| Filenames.BrowserAgreesWithServer | internal/webserver/web/static/js/admin_ui_zip.js:80-99 | browser and server agree on a name exactly if the cut leaves at most one byte of a character and no byte order mark stands in front of a name that is cut |
| Filenames.AMarkIsLost | internal/webserver/web/static/js/admin_ui_zip.js:84-87 | a name with a byte order mark on which they differ |
| Filenames.ACutCharacterDiffers | internal/webserver/web/static/js/admin_ui_zip.js:84-87 | names with two or three bytes of a character left on which they differ |
| ArchiveName.ResolvedNameIsWellFormed | internal/webserver/web/static/js/admin_ui_zip.js:114-132 | whatever is typed in, the resolved name ends in .zip, has at most 400 bytes and no control or forbidden character and no space around it; the server keeps such a name exactly if it does not begin with a dot |
| ArchiveName.ServerKeepsTheResolvedName | internal/webserver/web/static/js/admin_ui_zip.js:112-132 | which typed names the server keeps once resolved: exactly those without a dot behind their leading dots and the spaces after them, looked for in the cleaned name, or in what is left of the first 400 bytes of a name that is cut; where the generated name is used, exactly if that one does not begin with a dot |
| ArchiveName.ALeadingDotMayRemain | internal/webserver/web/static/js/admin_ui_zip.js:114-132 | every proper name behind a dot and a space and another dot resolves to one that the server changes |
| ArchiveName.ProperNamesAreKept | internal/webserver/web/static/js/admin_ui_zip.js:121-125 | a proper name is kept as typed, with the extension added if it is missing |
| ArchiveName.WhenTheGeneratedNameIsUsed | internal/webserver/web/static/js/admin_ui_zip.js:116-132 | the generated name is used exactly if the typed one is blank, or too long with nothing but dots and then spaces in its first 400 bytes, behind leading dots and spaces and in front of a .zip |
| ArchiveName.ShortNamesAreReplacedIfBlank | internal/webserver/web/static/js/admin_ui_zip.js:116-132 | a typed name that fits with its extension is given up exactly if it is blank |
| ArchiveName.FewDots | internal/webserver/web/static/js/admin_ui_zip.js:116-132 | one to 396 dots give zip.zip |
| ArchiveName.ManyDots | internal/webserver/web/static/js/admin_ui_zip.js:116-132 | from 399 dots on the generated name is used |
| ArchiveName.ManyDotsBehindAMark | internal/webserver/web/static/js/admin_ui_zip.js:116-132 | the same behind a byte order mark, which the cut drops |
| ArchiveName.GeneratedNameIsWellFormed | internal/webserver/web/static/js/admin_ui_zip.js:33-37 | the generated name is itself well-formed and kept by the server, for years before the common era as well |
| ArchiveName.GeneratedNameShowsTheDate | internal/webserver/web/static/js/admin_ui_zip.js:33-37 | year, month, day, hour and minute can be read back from their places in it, a negative year behind a minus sign |

## Left out

- FileStoreRuns.EveryRunIsSound: local storage only; with cloud storage a new upload keeps its fresh key although the
  object exists already. Hotlinks, passwords and I/O errors are left out as well.
- FileStoreRuns.DownloadKeepsFile: the clean-up that a deletion starts in the background is a later step of its own.
- FileServing.Storage.CleanUp: every pass reads the clock once; the source reads it again whenever it looks for a
  running download. The clean-up of invalid keys, requests, hotlinks and temporary files that follows is not modelled.
- FileServing.Storage.NewFile: file ids are numbers, with 0 for the empty id; `contents` is kept for the claims only.
- AccountsRuns.NothingIsOrphaned: `apiDeleteUser` with deleteFiles drops metadata without visiting sources, so deleting
  users is not a step of the file-store runs.
- AccountsRuns.SensitiveKeysHavePermittedOwners: each handler is one step; they check and act without a common lock.
  Public key ids are resolved before the model starts.
- DownloadCounting.AtMostTheLimitIsServed: downloads through the API that skip the check, and the unlocked writers of
  whole records (delete, schedule, restore, replace), are outside the interleaving.
- Logging.LogFile.GetSince: the log file exists; times of lines are an abstract function of the line.
- LoggingRuns.EveryLogIsSorted: entries reach the file in the order of their times, although some are written by a
  goroutine. A carriage return at the end of a line does not change whether and when the line is dated, which holds
  for every line with a category behind its date.
- Chunking.ChunkStore.NewChunk: free disk space is a parameter, and so is the result of the minimum chunk size, which
  depends on the length of the whole request.
- End2End.SetE2eUpload: sizes are exact integers; the source computes the number of slices in floating point.
- E2eMutex.HeldExactlyWhenRecordedOrUnrecorded: one user's mutex; the map of mutexes by user and `IsLocked` are left out.
- FileRequestRuns.UploadsNeverExceedTheLimit: limits stay as they are during a run, and restores and duplicates of
  uploads to a request are excluded; both can exceed the limit.
- FileRequests.UploadApi.Populate: the total size and the time of the last upload are only displayed and not modelled.
- Filenames.SanitisedIsClean: names are sequences of Unicode characters, so names with invalid UTF-8 are left out.
- AccountsRights.NewRequestIsExact: the check of its limits against those of the server, and later edits, are left out.
- Real cryptography, SHA-1, Argon2, date parsing, JSON, gob, SQL and Redis: abstract functions with the laws named above.
- HTTP, templates, server-sent events, TLS, OAuth, setup, command line and all DOM code: plumbing.
- Rate limits, traffic statistics, sessions and size formatting: easy or dependent on the runtime.
