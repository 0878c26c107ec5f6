/** What the operations of the file store mean for those who ask for a file afterwards. */
module FileStoreEffects {
  import opened Wrappers
  import opened Encryption
  import opened Models
  import opened Database
  import opened DownloadStatuses
  import opened FileStore
  import opened FileStoreInvariant

  /** What GetFile finds in the store. */
  function Found(s: Store, id: FileId, t: int): Option<File> {
    GetFile(s.files, s.sources, id, t)
  }

  /** The step changes nothing about other files. */
  ghost predicate OnlyAdds(s: Store, s': Store, id: FileId) {
    s'.files.Keys == s.files.Keys + {id} && forall other :: other in s.files ==> s'.files[other] == s.files[other]
  }

  ghost predicate OnlyChanges(s: Store, s': Store, id: FileId) {
    s'.files.Keys == s.files.Keys && forall other :: other in s.files && other != id ==> s'.files[other] == s.files[other]
  }

  // ---------------------------------------------------------------- uploads

  /** The limits of an upload allow a download at this time. */
  predicate IsOffered(params: UploadParameters, t: int) {
    && (params.unlimitedTime || t <= params.expiryTimestamp)
    && (params.unlimitedDownload || params.allowedDownloads >= 1)
  }

  /** The file is recorded as it was described. */
  predicate IsRecordOf(file: File, header: FileHeader, userId: UserId, params: UploadParameters, now: int) {
    && file.name == header.filename && file.contentType == header.contentType && file.sizeBytes == header.size
    && file.userId == userId && file.passwordHash == params.passwordHash && file.uploadRequestId == params.fileRequestId
    && file.uploadDate == now && file.downloadCount == 0
    && (!params.unlimitedDownload ==> file.downloadsRemaining == params.allowedDownloads)
  }

  ghost predicate IsUploaded(s: Store, s': Store, id: FileId, header: FileHeader, content: Bytes, userId: UserId, params: UploadParameters, now: int) {
    && OnlyAdds(s, s', id)
    && IsRecordOf(s'.files[id], header, userId, params, now)
    && id in s'.contents && s'.contents[id] == content
    && s'.statuses == s.statuses
    && forall t :: Found(s', id, t).Some? <==> IsOffered(params, t)
  }

  lemma SavedRecordIsFound(cfg: Config, s: Store, id: FileId, hash: Hash, header: FileHeader, content: Bytes, userId: UserId,
                           params: UploadParameters, key: Key, newInfo: EncryptionInfo, now: int)
    requires id != NO_ID && id !in s.files
    ensures var s' := AfterUpload(cfg, s, CreateNewMetaData(cfg, id, hash, header, userId, params, now), content, key, newInfo);
            IsUploaded(s, s', id, header, content, userId, params, now) && s'.files[id].sha1 == hash
  {
    var file := CreateNewMetaData(cfg, id, hash, header, userId, params, now);
    var s' := AfterUpload(cfg, s, file, content, key, newInfo);
    assert s'.files[id] == file.(encryption := s'.files[id].encryption);
    assert hash in s'.sources;
  }

  /** An upload in one piece is refused exactly if it is too large; otherwise it is found as long as it is offered. */
  lemma AnUploadIsFound(cfg: Config, s: Store, id: FileId, header: FileHeader, content: Bytes, userId: UserId,
                        params: UploadParameters, key: Key, nonce: Nonce, now: int)
    requires StoreInv(cfg, s) && id != NO_ID && id !in s.files
    ensures var s' := AfterNewFile(cfg, s, id, header, content, userId, params, key, nonce, now);
            if header.size > cfg.maxFileSizeMB * 1_048_576 then s' == s
            else IsUploaded(s, s', id, header, content, userId, params, now) && !s'.files[id].encryption.isEndToEndEncrypted
  {
    if header.size <= cfg.maxFileSizeMB * 1_048_576 {
      var hash := HashFile(content, cfg.salt, IsEncryptionRequested(cfg.level));
      SavedRecordIsFound(cfg, s, id, hash, header, content, userId, params, key, FreshInfo(cfg, EMPTY_INFO, key, nonce), now);
      NewFileKeepsInv(cfg, s, id, header, content, userId, params, key, nonce, now);
      OnlyRandomNamesAreEndToEnd(cfg, AfterNewFile(cfg, s, id, header, content, userId, params, key, nonce, now), id);
    }
  }

  /** The same for an upload in chunks, which also has to be as long as announced. */
  lemma AChunkUploadIsFound(cfg: Config, s: Store, id: FileId, header: FileHeader, content: Bytes, userId: UserId,
                            params: UploadParameters, key: Key, nonce: Nonce, random: nat, now: int)
    requires StoreInv(cfg, s) && id != NO_ID && id !in s.files && Random(random) !in s.sources
    ensures var s' := AfterNewFileFromChunk(cfg, s, id, header, content, userId, params, key, nonce, random, now);
            if header.size > cfg.maxFileSizeMB * 1_048_576 || |content| != header.size then s' == s
            else
              && IsUploaded(s, s', id, header, content, userId, params, now)
              && s'.files[id].encryption.isEndToEndEncrypted == params.isEndToEndEncrypted
  {
    if header.size <= cfg.maxFileSizeMB * 1_048_576 && |content| == header.size {
      var hash := ChunkFileHash(cfg, content, params.isEndToEndEncrypted, random);
      var info := CreateNewMetaData(cfg, id, hash, header, userId, params, now).encryption;
      SavedRecordIsFound(cfg, s, id, hash, header, content, userId, params, key, FreshInfo(cfg, info, key, nonce), now);
      NewFileFromChunkKeepsInv(cfg, s, id, header, content, userId, params, key, nonce, random, now);
      OnlyRandomNamesAreEndToEnd(cfg, AfterNewFileFromChunk(cfg, s, id, header, content, userId, params, key, nonce, random, now), id);
    }
  }

  lemma OnlyRandomNamesAreEndToEnd(cfg: Config, s: Store, id: FileId)
    requires StoreInv(cfg, s) && id in s.files
    ensures s.files[id].encryption.isEndToEndEncrypted <==> s.files[id].sha1.Random?
  {
  }

  // ---------------------------------------------------------------- what is stored

  /** Files that were not encrypted by the browser share a source exactly if their contents are equal. */
  lemma EqualContentsShareASource(cfg: Config, s: Store, a: FileId, b: FileId)
    requires StoreInv(cfg, s) && a in s.files && b in s.files
    requires !s.files[a].encryption.isEndToEndEncrypted && !s.files[b].encryption.isEndToEndEncrypted
    ensures s.files[a].sha1 == s.files[b].sha1 <==> s.contents[a] == s.contents[b]
  {
    if s.files[a].sha1 == s.files[b].sha1 {
      HashFileInjective(s.contents[a], s.contents[b], cfg.salt, IsEncryptionRequested(cfg.level));
    }
  }

  /** Nothing is stored in the clear on the four levels with encryption on the server, and everything on the other two. */
  lemma SourcesAreEncryptedByLevel(cfg: Config, s: Store, id: FileId)
    requires StoreInv(cfg, s) && id in s.files
    ensures s.sources[s.files[id].sha1].Plain? <==> cfg.level == NoEncryption || cfg.level == EndToEndEncryption
    ensures s.sources[s.files[id].sha1].content == s.contents[id]
  {
  }

  // ---------------------------------------------------------------- replacing and duplicating

  /** What belongs to a link and not to the content behind it. */
  predicate HasSameLink(file: File, file': File) {
    && file'.id == file.id && file'.userId == file.userId && file'.passwordHash == file.passwordHash
    && file'.uploadRequestId == file.uploadRequestId && file'.uploadDate == file.uploadDate
    && file'.downloadCount == file.downloadCount && file'.pendingDeletion == file.pendingDeletion
    && HasSameLimits(file, file')
  }

  predicate HasSameLimits(file: File, file': File) {
    && file'.expireAt == file.expireAt && file'.unlimitedTime == file.unlimitedTime
    && file'.downloadsRemaining == file.downloadsRemaining && file'.unlimitedDownloads == file.unlimitedDownloads
  }

  /** What belongs to the content. */
  predicate HasSameContent(file: File, file': File) {
    && file'.name == file.name && file'.contentType == file.contentType && file'.sizeBytes == file.sizeBytes
    && file'.sha1 == file.sha1 && file'.encryption == file.encryption
  }

  /** Both files are found, and neither was encrypted by the browser. */
  predicate MayReplace(s: Store, id: FileId, newId: FileId, now: int) {
    && Found(s, id, now).Some? && Found(s, newId, now).Some?
    && !s.files[id].encryption.isEndToEndEncrypted && !s.files[newId].encryption.isEndToEndEncrypted
  }

  /** The link has the other content, and nothing else about it is new. */
  ghost predicate IsSwapped(s: Store, s': Store, id: FileId, newId: FileId)
    requires id in s.files && newId in s.files && s.contents.Keys == s.files.Keys
  {
    && OnlyChanges(s, s', id)
    && HasSameLink(s.files[id], s'.files[id]) && HasSameContent(s.files[newId], s'.files[id])
    && s'.contents == s.contents[id := s.contents[newId]]
    && s'.statuses == s.statuses
  }

  /** A replacement that is possible gives the link the other content; any other changes nothing. */
  lemma AReplacementSwapsTheContent(s: Store, id: FileId, newId: FileId, now: int)
    requires s.contents.Keys == s.files.Keys
    ensures var s' := AfterReplace(s, id, newId, false, now);
            if MayReplace(s, id, newId, now) then IsSwapped(s, s', id, newId) else s' == s
  {
    if MayReplace(s, id, newId, now) {
      SwapKeepsTheLink(s.files[id], s.files[newId]);
      var s' := AfterReplace(s, id, newId, false, now);
      assert s'.files == s.files[id := WithContentOf(s.files[id], s.files[newId])];
    }
  }

  lemma SwapKeepsTheLink(file: File, newContent: File)
    ensures var file' := WithContentOf(file, newContent); HasSameLink(file, file') && HasSameContent(newContent, file')
  {
  }

  /** If the other file is to be deleted, that happens after the swap. */
  lemma AReplacementMayDeleteTheOther(s: Store, id: FileId, newId: FileId, now: int)
    requires s.contents.Keys == s.files.Keys && MayReplace(s, id, newId, now)
    ensures AfterReplace(s, id, newId, true, now) == MarkedDeleted(AfterReplace(s, id, newId, false, now), newId)
  {
  }

  /** After that, the old source is kept exactly if some entry names it. */
  lemma AReplacementLeavesNoSource(cfg: Config, s: Store, id: FileId, newId: FileId, deleteNew: bool, now: int)
    requires StoreInv(cfg, s) && MayReplace(s, id, newId, now)
    ensures var s' := AfterReplace(s, id, newId, deleteNew, now);
            s.files[id].sha1 in s'.sources <==> exists k :: k in s'.files && s'.files[k].sha1 == s.files[id].sha1
  {
    ReplaceKeepsInv(cfg, s, id, newId, deleteNew, now);
    NamedIsStored(cfg, AfterReplace(s, id, newId, deleteNew, now), s.files[id].sha1);
  }

  lemma NamedIsStored(cfg: Config, s: Store, hash: Hash)
    requires StoreInv(cfg, s)
    ensures hash in s.sources <==> exists k :: k in s.files && s.files[k].sha1 == hash
  {
    if hash in s.sources {
      assert IsNamed(s.files, hash);
    }
  }

  /** When the copy is found: by its new limits where they were to be changed, by those of the original otherwise. */
  predicate IsCopyOffered(file: File, changes: bv8, params: UploadParameters, t: int) {
    && (if changes & 1 != 0 then params.unlimitedTime || t <= params.expiryTimestamp else file.unlimitedTime || t <= file.expireAt)
    && (if changes & 2 != 0 then params.unlimitedDownload || params.allowedDownloads >= 1
        else file.unlimitedDownloads || file.downloadsRemaining >= 1)
  }

  predicate IsCopyOf(file: File, copy: File, changes: bv8, newName: string, params: UploadParameters) {
    && copy.downloadCount == 0 && copy.userId == params.userId
    && copy.uploadRequestId == file.uploadRequestId && copy.uploadDate == file.uploadDate
    && copy.passwordHash == (if changes & 4 != 0 then params.passwordHash else file.passwordHash)
    && copy.name == (if changes & 8 != 0 then newName else file.name)
    && HasSameContent(file, copy.(name := file.name))
  }

  /** A duplicate has the content of the original; the four lowest bits of the request say what else is new. */
  lemma ADuplicateIsFound(s: Store, id: FileId, newId: FileId, changes: bv8, newName: string, params: UploadParameters, now: int)
    requires s.contents.Keys == s.files.Keys && newId != NO_ID && newId !in s.files
    ensures var s' := AfterDuplicate(s, id, newId, changes, newName, params, now);
            if Found(s, id, now).None? then s' == s
            else
              && OnlyAdds(s, s', newId) && s'.contents[newId] == s.contents[id]
              && s'.sources == s.sources && s'.statuses == s.statuses
              && IsCopyOf(s.files[id], s'.files[newId], changes, newName, params)
              && forall t :: Found(s', newId, t).Some? <==> IsCopyOffered(s.files[id], changes, params, t)
  {
    if Found(s, id, now).Some? {
      var copy := DuplicateOf(s.files[id], newId, changes, newName, params);
      CopyIsAsRequested(s.files[id], newId, changes, newName, params);
      forall t
        ensures Found(AfterDuplicate(s, id, newId, changes, newName, params, now), newId, t).Some?
                <==> IsCopyOffered(s.files[id], changes, params, t)
      {
        CopyExpires(s.files[id], newId, changes, newName, params, t);
      }
    }
  }

  lemma CopyIsAsRequested(file: File, newId: FileId, changes: bv8, newName: string, params: UploadParameters)
    ensures IsCopyOf(file, DuplicateOf(file, newId, changes, newName, params), changes, newName, params)
    ensures DuplicateOf(file, newId, changes, newName, params).pendingDeletion == file.pendingDeletion
  {
  }

  lemma CopyExpires(file: File, newId: FileId, changes: bv8, newName: string, params: UploadParameters, t: int)
    ensures IsExpiredFile(DuplicateOf(file, newId, changes, newName, params), t) <==> !IsCopyOffered(file, changes, params, t)
  {
  }

  // ---------------------------------------------------------------- deletion

  /** A deleted file is not found any more, and the next clean-up removes it even if it was being downloaded. */
  lemma ADeletedFileIsGone(s: Store, id: FileId, t: int)
    requires id != NO_ID && id in s.files && s.files[id].id == id && t > 0
    ensures var s' := MarkedDeleted(s, id);
            && OnlyChanges(s, s', id) && HasSameContent(s.files[id], s'.files[id]) && s'.sources == s.sources
            && Found(s', id, t).None?
            && id !in Swept(s', t).files
  {
  }

  /** A file scheduled for deletion is hidden at once, and back as it was if the deletion is cancelled. */
  lemma AScheduledFileIsHidden(s: Store, id: FileId, deletionTime: int, t: int)
    requires id != NO_ID && id in s.files && deletionTime != 0 && s.files[id].pendingDeletion == 0
    ensures var s' := AfterSchedule(s, id, deletionTime);
            && OnlyChanges(s, s', id) && s'.sources == s.sources
            && Found(s', id, t).None?
            && AfterSchedule(s', id, 0) == s
  {
    var marked := s.files[id := s.files[id].(pendingDeletion := deletionTime)];
    assert marked[id := s.files[id]] == s.files;
  }

  /** The timer of a schedule carries it out unless the deletion was cancelled or scheduled anew in between. */
  lemma TheTimerActsOnItsSchedule(s: Store, id: FileId, deletionTime: int, otherTime: int, t: int)
    requires id != NO_ID && id in s.files && s.files[id].id == id && t > 0
    requires otherTime != deletionTime
    ensures var s' := AfterSchedule(s, id, deletionTime);
            && Found(AfterScheduleTimer(s', id, deletionTime), id, t).None?
            && id !in Swept(AfterScheduleTimer(s', id, deletionTime), t).files
            && AfterScheduleTimer(AfterSchedule(s', id, otherTime), id, deletionTime) == AfterSchedule(s', id, otherTime)
  {
  }

  // ---------------------------------------------------------------- downloads in progress

  /** A started download counts for 24 hours, for its file only, and its end leaves no trace. */
  lemma ADownloadLastsADay(statuses: StatusMap, id: FileId, statusId: string, now: int, other: FileId, t: int)
    requires statusId !in statuses
    ensures var after := Started(statuses, statusId, id, now);
            && (IsCurrentlyDownloading(after, other, t) <==>
                IsCurrentlyDownloading(statuses, other, t) || (other == id && t < now + 24 * 60 * 60))
            && after - {statusId} == statuses
  {
    var after := Started(statuses, statusId, id, now);
    assert after[statusId].fileId == id;
    if k :| k in statuses && statuses[k].fileId == other && statuses[k].expireAt > t {
      assert after[k] == statuses[k];
    }
  }

  /** Ending all downloads of a file ends those of no other. */
  lemma EndingAllDownloads(statuses: StatusMap, id: FileId, other: FileId, t: int)
    ensures IsCurrentlyDownloading(WithoutFile(statuses, id), other, t) <==> other != id && IsCurrentlyDownloading(statuses, other, t)
  {
    var rest := WithoutFile(statuses, id);
    if k :| k in statuses && statuses[k].fileId == other && statuses[k].expireAt > t && other != id {
      assert k in rest && rest[k] == statuses[k];
    }
  }

  /** What is left after a cleaning has not expired before it, and only that. */
  lemma CleaningDropsTheExpired(statuses: StatusMap, now: int, k: string)
    ensures k in Cleaned(statuses, now) <==> k in statuses && !(statuses[k].expireAt < now)
    ensures k in Cleaned(statuses, now) ==> Cleaned(statuses, now)[k] == statuses[k]
  {
  }

  /** Nobody downloads the file. */
  predicate IsIdle(statuses: StatusMap, id: FileId, now: int) {
    forall k :: k in statuses && statuses[k].fileId == id ==> statuses[k].expireAt <= now
  }

  /** The first clean-up after the last download of an expired file has ended removes it. */
  lemma AnExpiredFileGoesWithItsLastDownload(s: Store, id: FileId, statusId: string, now: int)
    requires id in s.files && s.files[id].id == id
    requires (!s.files[id].unlimitedTime && s.files[id].expireAt < now) || (!s.files[id].unlimitedDownloads && s.files[id].downloadsRemaining <= 0)
    requires IsIdle(s.statuses - {statusId}, id, now)
    ensures id !in Swept(s.(statuses := s.statuses - {statusId}), now).files
  {
  }
}
