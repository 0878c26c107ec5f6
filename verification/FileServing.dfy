/** The file-serving operations of the server, on local storage and without I/O errors. */
module FileServing {
  import opened Wrappers
  import opened Encryption
  import opened Models
  import opened Database
  import opened DownloadStatuses
  import opened FileStore
  import opened FileStoreInvariant
  import opened FileStoreSweep

  class Storage {
    const cfg: Config
    const database: MetaDataTable
    const downloads: StatusTable
    var sources: Sources
    ghost var contents: map<FileId, Bytes>

    ghost function Repr(): set<object> {
      {this, database, downloads}
    }

    ghost function View(): Store
      reads Repr()
    {
      Store(database.rows, sources, downloads.statusMap, contents)
    }

    ghost predicate Valid()
      reads Repr()
    {
      downloads.Valid() && StoreInv(cfg, View())
    }

    constructor (cfg: Config)
      ensures Valid() && fresh(database) && fresh(downloads) && this.cfg == cfg && View() == EMPTY_STORE
    {
      this.cfg := cfg;
      database := new MetaDataTable();
      downloads := new StatusTable();
      sources := map[];
      contents := map[];
    }

    /** The first entry with the given hash, in whatever order the table is read. */
    method GetEncInfoFromExistingFile(hash: Hash) returns (info: EncryptionInfo, ok: bool)
      ensures !IsEncryptionRequested(cfg.level) ==> ok && info == EMPTY_INFO
      ensures IsEncryptionRequested(cfg.level) ==> (ok <==> IsNamed(database.rows, hash))
      ensures IsEncryptionRequested(cfg.level) && ok ==>
                exists id :: id in database.rows && database.rows[id].sha1 == hash && database.rows[id].encryption == info
    {
      if cfg.level == NoEncryption || cfg.level == EndToEndEncryption {
        return EMPTY_INFO, true;
      }
      var allFiles := database.GetAllMetadata();
      var todo := allFiles.Keys;
      while todo != {}
        invariant todo <= allFiles.Keys
        invariant forall id :: id in allFiles && id !in todo ==> allFiles[id].sha1 != hash
        decreases |todo|
      {
        var id :| id in todo;
        if allFiles[id].sha1 == hash {
          return allFiles[id].encryption, true;
        }
        todo := todo - {id};
      }
      return EMPTY_INFO, false;
    }

    /** An upload in one piece. `id`, `key` and `nonce` are freshly generated. */
    method NewFile(id: FileId, header: FileHeader, content: Bytes, userId: UserId, params: UploadParameters,
                   key: Key, nonce: Nonce, now: int)
      returns (r: Result<File, Error>)
      requires Valid() && id !in database.rows
      modifies Repr()
      ensures Valid()
      ensures View() == AfterNewFile(cfg, old(View()), id, header, content, userId, params, key, nonce, now)
      ensures r == if IsAllowedFileSize(cfg.maxFileSizeMB, header.size) then Ok(View().files[id]) else Err(FileTooLarge)
    {
      ghost var before := View();
      NewFileKeepsInv(cfg, before, id, header, content, userId, params, key, nonce, now);
      if !IsAllowedFileSize(cfg.maxFileSizeMB, header.size) {
        return Err(FileTooLarge);
      }
      var hash := HashFile(content, cfg.salt, IsEncryptionRequested(cfg.level));
      var encInfo := FreshInfo(cfg, EMPTY_INFO, key, nonce);
      var file := CreateNewMetaData(cfg, id, hash, header, userId, params, now).(encryption := encInfo);
      file := StoreSource(file, content, key);
      database.SaveMetaData(file);
      contents := contents[id := content];
      r := Ok(file);
    }

    /** The deduplication of both upload paths: adopt the stored source with its key, or store a new one. */
    method StoreSource(file: File, content: Bytes, key: Key) returns (stored: File)
      requires KeysAgree(database.rows)
      modifies this`sources
      ensures var after := AfterUpload(cfg, old(View()), file, content, key, file.encryption);
              sources == after.sources && stored == after.files[file.id]
    {
      var fileExists := file.sha1 in sources;
      stored := file;
      if fileExists {
        var previous, ok := GetEncInfoFromExistingFile(file.sha1);
        if !ok && cfg.level != NoEncryption && cfg.level != EndToEndEncryption {
          sources := sources - {file.sha1};
          fileExists := false;
        } else {
          stored := file.(encryption := previous);
        }
      }
      if !fileExists {
        sources := sources[file.sha1 := FreshBlob(cfg, content, key)];
      }
    }

    /** An upload that arrived in chunks. `random` is the freshly generated name of an end-to-end source. */
    method NewFileFromChunk(id: FileId, header: FileHeader, content: Bytes, userId: UserId, params: UploadParameters,
                            key: Key, nonce: Nonce, random: nat, now: int)
      returns (r: Result<File, Error>)
      requires Valid() && id !in database.rows && Random(random) !in sources
      modifies Repr()
      ensures Valid()
      ensures View() == AfterNewFileFromChunk(cfg, old(View()), id, header, content, userId, params, key, nonce, random, now)
      ensures r == if !IsAllowedFileSize(cfg.maxFileSizeMB, header.size) then Err(FileTooLarge)
                   else if |content| != header.size then Err(SizeMismatch)
                   else Ok(View().files[id])
    {
      ghost var before := View();
      NewFileFromChunkKeepsInv(cfg, before, id, header, content, userId, params, key, nonce, random, now);
      if !IsAllowedFileSize(cfg.maxFileSizeMB, header.size) {
        return Err(FileTooLarge);
      }
      if |content| != header.size {
        return Err(SizeMismatch);
      }
      var hash := ChunkFileHash(cfg, content, params.isEndToEndEncrypted, random);
      var file := CreateNewMetaData(cfg, id, hash, header, userId, params, now);
      file := file.(encryption := FreshInfo(cfg, file.encryption, key, nonce));
      file := StoreSource(file, content, key);
      database.SaveMetaData(file);
      contents := contents[id := content];
      r := Ok(file);
    }

    method ReplaceFile(fileId: FileId, newFileContentId: FileId, deleteNew: bool, now: int)
      returns (r: Result<File, Error>)
      requires Valid()
      modifies Repr()
      ensures Valid()
      ensures View() == AfterReplace(old(View()), fileId, newFileContentId, deleteNew, now)
      ensures var error := ReplaceError(old(View()), fileId, newFileContentId, now);
              if error.Some? then r == Err(error.value)
              else r == Ok(WithContentOf(old(database.rows[fileId]), old(database.rows[newFileContentId])))
    {
      ReplaceKeepsInv(cfg, View(), fileId, newFileContentId, deleteNew, now);
      var found := GetFile(database.rows, sources, fileId, now);
      if found.None? {
        return Err(FileNotFound);
      }
      var foundNew := GetFile(database.rows, sources, newFileContentId, now);
      if foundNew.None? {
        return Err(FileNotFound);
      }
      var file, newFileContent := found.value, foundNew.value;
      if file.encryption.isEndToEndEncrypted || newFileContent.encryption.isEndToEndEncrypted {
        return Err(ReplaceE2EFile);
      }
      var previousContent := file;
      file := WithContentOf(file, newFileContent);
      database.SaveMetaData(file);
      contents := contents[fileId := contents[newFileContentId]];
      DeleteUnreferencedSource(previousContent);
      if deleteNew {
        var _ := MarkDeleted(newFileContent.id);
      }
      r := Ok(file);
    }

    /** Reads the table in any order and stops at the first entry that still needs the source. */
    method DeleteUnreferencedSource(file: File)
      modifies this`sources
      ensures View() == WithoutUnreferenced(old(View()), file.sha1)
    {
      var all := database.GetAllMetadata();
      var todo := all.Keys;
      while todo != {}
        invariant todo <= all.Keys && sources == old(sources)
        invariant forall id :: id in all && id !in todo ==> all[id].sha1 != file.sha1
        decreases |todo|
      {
        var id :| id in todo;
        if all[id].sha1 == file.sha1 {
          return;
        }
        todo := todo - {id};
      }
      if file.sha1 in sources {
        sources := sources - {file.sha1};
      }
    }

    /** The handler of a duplication: looks the file up and stores a copy under the fresh id. */
    method DuplicateFile(fileId: FileId, newId: FileId, changes: bv8, newName: string, params: UploadParameters, now: int)
      returns (r: Result<File, Error>)
      requires Valid() && newId !in database.rows
      modifies Repr()
      ensures Valid()
      ensures View() == AfterDuplicate(old(View()), fileId, newId, changes, newName, params, now)
      ensures r == if old(GetFile(database.rows, sources, fileId, now)).None? then Err(FileNotFound)
                   else Ok(View().files[newId])
    {
      DuplicateKeepsInv(cfg, View(), fileId, newId, changes, newName, params, now);
      var found := GetFile(database.rows, sources, fileId, now);
      if found.None? {
        return Err(FileNotFound);
      }
      var newFile := DuplicateOf(found.value, newId, changes, newName, params);
      database.SaveMetaData(newFile);
      contents := contents[newId := contents[fileId]];
      r := Ok(newFile);
    }

    /** DeleteFile, without the clean-up it starts in the background. */
    method MarkDeleted(fileId: FileId) returns (ok: bool)
      requires downloads.Valid() && forall id :: id in database.rows ==> database.rows[id].id == id
      modifies Repr()
      ensures downloads.Valid() && View() == MarkedDeleted(old(View()), fileId)
      ensures ok <==> fileId != NO_ID && fileId in old(database.rows)
    {
      if fileId == NO_ID {
        return false;
      }
      var found := database.GetMetaDataById(fileId);
      if found.None? {
        return false;
      }
      var file := found.value;
      database.SaveMetaData(file.(expireAt := 0, unlimitedTime := false));
      downloads.SetAllComplete(file.id);
      ok := true;
    }

    /** Sets the pending-deletion mark, or clears it with a time of 0; the timer of the former is ScheduleTimer. */
    method DeleteFileSchedule(fileId: FileId, deletionTime: int) returns (ok: bool)
      requires Valid()
      modifies Repr()
      ensures Valid() && View() == AfterSchedule(old(View()), fileId, deletionTime)
      ensures ok <==> fileId != NO_ID && fileId in old(database.rows)
    {
      ScheduleKeepsInv(cfg, View(), fileId, deletionTime);
      if fileId == NO_ID {
        return false;
      }
      var found := database.GetMetaDataById(fileId);
      if found.None? {
        return false;
      }
      database.SaveMetaData(found.value.(pendingDeletion := deletionTime));
      ok := true;
    }

    method CancelPendingFileDeletion(fileId: FileId) returns (ok: bool)
      requires Valid()
      modifies Repr()
      ensures Valid() && View() == AfterSchedule(old(View()), fileId, 0)
      ensures ok <==> fileId != NO_ID && fileId in old(database.rows)
    {
      ok := DeleteFileSchedule(fileId, 0);
    }

    method ScheduleTimer(fileId: FileId, deletionTime: int)
      requires Valid()
      modifies Repr()
      ensures Valid() && View() == AfterScheduleTimer(old(View()), fileId, deletionTime)
    {
      MarkedDeletedKeepsInv(cfg, View(), fileId);
      var found := database.GetMetaDataById(fileId);
      if found.Some? && found.value.pendingDeletion == deletionTime {
        var _ := MarkDeleted(fileId);
      }
    }

    /**
     Removes what is due, in any order, and calls itself until a pass finds nothing more; the clock may
     advance between the passes. `finished` is the time of the last pass.
     */
    method CleanUp(now: int) returns (finished: int)
      requires downloads.Valid() && forall id :: id in database.rows ==> database.rows[id].id == id
      modifies Repr()
      ensures downloads.Valid()
      ensures finished >= now && View() == Swept(old(View()), finished)
      ensures old(Valid()) ==> Valid()
      decreases |database.rows|
    {
      ghost var before := View();
      if StoreInv(cfg, before) {
        forall t { SweptKeepsInv(cfg, before, t); }
      }
      var wasItemDeleted := CleanUpPass(now);
      finished := now;
      if wasItemDeleted {
        var later: int :| later >= now;
        SweptTwice(before, now, later);
        finished := CleanUp(later);
        SweptTwice(before, now, finished);
      }
    }

    /** One pass over a snapshot of the table, in any order. */
    method CleanUpPass(now: int) returns (wasItemDeleted: bool)
      requires downloads.Valid() && forall id :: id in database.rows ==> database.rows[id].id == id
      modifies Repr()
      ensures downloads.Valid()
      ensures View() == Swept(old(View()), now)
      ensures forall id :: id in database.rows ==> database.rows[id].id == id
      ensures wasItemDeleted ==> |database.rows| < |old(database.rows)|
    {
      ghost var before := View();
      downloads.Clean(now);
      var all := database.GetAllMetadata();
      var todo := all.Keys;
      wasItemDeleted := false;
      MidPassEnds(before, now);
      while todo != {}
        invariant todo <= all.Keys && downloads.Valid() && downloads.statusMap == Cleaned(before.statuses, now)
        invariant database.rows == MidPass(before, todo, now)
        invariant sources == MidPassSources(before, todo, now) && contents == before.contents
        invariant wasItemDeleted ==> database.rows.Keys < all.Keys
        decreases |todo|
      {
        var key :| key in todo;
        MidPassStep(before, todo, now, key);
        CleanedKeepsDownloads(before.statuses, now, now, all[key].id);
        var wasDeleted := VisitEntry(all[key], now);
        wasItemDeleted := wasItemDeleted || wasDeleted;
        todo := todo - {key};
      }
      contents := map id | id in contents && id in database.rows :: contents[id];
      if wasItemDeleted {
        FewerKeys(database.rows, all);
      }
    }

    /** Removes the entry if it is due, and its source unless another entry still needs it. */
    method VisitEntry(element: File, now: int) returns (wasDeleted: bool)
      requires forall id :: id in database.rows ==> database.rows[id].id == id
      modifies this`sources, database
      ensures wasDeleted <==> old(element.sha1 !in sources)
                              || IsExpiredFileWithoutDownload(element, downloads.statusMap, now)
                              || IsPendingToBeDeleted(element, now)
      ensures database.rows == if wasDeleted then old(database.rows) - {element.id} else old(database.rows)
      ensures sources == if wasDeleted && !IsNamed(old(database.rows) - {element.id}, element.sha1)
                         then old(sources) - {element.sha1} else old(sources)
    {
      var fileExists := element.sha1 in sources;
      var isDownloading := downloads.IsDownloading(element, now);
      wasDeleted := !fileExists || (!isDownloading && IsExpiredFile(element, now)) || IsPendingToBeDeleted(element, now);
      if wasDeleted {
        var deleteFile := IsOnlyReference(element);
        if deleteFile && fileExists {
          sources := sources - {element.sha1};
        }
        database.DeleteMetaData(element.id);
      }
    }

    /** No other entry in the table, as it is now, shares the source. */
    method IsOnlyReference(element: File) returns (isOnly: bool)
      requires forall id :: id in database.rows ==> database.rows[id].id == id
      ensures isOnly <==> !IsNamed(database.rows - {element.id}, element.sha1)
    {
      var all := database.GetAllMetadata();
      var todo := all.Keys;
      isOnly := true;
      while todo != {}
        invariant todo <= all.Keys
        invariant forall id :: id in all && id !in todo ==> !(element.id != all[id].id && element.sha1 == all[id].sha1)
        decreases |todo|
      {
        var id :| id in todo;
        if element.id != all[id].id && element.sha1 == all[id].sha1 {
          isOnly := false;
          assert (all - {element.id})[id].sha1 == element.sha1;
          break;
        }
        todo := todo - {id};
      }
    }
  }
}
