/** The invariant of the file store, and that every operation keeps it. */
module FileStoreInvariant {
  import opened Wrappers
  import opened Encryption
  import opened Models
  import opened Database
  import opened DownloadStatuses
  import opened FileStore

  /** The source of an entry is the content uploaded or swapped in under its id, readable with the entry's key. */
  ghost predicate EntryInv(cfg: Config, file: File, blob: Blob, content: Bytes) {
    && blob.content == content
    && (file.sha1.Digest? ==> file.sha1 == HashFile(content, cfg.salt, IsEncryptionRequested(cfg.level)))
    && (file.sha1.Random? <==> file.encryption.isEndToEndEncrypted)
    && if IsEncryptionRequested(cfg.level) then
         && blob.Cipher?
         && file.encryption.isEncrypted
         && GetCipherFromFile(cfg.master, file.encryption) == Some(blob.key)
       else
         && blob.Plain?
         && file.encryption == EMPTY_INFO.(isEncrypted := file.sha1.Random?, isEndToEndEncrypted := file.sha1.Random?)
  }

  ghost predicate EntriesInv(cfg: Config, s: Store) {
    && s.contents.Keys == s.files.Keys
    && forall id :: id in s.files ==>
                      && s.files[id].id == id
                      && s.files[id].sha1 in s.sources
                      && EntryInv(cfg, s.files[id], s.sources[s.files[id].sha1], s.contents[id])
  }

  /** Entries that share a source hold the same key and nonce. */
  ghost predicate KeysAgree(files: Rows) {
    forall a, b :: a in files && b in files && files[a].sha1 == files[b].sha1 ==> files[a].encryption == files[b].encryption
  }

  ghost predicate StoreInv(cfg: Config, s: Store) {
    EntriesInv(cfg, s) && KeysAgree(s.files) && NoOrphans(s)
  }

  // ---------------------------------------------------------------- what the invariant means

  /** Whichever entry getEncInfoFromExistingFile happens to find, it returns the same key and nonce. */
  lemma DonorIsUnique(cfg: Config, files: Rows, id: FileId)
    requires KeysAgree(files) && id in files && IsEncryptionRequested(cfg.level)
    ensures DonorInfo(cfg, files, files[id].sha1) == files[id].encryption
  {
  }

  /**
   Every entry is served as the content uploaded or swapped in under its id, with one exception: an
   end-to-end upload on a server that encrypts is encrypted a second time and sent out like that.
   */
  lemma ServedIsContent(cfg: Config, s: Store, id: FileId)
    requires EntriesInv(cfg, s) && id in s.files
    ensures var served := Served(cfg, s.files[id], s.sources[s.files[id].sha1]);
            && served.Some?
            && served.value.content == s.contents[id]
            && (served == Some(Plain(s.contents[id])) <==>
                !(s.files[id].encryption.isEndToEndEncrypted && IsEncryptionRequested(cfg.level)))
  {
  }

  // ---------------------------------------------------------------- preservation

  /** An entry that shares hash, key and content with the entry `from` of an earlier store. */
  ghost predicate Inherits(s: Store, from: FileId, s': Store, id: FileId) {
    && from in s.files && from in s.contents && id in s'.files && id in s'.contents
    && s'.files[id].id == id
    && s'.files[id].sha1 == s.files[from].sha1
    && s'.files[id].encryption == s.files[from].encryption
    && s'.contents[id] == s.contents[from]
  }

  /** Every operation on stored files shuffles inherited entries and drops sources nobody names. */
  lemma InheritanceKeepsInv(cfg: Config, s: Store, s': Store, origin: map<FileId, FileId>)
    requires StoreInv(cfg, s)
    requires s'.contents.Keys == s'.files.Keys == origin.Keys
    requires forall id :: id in origin ==> Inherits(s, origin[id], s', id)
    requires NoOrphans(s')
    requires forall id :: id in s'.files ==> s'.files[id].sha1 in s'.sources
    requires forall h :: h in s'.sources && h in s.sources ==> s'.sources[h] == s.sources[h]
    ensures StoreInv(cfg, s')
  {
    forall id | id in s'.files
      ensures EntryInv(cfg, s'.files[id], s'.sources[s'.files[id].sha1], s'.contents[id])
    {
      assert Inherits(s, origin[id], s', id);
    }
    forall a, b | a in s'.files && b in s'.files && s'.files[a].sha1 == s'.files[b].sha1
      ensures s'.files[a].encryption == s'.files[b].encryption
    {
      assert Inherits(s, origin[a], s', a) && Inherits(s, origin[b], s', b);
    }
  }

  /** After saving one entry every source is still named, unless only the replaced entry named it. */
  lemma NamedAfterSave(s: Store, id: FileId, file: File, s': Store)
    requires NoOrphans(s) && s'.files == s.files[id := file]
    requires forall h :: h in s'.sources ==> h in s.sources || h == file.sha1
    requires id in s.files && s.files[id].sha1 in s'.sources ==> IsNamed(s'.files, s.files[id].sha1)
    ensures NoOrphans(s')
  {
    forall h | h in s'.sources
      ensures IsNamed(s'.files, h)
    {
      if h == file.sha1 {
        assert s'.files[id].sha1 == h;
      } else if !(id in s.files && h == s.files[id].sha1) {
        assert IsNamed(s.files, h);
        var k :| k in s.files && s.files[k].sha1 == h;
        assert s'.files[k].sha1 == h;
      }
    }
  }

  /** A source that is not there yet: its one entry is the new one. */
  lemma FreshUploadKeepsInv(cfg: Config, s: Store, file: File, blob: Blob, content: Bytes)
    requires StoreInv(cfg, s) && file.id !in s.files && file.sha1 !in s.sources
    requires EntryInv(cfg, file, blob, content)
    ensures StoreInv(cfg, Store(s.files[file.id := file], s.sources[file.sha1 := blob], s.statuses, s.contents[file.id := content]))
  {
    NamedAfterSave(s, file.id, file, Store(s.files[file.id := file], s.sources[file.sha1 := blob], s.statuses, s.contents));
  }

  /** A source that is there already: the new entry is a copy of the entry that named it. */
  lemma CopyKeepsInv(cfg: Config, s: Store, from: FileId, copy: File)
    requires StoreInv(cfg, s) && from in s.files && copy.id !in s.files
    requires copy.sha1 == s.files[from].sha1 && copy.encryption == s.files[from].encryption
    ensures StoreInv(cfg, s.(files := s.files[copy.id := copy], contents := s.contents[copy.id := s.contents[from]]))
  {
    var s' := s.(files := s.files[copy.id := copy], contents := s.contents[copy.id := s.contents[from]]);
    NamedAfterSave(s, copy.id, copy, s');
    InheritanceKeepsInv(cfg, s, s', (map k | k in s.files :: k)[copy.id := from]);
  }

  lemma UploadKeepsInv(cfg: Config, s: Store, file: File, content: Bytes, key: Key, newInfo: EncryptionInfo)
    requires StoreInv(cfg, s) && file.id !in s.files
    requires EntryInv(cfg, file.(encryption := newInfo), FreshBlob(cfg, content, key), content)
    requires file.sha1 in s.sources ==> file.sha1.Digest?
    ensures StoreInv(cfg, AfterUpload(cfg, s, file, content, key, newInfo))
  {
    if file.sha1 !in s.sources {
      FreshUploadKeepsInv(cfg, s, file.(encryption := newInfo), FreshBlob(cfg, content, key), content);
    } else {
      assert IsNamed(s.files, file.sha1);
      var donor :| donor in s.files && s.files[donor].sha1 == file.sha1;
      HashFileInjective(content, s.contents[donor], cfg.salt, IsEncryptionRequested(cfg.level));
      assert DonorInfo(cfg, s.files, file.sha1) == s.files[donor].encryption by {
        if IsEncryptionRequested(cfg.level) { DonorIsUnique(cfg, s.files, donor); }
      }
      CopyKeepsInv(cfg, s, donor, file.(encryption := s.files[donor].encryption));
    }
  }

  lemma NewFileKeepsInv(cfg: Config, s: Store, id: FileId, header: FileHeader, content: Bytes, userId: UserId,
                        params: UploadParameters, key: Key, nonce: Nonce, now: int)
    requires StoreInv(cfg, s) && id !in s.files
    ensures StoreInv(cfg, AfterNewFile(cfg, s, id, header, content, userId, params, key, nonce, now))
  {
    var hash := HashFile(content, cfg.salt, IsEncryptionRequested(cfg.level));
    var file := CreateNewMetaData(cfg, id, hash, header, userId, params, now);
    UploadKeepsInv(cfg, s, file, content, key, FreshInfo(cfg, EMPTY_INFO, key, nonce));
  }

  lemma NewFileFromChunkKeepsInv(cfg: Config, s: Store, id: FileId, header: FileHeader, content: Bytes, userId: UserId,
                                 params: UploadParameters, key: Key, nonce: Nonce, random: nat, now: int)
    requires StoreInv(cfg, s) && id !in s.files && Random(random) !in s.sources
    ensures StoreInv(cfg, AfterNewFileFromChunk(cfg, s, id, header, content, userId, params, key, nonce, random, now))
  {
    var hash := ChunkFileHash(cfg, content, params.isEndToEndEncrypted, random);
    var file := CreateNewMetaData(cfg, id, hash, header, userId, params, now);
    UploadKeepsInv(cfg, s, file, content, key, FreshInfo(cfg, file.encryption, key, nonce));
  }

  lemma EditKeepsKeys(files: Rows, id: FileId, file: File)
    requires KeysAgree(files) && id in files
    requires file.sha1 == files[id].sha1 && file.encryption == files[id].encryption
    ensures KeysAgree(files[id := file])
  {
    forall a, b | a in files && b in files && files[id := file][a].sha1 == files[id := file][b].sha1
      ensures files[id := file][a].encryption == files[id := file][b].encryption
    {
      assert files[a].sha1 == files[b].sha1;
    }
  }

  lemma EditKeepsNames(files: Rows, id: FileId, file: File, hash: Hash)
    requires id in files && file.sha1 == files[id].sha1 && IsNamed(files, hash)
    ensures IsNamed(files[id := file], hash)
  {
    var k :| k in files && files[k].sha1 == hash;
    assert files[id := file][k].sha1 == hash;
  }

  lemma EditKeepsOrphans(s: Store, id: FileId, file: File, s': Store)
    requires NoOrphans(s) && id in s.files && file.sha1 == s.files[id].sha1
    requires s'.files == s.files[id := file] && s'.sources == s.sources
    ensures NoOrphans(s')
  {
    forall h | h in s'.sources
      ensures IsNamed(s'.files, h)
    {
      assert IsNamed(s.files, h);
      EditKeepsNames(s.files, id, file, h);
    }
  }

  lemma EditKeepsEntries(cfg: Config, s: Store, id: FileId, file: File, s': Store)
    requires EntriesInv(cfg, s) && id in s.files
    requires file.id == id && file.sha1 == s.files[id].sha1 && file.encryption == s.files[id].encryption
    requires s'.files == s.files[id := file] && s'.sources == s.sources && s'.contents == s.contents
    ensures EntriesInv(cfg, s')
  {
    forall k | k in s'.files
      ensures s'.files[k].id == k && s'.files[k].sha1 in s'.sources
      ensures EntryInv(cfg, s'.files[k], s'.sources[s'.files[k].sha1], s'.contents[k])
    {
      assert k in s.files && EntryInv(cfg, s.files[k], s.sources[s.files[k].sha1], s.contents[k]);
    }
  }

  /** An entry may change freely in everything but id, hash and encryption. */
  lemma EditKeepsInv(cfg: Config, s: Store, id: FileId, file: File, statuses: StatusMap)
    requires StoreInv(cfg, s) && id in s.files
    requires file.id == id && file.sha1 == s.files[id].sha1 && file.encryption == s.files[id].encryption
    ensures StoreInv(cfg, s.(files := s.files[id := file], statuses := statuses))
  {
    var s' := s.(files := s.files[id := file], statuses := statuses);
    EditKeepsEntries(cfg, s, id, file, s');
    EditKeepsKeys(s.files, id, file);
    EditKeepsOrphans(s, id, file, s');
  }

  lemma MarkedDeletedKeepsInv(cfg: Config, s: Store, id: FileId)
    requires StoreInv(cfg, s)
    ensures StoreInv(cfg, MarkedDeleted(s, id))
  {
    if id in s.files {
      EditKeepsInv(cfg, s, id, s.files[id].(expireAt := 0, unlimitedTime := false), WithoutFile(s.statuses, id));
    }
  }

  lemma ScheduleKeepsInv(cfg: Config, s: Store, id: FileId, deletionTime: int)
    requires StoreInv(cfg, s)
    ensures StoreInv(cfg, AfterSchedule(s, id, deletionTime))
  {
    if id in s.files {
      EditKeepsInv(cfg, s, id, s.files[id].(pendingDeletion := deletionTime), s.statuses);
    }
  }

  /** An entry takes over another entry's content; the old source goes if nobody else names it. */
  lemma SwapKeepsInv(cfg: Config, s: Store, id: FileId, newId: FileId)
    requires StoreInv(cfg, s) && id in s.files && newId in s.files
    ensures var swapped := s.(files := s.files[id := WithContentOf(s.files[id], s.files[newId])],
                              contents := s.contents[id := s.contents[newId]]);
            StoreInv(cfg, WithoutUnreferenced(swapped, s.files[id].sha1))
  {
    var file := WithContentOf(s.files[id], s.files[newId]);
    var swapped := s.(files := s.files[id := file], contents := s.contents[id := s.contents[newId]]);
    var s' := WithoutUnreferenced(swapped, s.files[id].sha1);
    SwapKeepsSources(cfg, s, id, newId, swapped, s');
    SwapInherits(s, id, newId, s');
    InheritanceKeepsInv(cfg, s, s', (map k | k in s.files :: k)[id := newId]);
  }

  lemma SwapKeepsSources(cfg: Config, s: Store, id: FileId, newId: FileId, swapped: Store, s': Store)
    requires StoreInv(cfg, s) && id in s.files && newId in s.files
    requires swapped.files == s.files[id := WithContentOf(s.files[id], s.files[newId])] && swapped.sources == s.sources
    requires s' == WithoutUnreferenced(swapped, s.files[id].sha1)
    ensures NoOrphans(s') && forall k :: k in s'.files ==> s'.files[k].sha1 in s'.sources
  {
    NamedAfterSave(s, id, WithContentOf(s.files[id], s.files[newId]), s');
    forall k | k in s'.files
      ensures s'.files[k].sha1 in s'.sources
    {
      assert IsNamed(swapped.files, s'.files[k].sha1);
    }
  }

  lemma SwapInherits(s: Store, id: FileId, newId: FileId, s': Store)
    requires id in s.files && newId in s.files && s.contents.Keys == s.files.Keys
    requires forall k :: k in s.files ==> s.files[k].id == k
    requires s'.files == s.files[id := WithContentOf(s.files[id], s.files[newId])] && s'.contents == s.contents[id := s.contents[newId]]
    ensures Inherits(s, newId, s', id)
    ensures forall k :: k in s.files && k != id ==> Inherits(s, k, s', k)
  {
  }

  lemma ReplaceKeepsInv(cfg: Config, s: Store, id: FileId, newId: FileId, deleteNew: bool, now: int)
    requires StoreInv(cfg, s)
    ensures StoreInv(cfg, AfterReplace(s, id, newId, deleteNew, now))
  {
    if ReplaceError(s, id, newId, now).None? {
      SwapKeepsInv(cfg, s, id, newId);
      MarkedDeletedKeepsInv(cfg, AfterReplace(s, id, newId, false, now), newId);
    }
  }

  lemma DuplicateKeepsInv(cfg: Config, s: Store, id: FileId, newId: FileId, changes: bv8, newName: string,
                          params: UploadParameters, now: int)
    requires StoreInv(cfg, s) && newId !in s.files
    ensures StoreInv(cfg, AfterDuplicate(s, id, newId, changes, newName, params, now))
  {
    if GetFile(s.files, s.sources, id, now).Some? {
      var copy := DuplicateOf(s.files[id], newId, changes, newName, params);
      assert copy.id == newId && copy.sha1 == s.files[id].sha1 && copy.encryption == s.files[id].encryption;
      CopyKeepsInv(cfg, s, id, copy);
    }
  }

  /** Dropping entries, with the sources nobody names any more, keeps the rest sound. */
  lemma DropKeepsInv(cfg: Config, s: Store, s': Store)
    requires StoreInv(cfg, s)
    requires forall id :: id in s'.files ==> id in s.files && s'.files[id] == s.files[id]
    requires s'.contents.Keys == s'.files.Keys
    requires forall id :: id in s'.contents ==> id in s.contents && s'.contents[id] == s.contents[id]
    requires s'.sources == KeptSources(s.sources, s.files, s'.files)
    ensures StoreInv(cfg, s')
  {
    forall id | id in s'.files ensures s'.files[id].sha1 in s'.sources {
      assert IsNamed(s'.files, s'.files[id].sha1);
    }
    forall h | h in s'.sources ensures IsNamed(s'.files, h) {
      assert IsNamed(s.files, h);
    }
  }

  lemma SweptKeepsInv(cfg: Config, s: Store, now: int)
    requires StoreInv(cfg, s)
    ensures StoreInv(cfg, Swept(s, now))
  {
    DropKeepsInv(cfg, s, Swept(s, now));
  }
}
