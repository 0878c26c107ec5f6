/** Claims about every run of the file store, from an empty server on. */
module FileStoreRuns {
  import opened Wrappers
  import opened Encryption
  import opened Models
  import opened Database
  import opened DownloadStatuses
  import opened FileStore
  import opened FileStoreInvariant
  import opened FileStoreEffects

  datatype Step =
    | UploadFile(id: FileId, header: FileHeader, content: Bytes, userId: UserId, params: UploadParameters, key: Key, nonce: Nonce)
    | UploadChunks(id: FileId, header: FileHeader, content: Bytes, userId: UserId, params: UploadParameters, key: Key,
                   nonce: Nonce, random: nat)
    | Replace(id: FileId, newId: FileId, deleteNew: bool)
    | Duplicate(id: FileId, newId: FileId, changes: bv8, newName: string, params: UploadParameters)
    | Delete(id: FileId)
    | Schedule(id: FileId, deletionTime: int)
    | ScheduleTimer(id: FileId, deletionTime: int)
    | Restore(id: FileId)
    | CleanUp
    | StartDownload(id: FileId, statusId: string)
    | FinishDownload(statusId: string)

  /** A step and the time it happens at. */
  datatype Event = At(now: int, step: Step)

  /** Freshly generated ids and names are not in use. */
  predicate Enabled(s: Store, step: Step) {
    match step
    case UploadFile(id, _, _, _, _, _, _) => id !in s.files
    case UploadChunks(id, _, _, _, _, _, _, random) => id !in s.files && Random(random) !in s.sources
    case Duplicate(_, newId, _, _, _) => newId !in s.files
    case StartDownload(_, statusId) => statusId !in s.statuses
    case _ => true
  }

  ghost function Apply(cfg: Config, s: Store, event: Event): Store
    requires StoreInv(cfg, s)
  {
    var now := event.now;
    if !Enabled(s, event.step) then s
    else
      match event.step
      case UploadFile(id, header, content, userId, params, key, nonce) =>
        AfterNewFile(cfg, s, id, header, content, userId, params, key, nonce, now)
      case UploadChunks(id, header, content, userId, params, key, nonce, random) =>
        AfterNewFileFromChunk(cfg, s, id, header, content, userId, params, key, nonce, random, now)
      case Replace(id, newId, deleteNew) => AfterReplace(s, id, newId, deleteNew, now)
      case Duplicate(id, newId, changes, newName, params) => AfterDuplicate(s, id, newId, changes, newName, params, now)
      case Delete(id) => MarkedDeleted(s, id)
      case Schedule(id, deletionTime) => AfterSchedule(s, id, deletionTime)
      case ScheduleTimer(id, deletionTime) => AfterScheduleTimer(s, id, deletionTime)
      case Restore(id) => AfterSchedule(s, id, 0)
      case CleanUp => Swept(s, now)
      case StartDownload(id, statusId) => s.(statuses := Started(s.statuses, statusId, id, now))
      case FinishDownload(statusId) => s.(statuses := s.statuses - {statusId})
  }

  lemma ApplyKeepsInv(cfg: Config, s: Store, event: Event)
    requires StoreInv(cfg, s)
    ensures StoreInv(cfg, Apply(cfg, s, event))
  {
    var now := event.now;
    if Enabled(s, event.step) {
      match event.step
      case UploadFile(id, header, content, userId, params, key, nonce) =>
        NewFileKeepsInv(cfg, s, id, header, content, userId, params, key, nonce, now);
      case UploadChunks(id, header, content, userId, params, key, nonce, random) =>
        NewFileFromChunkKeepsInv(cfg, s, id, header, content, userId, params, key, nonce, random, now);
      case Replace(id, newId, deleteNew) => ReplaceKeepsInv(cfg, s, id, newId, deleteNew, now);
      case Duplicate(id, newId, changes, newName, params) =>
        DuplicateKeepsInv(cfg, s, id, newId, changes, newName, params, now);
      case Delete(id) => MarkedDeletedKeepsInv(cfg, s, id);
      case Schedule(id, deletionTime) => ScheduleKeepsInv(cfg, s, id, deletionTime);
      case ScheduleTimer(id, deletionTime) => MarkedDeletedKeepsInv(cfg, s, id);
      case Restore(id) => ScheduleKeepsInv(cfg, s, id, 0);
      case CleanUp => SweptKeepsInv(cfg, s, now);
      case StartDownload(id, statusId) => StatusesKeepInv(cfg, s, Started(s.statuses, statusId, id, now));
      case FinishDownload(statusId) => StatusesKeepInv(cfg, s, s.statuses - {statusId});
    }
  }

  lemma StatusesKeepInv(cfg: Config, s: Store, statuses: StatusMap)
    requires StoreInv(cfg, s)
    ensures StoreInv(cfg, s.(statuses := statuses))
  {
  }

  ghost function Run(cfg: Config, s: Store, events: seq<Event>): (s': Store)
    requires StoreInv(cfg, s)
    ensures StoreInv(cfg, s')
    decreases |events|
  {
    if events == [] then s
    else
      ApplyKeepsInv(cfg, s, events[0]);
      Run(cfg, Apply(cfg, s, events[0]), events[1..])
  }


  /**
   Main theorem: after any run the stored sources are exactly those the metadata names, every entry opens
   its source with the key and nonce it holds, entries of one source hold the same key and nonce, and every
   entry is served as its content, save end-to-end uploads to a server that encrypts.
   */
  lemma EveryRunIsSound(cfg: Config, events: seq<Event>)
    ensures var s := Run(cfg, EMPTY_STORE, events);
            && s.sources.Keys == (set id | id in s.files :: s.files[id].sha1)
            && (forall a, b :: a in s.files && b in s.files && s.files[a].sha1 == s.files[b].sha1 ==>
                                 s.files[a].encryption == s.files[b].encryption)
            && s.contents.Keys == s.files.Keys
            && (forall id :: id in s.files ==>
                  var blob := s.sources[s.files[id].sha1];
                  && (blob.Cipher? ==> GetCipherFromFile(cfg.master, s.files[id].encryption) == Some(blob.key))
                  && (blob.Cipher? <==> IsEncryptionRequested(cfg.level))
                  && (!s.files[id].encryption.isEndToEndEncrypted || !IsEncryptionRequested(cfg.level) ==>
                        Served(cfg, s.files[id], blob) == Some(Plain(s.contents[id]))))
  {
    var s := Run(cfg, EMPTY_STORE, events);
    var named := set id | id in s.files :: s.files[id].sha1;
    forall h | h in s.sources ensures h in named {
      assert IsNamed(s.files, h);
    }
    forall id | id in s.files {
      ServedIsContent(cfg, s, id);
    }
  }

  /** The exception: the first upload to a server that encrypts, already encrypted by the browser, is sent out encrypted again. */
  lemma AnEndToEndUploadIsEncryptedTwice(cfg: Config, id: FileId, header: FileHeader, content: Bytes, params: UploadParameters,
                                         key: Key, nonce: Nonce, random: nat, now: int)
    requires IsEncryptionRequested(cfg.level) && params.isEndToEndEncrypted
    requires header.size == |content| && IsAllowedFileSize(cfg.maxFileSizeMB, header.size)
    ensures var s := Run(cfg, EMPTY_STORE, [At(now, UploadChunks(id, header, content, params.userId, params, key, nonce, random))]);
            && id in s.files && s.files[id].sha1 in s.sources
            && Served(cfg, s.files[id], s.sources[s.files[id].sha1]) == Some(Cipher(key, content))
  {
    var event := At(now, UploadChunks(id, header, content, params.userId, params, key, nonce, random));
    var s := Apply(cfg, EMPTY_STORE, event);
    ApplyKeepsInv(cfg, EMPTY_STORE, event);
    assert Run(cfg, EMPTY_STORE, [event]) == Run(cfg, s, []) == s by {
      assert [event][1..] == [];
    }
    ServedIsContent(cfg, s, id);
  }

  /** The content under an id changes only when a replacement swaps it in; everything else leaves it alone. */
  lemma ContentChangesOnlyBySwap(cfg: Config, s: Store, event: Event, id: FileId)
    requires StoreInv(cfg, s) && id in s.files
    ensures var s' := Apply(cfg, s, event);
            id in s'.contents ==>
              s'.contents[id] ==
              if event.step.Replace? && event.step.id == id && ReplaceError(s, id, event.step.newId, event.now).None?
              then s.contents[event.step.newId] else s.contents[id]
  {
    if event.step.Replace? {
      ReplacedContent(cfg, s, event.step.id, event.step.newId, event.step.deleteNew, event.now, id);
    }
  }

  lemma ReplacedContent(cfg: Config, s: Store, replaced: FileId, newId: FileId, deleteNew: bool, now: int, id: FileId)
    requires StoreInv(cfg, s) && id in s.files
    ensures var s' := AfterReplace(s, replaced, newId, deleteNew, now);
            id in s'.contents && s'.contents[id] ==
              if replaced == id && ReplaceError(s, id, newId, now).None? then s.contents[newId] else s.contents[id]
  {
  }

  /** A new id gets the uploaded content, or the content of the file it duplicates. */
  lemma NewContentIsUploaded(cfg: Config, s: Store, event: Event, id: FileId)
    requires StoreInv(cfg, s) && id !in s.files && id in Apply(cfg, s, event).files
    ensures var content := Apply(cfg, s, event).contents[id];
            match event.step
            case UploadFile(newId, _, uploaded, _, _, _, _) => id == newId && content == uploaded
            case UploadChunks(newId, _, uploaded, _, _, _, _, _) => id == newId && content == uploaded
            case Duplicate(from, newId, _, _, _) => id == newId && from in s.contents && content == s.contents[from]
            case _ => false
  {
  }

  // ---------------------------------------------------------------- downloads in progress

  /** The step does not end the download or delete the file, nor find its scheduled deletion due. */
  predicate Harmless(s: Store, id: FileId, statusId: string, deadline: int, event: Event) {
    var At(now, step) := event;
    && now < deadline
    && step != FinishDownload(statusId)
    && step != Delete(id)
    && !(step.Replace? && step.deleteNew && step.newId == id)
    && !(step.ScheduleTimer? && step.id == id)
    && (step.CleanUp? && id in s.files ==> !IsPendingToBeDeleted(s.files[id], now))
  }

  ghost predicate Undisturbed(cfg: Config, s: Store, id: FileId, statusId: string, deadline: int, events: seq<Event>)
    requires StoreInv(cfg, s)
    decreases |events|
  {
    events == [] ||
    (&& Harmless(s, id, statusId, deadline, events[0])
     && (ApplyKeepsInv(cfg, s, events[0]);
         Undisturbed(cfg, Apply(cfg, s, events[0]), id, statusId, deadline, events[1..])))
  }

  ghost predicate IsProtected(s: Store, id: FileId, statusId: string, deadline: int) {
    && id in s.files
    && statusId in s.statuses && s.statuses[statusId] == DownloadStatus(statusId, id, deadline)
  }

  lemma ApplyKeepsProtection(cfg: Config, s: Store, id: FileId, statusId: string, deadline: int, event: Event)
    requires StoreInv(cfg, s) && IsProtected(s, id, statusId, deadline)
    requires Harmless(s, id, statusId, deadline, event)
    ensures IsProtected(Apply(cfg, s, event), id, statusId, deadline)
  {
    if event.step.CleanUp? {
      assert IsCurrentlyDownloading(s.statuses, id, event.now);
    }
  }

  /** The entry still has its source, with the same bytes. */
  ghost predicate HasSameSource(s: Store, s': Store, id: FileId)
    requires id in s.files && id in s'.files && s.files[id].sha1 in s.sources
  {
    && s'.files[id].sha1 == s.files[id].sha1
    && s.files[id].sha1 in s'.sources
    && s'.sources[s.files[id].sha1] == s.sources[s.files[id].sha1]
  }

  lemma UploadKeepsSource(cfg: Config, s: Store, file: File, content: Bytes, key: Key, newInfo: EncryptionInfo, id: FileId)
    requires StoreInv(cfg, s) && id in s.files && file.id !in s.files
    ensures HasSameSource(s, AfterUpload(cfg, s, file, content, key, newInfo), id)
  {
    assert IsNamed(s.files, s.files[id].sha1);
  }

  lemma MarkedDeletedKeepsSource(s: Store, marked: FileId, id: FileId)
    requires id in s.files && s.files[id].sha1 in s.sources
    ensures HasSameSource(s, MarkedDeleted(s, marked), id)
  {
  }

  lemma ReplaceKeepsSource(cfg: Config, s: Store, other: FileId, newId: FileId, deleteNew: bool, now: int, id: FileId)
    requires StoreInv(cfg, s) && id in s.files && other != id
    ensures HasSameSource(s, AfterReplace(s, other, newId, deleteNew, now), id)
  {
    if ReplaceError(s, other, newId, now).None? {
      var swapped := s.files[other := WithContentOf(s.files[other], s.files[newId])];
      assert swapped[id].sha1 == s.files[id].sha1 && IsNamed(swapped, s.files[id].sha1);
      var cleaned := AfterReplace(s, other, newId, false, now);
      assert HasSameSource(s, cleaned, id);
      MarkedDeletedKeepsSource(cleaned, newId, id);
    }
  }

  lemma SweptKeepsSource(s: Store, now: int, id: FileId)
    requires id in Swept(s, now).files && s.files[id].sha1 in s.sources
    ensures HasSameSource(s, Swept(s, now), id)
  {
    assert IsNamed(KeptFiles(s, now), s.files[id].sha1);
  }

  lemma ScheduleKeepsSource(s: Store, scheduled: FileId, deletionTime: int, id: FileId)
    requires id in s.files && s.files[id].sha1 in s.sources
    ensures HasSameSource(s, AfterSchedule(s, scheduled, deletionTime), id)
  {
  }

  predicate IsCopyStep(step: Step) {
    step.UploadFile? || step.UploadChunks? || step.Replace? || step.Duplicate?
  }

  lemma CopiesKeepSource(cfg: Config, s: Store, id: FileId, event: Event)
    requires StoreInv(cfg, s) && id in s.files && id in Apply(cfg, s, event).files && IsCopyStep(event.step)
    requires !(event.step.Replace? && event.step.id == id)
    ensures HasSameSource(s, Apply(cfg, s, event), id)
  {
    if Enabled(s, event.step) {
      match event.step
      case UploadFile(newId, header, content, userId, params, key, nonce) =>
        NewFileKeepsSource(cfg, s, newId, header, content, userId, params, key, nonce, event.now, id);
      case UploadChunks(newId, header, content, userId, params, key, nonce, random) =>
        NewFileFromChunkKeepsSource(cfg, s, newId, header, content, userId, params, key, nonce, random, event.now, id);
      case Replace(other, newId, deleteNew) => ReplaceKeepsSource(cfg, s, other, newId, deleteNew, event.now, id);
      case _ =>
    }
  }

  /** Nothing but a replacement of the entry changes which source it has, and nothing changes a source that is named. */
  lemma ApplyKeepsSource(cfg: Config, s: Store, id: FileId, event: Event)
    requires StoreInv(cfg, s) && id in s.files && id in Apply(cfg, s, event).files
    requires !(event.step.Replace? && event.step.id == id)
    ensures HasSameSource(s, Apply(cfg, s, event), id)
  {
    if IsCopyStep(event.step) {
      CopiesKeepSource(cfg, s, id, event);
    } else if Enabled(s, event.step) {
      match event.step
      case Delete(marked) => MarkedDeletedKeepsSource(s, marked, id);
      case Schedule(scheduled, deletionTime) => ScheduleKeepsSource(s, scheduled, deletionTime, id);
      case ScheduleTimer(marked, deletionTime) => MarkedDeletedKeepsSource(s, marked, id);
      case Restore(restored) => ScheduleKeepsSource(s, restored, 0, id);
      case CleanUp => SweptKeepsSource(s, event.now, id);
      case _ =>
    }
  }

  lemma NewFileKeepsSource(cfg: Config, s: Store, newId: FileId, header: FileHeader, content: Bytes, userId: UserId,
                           params: UploadParameters, key: Key, nonce: Nonce, now: int, id: FileId)
    requires StoreInv(cfg, s) && id in s.files && newId !in s.files
    ensures HasSameSource(s, AfterNewFile(cfg, s, newId, header, content, userId, params, key, nonce, now), id)
  {
    assert IsNamed(s.files, s.files[id].sha1);
  }

  lemma NewFileFromChunkKeepsSource(cfg: Config, s: Store, newId: FileId, header: FileHeader, content: Bytes, userId: UserId,
                                    params: UploadParameters, key: Key, nonce: Nonce, random: nat, now: int, id: FileId)
    requires StoreInv(cfg, s) && id in s.files && newId !in s.files
    ensures HasSameSource(s, AfterNewFileFromChunk(cfg, s, newId, header, content, userId, params, key, nonce, random, now), id)
  {
    var hash := ChunkFileHash(cfg, content, params.isEndToEndEncrypted, random);
    var file := CreateNewMetaData(cfg, newId, hash, header, userId, params, now);
    UploadKeepsSource(cfg, s, file, content, key, FreshInfo(cfg, file.encryption, key, nonce), id);
  }

  predicate NeverReplaces(id: FileId, events: seq<Event>) {
    forall k :: 0 <= k < |events| ==> !(events[k].step.Replace? && events[k].step.id == id)
  }

  /**
   From the start of a download until it completes or 24 hours have passed, no run removes the entry or its
   source, however often it is cleaned up in between, unless somebody deletes the file. The source is the one
   that is being sent, unchanged, unless somebody replaces the file.
   */
  lemma {:induction false} DownloadKeepsFile(cfg: Config, s: Store, id: FileId, statusId: string, deadline: int, events: seq<Event>)
    requires StoreInv(cfg, s) && IsProtected(s, id, statusId, deadline)
    requires Undisturbed(cfg, s, id, statusId, deadline, events)
    ensures var s' := Run(cfg, s, events);
            && id in s'.files && s'.files[id].sha1 in s'.sources && s'.contents.Keys == s'.files.Keys
            && IsProtected(s', id, statusId, deadline)
            && s.files[id].sha1 in s.sources
            && (NeverReplaces(id, events) ==>
                  s'.files[id].sha1 == s.files[id].sha1 && s'.sources[s'.files[id].sha1] == s.sources[s.files[id].sha1])
    decreases |events|
  {
    if events == [] {
    } else {
      ApplyKeepsInv(cfg, s, events[0]);
      ApplyKeepsProtection(cfg, s, id, statusId, deadline, events[0]);
      if NeverReplaces(id, events) {
        ApplyKeepsSource(cfg, s, id, events[0]);
      }
      DownloadKeepsFile(cfg, Apply(cfg, s, events[0]), id, statusId, deadline, events[1..]);
    }
  }

  /** Starting a download gives the protection that DownloadKeepsFile needs, for 24 hours. */
  lemma StartProtects(cfg: Config, s: Store, id: FileId, statusId: string, now: int)
    requires StoreInv(cfg, s) && id in s.files && statusId !in s.statuses
    ensures IsProtected(Apply(cfg, s, At(now, StartDownload(id, statusId))), id, statusId, now + 86400)
  {
  }

  /** A clean-up removes a file exactly if it is due: deleted for good, or expired without a download that still runs. */
  lemma CleanUpRemovesExactlyTheDue(cfg: Config, s: Store, id: FileId, now: int)
    requires StoreInv(cfg, s) && id in s.files
    ensures id in Apply(cfg, s, At(now, CleanUp)).files <==>
            var file := s.files[id];
            && (file.pendingDeletion == 0 || file.pendingDeletion >= now)
            && (IsCurrentlyDownloading(s.statuses, id, now)
                || ((file.unlimitedTime || file.expireAt >= now) && (file.unlimitedDownloads || file.downloadsRemaining >= 1)))
  {
    assert IsNamed(s.files, s.files[id].sha1);
  }

  /** The source of a file outlives a clean-up exactly if some entry still uses it. */
  lemma CleanUpKeepsExactlyTheUsedSources(cfg: Config, s: Store, id: FileId, now: int)
    requires StoreInv(cfg, s) && id in s.files
    ensures var s' := Apply(cfg, s, At(now, CleanUp));
            s.files[id].sha1 in s'.sources <==> IsNamed(s'.files, s.files[id].sha1)
  {
    assert IsNamed(s.files, s.files[id].sha1);
  }

  // ---------------------------------------------------------------- what the steps of a run do

  /** Uploads that are allowed are there afterwards. */
  lemma UploadStepsTakeEffect(cfg: Config, s: Store, id: FileId, header: FileHeader, content: Bytes, userId: UserId,
                              params: UploadParameters, key: Key, nonce: Nonce, random: nat, now: int)
    requires StoreInv(cfg, s) && id != NO_ID && id !in s.files && Random(random) !in s.sources
    requires header.size <= cfg.maxFileSizeMB * 1_048_576
    ensures var s' := Apply(cfg, s, At(now, UploadFile(id, header, content, userId, params, key, nonce)));
            IsUploaded(s, s', id, header, content, userId, params, now)
    ensures var s' := Apply(cfg, s, At(now, UploadChunks(id, header, content, userId, params, key, nonce, random)));
            |content| == header.size ==> IsUploaded(s, s', id, header, content, userId, params, now)
  {
    AnUploadIsFound(cfg, s, id, header, content, userId, params, key, nonce, now);
    AChunkUploadIsFound(cfg, s, id, header, content, userId, params, key, nonce, random, now);
  }

  /** So are replacements. */
  lemma ReplaceStepsTakeEffect(cfg: Config, s: Store, id: FileId, newId: FileId, now: int, t: int)
    requires StoreInv(cfg, s) && MayReplace(s, id, newId, now) && t > 0
    ensures IsSwapped(s, Apply(cfg, s, At(now, Replace(id, newId, false))), id, newId)
    ensures var s' := Apply(cfg, s, At(now, Replace(id, newId, true)));
            id in s'.contents && s'.contents[id] == s.contents[newId] && Found(s', newId, t).None?
  {
    AReplacementSwapsTheContent(s, id, newId, now);
    AReplacementMayDeleteTheOther(s, id, newId, now);
  }

  /** And duplicates. */
  lemma DuplicateStepsTakeEffect(cfg: Config, s: Store, id: FileId, newId: FileId, changes: bv8, newName: string, params: UploadParameters, now: int)
    requires StoreInv(cfg, s) && Found(s, id, now).Some? && newId != NO_ID && newId !in s.files
    ensures var s' := Apply(cfg, s, At(now, Duplicate(id, newId, changes, newName, params)));
            && OnlyAdds(s, s', newId) && newId in s'.contents && s'.contents[newId] == s.contents[id]
            && IsCopyOf(s.files[id], s'.files[newId], changes, newName, params)
  {
    ADuplicateIsFound(s, id, newId, changes, newName, params, now);
  }

  /** Deleted files are not found any more. */
  lemma DeletionStepsTakeEffect(cfg: Config, s: Store, id: FileId, now: int, t: int)
    requires StoreInv(cfg, s) && id != NO_ID && id in s.files && t > 0
    ensures Found(Apply(cfg, s, At(now, Delete(id))), id, t).None?
  {
    ADeletedFileIsGone(s, id, t);
  }

  lemma TimerStepsTakeEffect(cfg: Config, s: Store, id: FileId, now: int)
    requires StoreInv(cfg, s) && id in s.files
    ensures Apply(cfg, s, At(now, ScheduleTimer(id, s.files[id].pendingDeletion))) == Apply(cfg, s, At(now, Delete(id)))
  {
  }

  /** Nor are those scheduled for deletion. */
  lemma ScheduleStepsTakeEffect(cfg: Config, s: Store, id: FileId, deletionTime: int, now: int, t: int)
    requires StoreInv(cfg, s) && id != NO_ID && id in s.files && deletionTime != 0
    ensures Found(Apply(cfg, s, At(now, Schedule(id, deletionTime))), id, t).None?
  {
  }

  /** Cancelled deletions and finished downloads leave no trace. */
  lemma EndingStepsTakeEffect(cfg: Config, s: Store, id: FileId, statusId: string, now: int)
    requires StoreInv(cfg, s) && id != NO_ID && id in s.files
    ensures Apply(cfg, s, At(now, Restore(id))).files == s.files[id := s.files[id].(pendingDeletion := 0)]
    ensures Apply(cfg, s, At(now, FinishDownload(statusId))) == s.(statuses := s.statuses - {statusId})
  {
  }
}
