/**
 What the file-serving operations do to the store as a whole: the metadata table, the stored sources and
 the download statuses. Each function is the effect of one operation that runs without interruption.
 */
module FileStore {
  import opened Wrappers
  import opened Encryption
  import opened Models
  import opened Database
  import opened DownloadStatuses

  datatype Config = Config(level: Level, salt: Bytes, master: Key, maxFileSizeMB: nat)

  type Sources = map<Hash, Blob>

  /** `contents` remembers, for the claims only, what was uploaded or swapped in under each id. */
  datatype Store = Store(files: Rows, sources: Sources, statuses: StatusMap, contents: map<FileId, Bytes>)

  datatype Error = FileTooLarge | SizeMismatch | ReplaceE2EFile | FileNotFound

  const EMPTY_STORE := Store(map[], map[], map[], map[])

  /** Some entry names the source. */
  predicate IsNamed(files: Rows, hash: Hash) {
    exists id :: id in files && files[id].sha1 == hash
  }

  /** No stored source is left without an entry. */
  ghost predicate NoOrphans(s: Store) {
    forall h {:trigger IsNamed(s.files, h)} :: h in s.sources ==> IsNamed(s.files, h)
  }

  /** What a download of the file sends: decrypted where the server decrypts, the stored bytes otherwise. */
  function Served(cfg: Config, file: File, blob: Blob): Option<Blob> {
    if file.encryption.isEncrypted && !file.RequiresClientDecryption() then
      match Decrypt(cfg.master, file.encryption, blob)
      case None => None
      case Some(content) => Some(Plain(content))
    else Some(blob)
  }

  /** The file that GetFile finds, if any. */
  function GetFile(files: Rows, sources: Sources, id: FileId, now: int): Option<File> {
    if id == NO_ID || id !in files then None
    else
      var file := files[id];
      if file.IsPendingForDeletion() || IsExpiredFile(file, now) || file.sha1 !in sources then None else Some(file)
  }

  // ---------------------------------------------------------------- uploads

  function CreateNewMetaData(cfg: Config, id: FileId, hash: Hash, header: FileHeader, userId: UserId,
                             params: UploadParameters, now: int): File
  {
    var encryption :=
      if params.isEndToEndEncrypted then EMPTY_INFO.(isEndToEndEncrypted := true, isEncrypted := true) else EMPTY_INFO;
    File(id, header.filename, hash, params.passwordHash, header.contentType, params.fileRequestId,
         params.expiryTimestamp, 0, header.size, now, params.allowedDownloads, 0, userId,
         if IsEncryptionRequested(cfg.level) then encryption.(isEncrypted := true) else encryption,
         params.unlimitedDownload, params.unlimitedTime)
  }

  /** The hash of an upload that went through chunks; `random` is the freshly generated random name. */
  function ChunkFileHash(cfg: Config, content: Bytes, isEndToEndEncrypted: bool, random: nat): Hash {
    if isEndToEndEncrypted then Random(random)
    else HashFile(content, cfg.salt, IsEncryptionRequested(cfg.level))
  }

  /** The stored bytes and the metadata of an upload whose source is not there yet. */
  function FreshBlob(cfg: Config, content: Bytes, key: Key): Blob {
    if IsEncryptionRequested(cfg.level) then Cipher(key, content) else Plain(content)
  }

  function FreshInfo(cfg: Config, info: EncryptionInfo, key: Key, nonce: Nonce): EncryptionInfo {
    if IsEncryptionRequested(cfg.level) then EncryptInfo(info, cfg.master, key, nonce) else info
  }

  /**
   The source can be shared: it is stored and, if the server encrypts, some entry knows its key. A source
   without an entry is stored again.
   */
  predicate IsReusable(cfg: Config, files: Rows, sources: Sources, hash: Hash) {
    hash in sources && (IsNamed(files, hash) || !IsEncryptionRequested(cfg.level))
  }

  /** The encryption info of some entry that shares the source; any of them, as far as this model knows. */
  ghost function DonorInfo(cfg: Config, files: Rows, hash: Hash): EncryptionInfo
    requires IsNamed(files, hash) || !IsEncryptionRequested(cfg.level)
  {
    if IsEncryptionRequested(cfg.level) then
      var id :| id in files && files[id].sha1 == hash;
      files[id].encryption
    else EMPTY_INFO
  }

  /** Saving an upload, deduplicated against the stored sources. `newInfo` is its info if it has to be stored. */
  ghost function AfterUpload(cfg: Config, s: Store, file: File, content: Bytes, key: Key, newInfo: EncryptionInfo): Store {
    var isStored := IsReusable(cfg, s.files, s.sources, file.sha1);
    var info := if isStored then DonorInfo(cfg, s.files, file.sha1) else newInfo;
    Store(s.files[file.id := file.(encryption := info)],
          if isStored then s.sources else s.sources[file.sha1 := FreshBlob(cfg, content, key)],
          s.statuses,
          s.contents[file.id := content])
  }

  /** NewFile: the content decides the hash, and the end-to-end flag of the request is overwritten. */
  ghost function AfterNewFile(cfg: Config, s: Store, id: FileId, header: FileHeader, content: Bytes, userId: UserId,
                              params: UploadParameters, key: Key, nonce: Nonce, now: int): Store
  {
    if !IsAllowedFileSize(cfg.maxFileSizeMB, header.size) then s
    else
      var hash := HashFile(content, cfg.salt, IsEncryptionRequested(cfg.level));
      var file := CreateNewMetaData(cfg, id, hash, header, userId, params, now);
      AfterUpload(cfg, s, file, content, key, FreshInfo(cfg, EMPTY_INFO, key, nonce))
  }

  /** NewFileFromChunk, for a chunk file that is there. */
  ghost function AfterNewFileFromChunk(cfg: Config, s: Store, id: FileId, header: FileHeader, content: Bytes,
                                       userId: UserId, params: UploadParameters, key: Key, nonce: Nonce,
                                       random: nat, now: int): Store
  {
    if !IsAllowedFileSize(cfg.maxFileSizeMB, header.size) || |content| != header.size then s
    else
      var hash := ChunkFileHash(cfg, content, params.isEndToEndEncrypted, random);
      var file := CreateNewMetaData(cfg, id, hash, header, userId, params, now);
      AfterUpload(cfg, s, file, content, key, FreshInfo(cfg, file.encryption, key, nonce))
  }

  // ---------------------------------------------------------------- replacing and duplicating

  function WithContentOf(file: File, newContent: File): File {
    file.(name := newContent.name, sha1 := newContent.sha1, contentType := newContent.contentType,
    sizeBytes := newContent.sizeBytes, encryption := newContent.encryption)
  }

  /** Deletes the source unless an entry still points at it. */
  function WithoutUnreferenced(s: Store, hash: Hash): Store {
    if IsNamed(s.files, hash) then s else s.(sources := s.sources - {hash})
  }

  function MarkedDeleted(s: Store, id: FileId): Store {
    if id == NO_ID || id !in s.files then s
    else
      s.(files := s.files[id := s.files[id].(expireAt := 0, unlimitedTime := false)],
      statuses := WithoutFile(s.statuses, id))
  }

  function ReplaceError(s: Store, id: FileId, newId: FileId, now: int): Option<Error> {
    var file, newContent := GetFile(s.files, s.sources, id, now), GetFile(s.files, s.sources, newId, now);
    if file.None? || newContent.None? then Some(FileNotFound)
    else if file.value.encryption.isEndToEndEncrypted || newContent.value.encryption.isEndToEndEncrypted then
      Some(ReplaceE2EFile)
    else None
  }

  function AfterReplace(s: Store, id: FileId, newId: FileId, deleteNew: bool, now: int): Store
    requires s.contents.Keys == s.files.Keys
  {
    if ReplaceError(s, id, newId, now).Some? then s
    else
      var swapped := s.(files := s.files[id := WithContentOf(s.files[id], s.files[newId])],
                        contents := s.contents[id := s.contents[newId]]);
      var cleaned := WithoutUnreferenced(swapped, s.files[id].sha1);
      if deleteNew then MarkedDeleted(cleaned, newId) else cleaned
  }

  const PARAM_EXPIRY: bv8 := 1
  const PARAM_DOWNLOADS: bv8 := 2
  const PARAM_PASSWORD: bv8 := 4
  const PARAM_NAME: bv8 := 8

  predicate IsChangeRequested(parametersToChange: bv8, parameter: bv8) {
    parametersToChange & parameter != 0
  }

  function DuplicateOf(file: File, newId: FileId, changes: bv8, newName: string, params: UploadParameters): File {
    var f1 := if IsChangeRequested(changes, PARAM_EXPIRY)
              then file.(expireAt := params.expiryTimestamp, unlimitedTime := params.unlimitedTime) else file;
    var f2 := if IsChangeRequested(changes, PARAM_DOWNLOADS)
              then f1.(downloadsRemaining := params.allowedDownloads, unlimitedDownloads := params.unlimitedDownload)
              else f1;
    var f3 := if IsChangeRequested(changes, PARAM_PASSWORD) then f2.(passwordHash := params.passwordHash) else f2;
    var f4 := if IsChangeRequested(changes, PARAM_NAME) then f3.(name := newName) else f3;
    f4.(id := newId, downloadCount := 0, userId := params.userId)
  }

  function AfterDuplicate(s: Store, id: FileId, newId: FileId, changes: bv8, newName: string,
                          params: UploadParameters, now: int): Store
    requires s.contents.Keys == s.files.Keys
  {
    var file := GetFile(s.files, s.sources, id, now);
    if file.None? then s
    else s.(files := s.files[newId := DuplicateOf(file.value, newId, changes, newName, params)],
            contents := s.contents[newId := s.contents[id]])
  }

  // ---------------------------------------------------------------- deletion

  function AfterSchedule(s: Store, id: FileId, deletionTime: int): Store {
    if id == NO_ID || id !in s.files then s
    else s.(files := s.files[id := s.files[id].(pendingDeletion := deletionTime)])
  }

  /** The timer of a scheduled deletion acts only if the schedule was not changed meanwhile. */
  function AfterScheduleTimer(s: Store, id: FileId, deletionTime: int): Store {
    if id in s.files && s.files[id].pendingDeletion == deletionTime then MarkedDeleted(s, id) else s
  }

  // ---------------------------------------------------------------- clean-up

  predicate IsExpiredFileWithoutDownload(file: File, statuses: StatusMap, now: int) {
    !IsCurrentlyDownloading(statuses, file.id, now) && IsExpiredFile(file, now)
  }

  /** An entry that CleanUp leaves alone. */
  predicate Keeps(s: Store, file: File, now: int) {
    && file.sha1 in s.sources
    && !IsExpiredFileWithoutDownload(file, s.statuses, now)
    && !IsPendingToBeDeleted(file, now)
  }

  function KeptFiles(s: Store, now: int): Rows {
    map id | id in s.files && Keeps(s, s.files[id], now) :: s.files[id]
  }

  /** The sources left once `files` shrank to `kept`: those no entry ever named stay as they are. */
  function KeptSources(sources: Sources, files: Rows, kept: Rows): Sources {
    map h | h in sources && (IsNamed(kept, h) || !IsNamed(files, h)) :: sources[h]
  }

  /** CleanUp at a fixed time, recursion included. */
  function Swept(s: Store, now: int): Store {
    var kept := KeptFiles(s, now);
    Store(kept, KeptSources(s.sources, s.files, kept), Cleaned(s.statuses, now),
          map id | id in s.contents && id in kept :: s.contents[id])
  }
}
