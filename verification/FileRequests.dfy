/**
 Uploads to file requests: how many there may be. The functions give the effect of each handler on the requests,
 the files and the reservations; the class below works on them in place.
 */
module FileRequests {
  import opened Wrappers
  import opened Models
  import opened Database
  import opened ChunkReservations

  datatype Uploads = Uploads(requests: map<RequestId, FileRequest>, files: Rows, reserved: Reservations)

  datatype Error = NotFound | InvalidApiKey | RequestExpired | CannotUploadMoreFiles | RateLimited | InvalidChunkReservation | FailedUpload

  datatype Outcome = Outcome(uploads: Uploads, error: Option<Error>)

  function Done(u: Uploads): Outcome {
    Outcome(u, None)
  }

  function Failed(u: Uploads, error: Error): Outcome {
    Outcome(u, Some(error))
  }

  predicate IsUploadOf(file: File, id: RequestId) {
    file.uploadRequestId == id && !file.IsPendingForDeletion()
  }

  function UploadedIds(files: Rows, id: RequestId): set<FileId> {
    set f | f in files && IsUploadOf(files[f], id)
  }

  function UploadedFiles(files: Rows, id: RequestId): nat {
    |UploadedIds(files, id)|
  }

  predicate IsUnlimitedFiles(request: FileRequest) {
    request.limits.maxFiles == 0
  }

  predicate IsUnlimitedTime(request: FileRequest) {
    request.limits.expiry == 0
  }

  /** How many more uploads may be started. */
  function FilesRemaining(u: Uploads, id: RequestId): (n: nat)
    requires id in u.requests
    ensures n > 0 ==> UploadedFiles(u.files, id) + Count(u.reserved, id) + n == u.requests[id].limits.maxFiles
    ensures n == 0 ==> UploadedFiles(u.files, id) + Count(u.reserved, id) >= u.requests[id].limits.maxFiles
  {
    var n := u.requests[id].limits.maxFiles - UploadedFiles(u.files, id) - Count(u.reserved, id);
    if n < 0 then 0 else n
  }

  /** What every handler of an upload to a file request checks first. */
  function RequestError(u: Uploads, id: RequestId, apiKey: KeyId, now: int): Option<Error> {
    if id !in u.requests then Some(NotFound)
    else
      var request := u.requests[id];
      if request.apiKey != apiKey then Some(InvalidApiKey)
      else if !IsUnlimitedTime(request) && request.limits.expiry < now then Some(RequestExpired)
      else if !IsUnlimitedFiles(request) && UploadedFiles(u.files, id) >= request.limits.maxFiles then Some(CannotUploadMoreFiles)
      else None
  }

  function AfterReserve(u: Uploads, id: RequestId, apiKey: KeyId, uuid: Uuid, isAllowedRate: bool, now: int): Outcome {
    var error := RequestError(u, id, apiKey, now);
    if error.Some? then Outcome(u, error)
    else if FilesRemaining(u, id) <= 0 && !IsUnlimitedFiles(u.requests[id]) then Failed(u, CannotUploadMoreFiles)
    else if IsUnlimitedFiles(u.requests[id]) && !isAllowedRate then Failed(u, RateLimited)
    else Done(u.(reserved := WithReservation(u.reserved, id, uuid, now + TIME_RESERVATION_WITHOUT_UPLOAD)))
  }

  /** A piece of a file; `sizeIsAllowed` and `isStored` are the results of the size checks and of writing the piece. */
  function AfterAdd(u: Uploads, id: RequestId, apiKey: KeyId, uuid: Uuid, sizeIsAllowed: bool, isStored: bool, now: int): Outcome {
    var error := RequestError(u, id, apiKey, now);
    if error.Some? then Outcome(u, error)
    else if !sizeIsAllowed then Failed(u, FailedUpload)
    else if !MayUpload(u.reserved, id, uuid, now) then Failed(u, InvalidChunkReservation)
    else Outcome(u.(reserved := AfterUploading(u.reserved, id, uuid, now)), if isStored then None else Some(FailedUpload))
  }

  /** The file is complete; `file` is its new record, or nothing if the chunk file was not accepted. */
  function AfterComplete(u: Uploads, id: RequestId, apiKey: KeyId, uuid: Uuid, file: Option<File>, now: int): Outcome {
    var error := RequestError(u, id, apiKey, now);
    if error.Some? then Outcome(u, error)
    else if file.None? then Failed(u, FailedUpload)
    else Done(u.(files := u.files[file.value.id := file.value.(uploadRequestId := id)],
                 reserved := WithoutReservation(u.reserved, id, uuid)))
  }

  function AfterUnreserve(u: Uploads, id: RequestId, apiKey: KeyId, uuid: Uuid, now: int): Outcome {
    var error := RequestError(u, id, apiKey, now);
    if error.Some? then Outcome(u, error)
    else Done(u.(reserved := WithoutReservation(u.reserved, id, uuid)))
  }

  lemma AFileIsVisited(files: Rows, id: RequestId, todo: set<FileId>, f: FileId)
    requires f in todo && f in files
    ensures |UploadedIds(files, id) - (todo - {f})| == |UploadedIds(files, id) - todo| + if IsUploadOf(files[f], id) then 1 else 0
  {
    var ids := UploadedIds(files, id);
    assert ids - (todo - {f}) == (ids - todo) + if IsUploadOf(files[f], id) then {f} else {};
  }

  class UploadApi {
    const requests: map<RequestId, FileRequest>
    const chunks: ReservedChunks
    const metadata: MetaDataTable

    constructor (requests: map<RequestId, FileRequest>, chunks: ReservedChunks, metadata: MetaDataTable)
      ensures this.requests == requests && this.chunks == chunks && this.metadata == metadata
    {
      this.requests, this.chunks, this.metadata := requests, chunks, metadata;
    }

    ghost function View(): Uploads
      reads chunks, metadata
    {
      Uploads(requests, metadata.rows, chunks.reserved)
    }

    /** Counts the uploads of a request in one pass over all files. */
    method Populate(id: RequestId) returns (uploadedFiles: nat, reservedUploads: nat)
      ensures uploadedFiles == UploadedFiles(metadata.rows, id) && reservedUploads == Count(chunks.reserved, id)
    {
      var files := metadata.GetAllMetadata();
      var fileIdList: seq<FileId> := [];
      var todo := files.Keys;
      while todo != {}
        invariant todo <= files.Keys
        invariant |fileIdList| == |UploadedIds(files, id) - todo|
        decreases |todo|
      {
        var f :| f in todo;
        if files[f].uploadRequestId == id && !files[f].IsPendingForDeletion() {
          fileIdList := fileIdList + [f];
        }
        AFileIsVisited(files, id, todo, f);
        todo := todo - {f};
      }
      assert UploadedIds(files, id) - {} == UploadedIds(files, id);
      uploadedFiles := |fileIdList|;
      reservedUploads := chunks.GetCount(id);
    }

    method CheckFileRequestAndApiKey(id: RequestId, apiKey: KeyId, now: int) returns (error: Option<Error>, filesRemaining: nat)
      ensures error == RequestError(View(), id, apiKey, now)
      ensures error.None? ==> filesRemaining == FilesRemaining(View(), id)
    {
      filesRemaining := 0;
      if id !in requests {
        return Some(NotFound), 0;
      }
      var request := requests[id];
      var uploadedFiles, reservedUploads := Populate(id);
      if request.apiKey != apiKey {
        return Some(InvalidApiKey), 0;
      }
      if !IsUnlimitedTime(request) && request.limits.expiry < now {
        return Some(RequestExpired), 0;
      }
      if !IsUnlimitedFiles(request) && uploadedFiles >= request.limits.maxFiles {
        return Some(CannotUploadMoreFiles), 0;
      }
      var n := request.limits.maxFiles - uploadedFiles - reservedUploads;
      return None, if n < 0 then 0 else n;
    }

    method ChunkReserve(id: RequestId, apiKey: KeyId, uuid: Uuid, isAllowedRate: bool, now: int) returns (error: Option<Error>)
      modifies chunks
      ensures Outcome(View(), error) == AfterReserve(old(View()), id, apiKey, uuid, isAllowedRate, now)
    {
      var filesRemaining;
      error, filesRemaining := CheckFileRequestAndApiKey(id, apiKey, now);
      if error.Some? {
        return;
      }
      if filesRemaining <= 0 && !IsUnlimitedFiles(requests[id]) {
        return Some(CannotUploadMoreFiles);
      }
      if IsUnlimitedFiles(requests[id]) && !isAllowedRate {
        return Some(RateLimited);
      }
      chunks.New(id, uuid, now);
    }

    method ChunkUnreserve(id: RequestId, apiKey: KeyId, uuid: Uuid, now: int) returns (error: Option<Error>)
      modifies chunks
      ensures Outcome(View(), error) == AfterUnreserve(old(View()), id, apiKey, uuid, now)
    {
      var remaining;
      error, remaining := CheckFileRequestAndApiKey(id, apiKey, now);
      if error.Some? {
        return;
      }
      chunks.SetComplete(id, uuid);
    }

    method ChunkUploadRequestAdd(id: RequestId, apiKey: KeyId, uuid: Uuid, sizeIsAllowed: bool, isStored: bool, now: int)
      returns (error: Option<Error>)
      modifies chunks
      ensures Outcome(View(), error) == AfterAdd(old(View()), id, apiKey, uuid, sizeIsAllowed, isStored, now)
    {
      var remaining;
      error, remaining := CheckFileRequestAndApiKey(id, apiKey, now);
      if error.Some? {
        return;
      }
      if !sizeIsAllowed {
        return Some(FailedUpload);
      }
      var isReserved := chunks.SetUploading(id, uuid, now);
      if !isReserved {
        return Some(InvalidChunkReservation);
      }
      if !isStored {
        return Some(FailedUpload);
      }
    }

    method ChunkUploadRequestComplete(id: RequestId, apiKey: KeyId, uuid: Uuid, file: Option<File>, now: int)
      returns (error: Option<Error>)
      modifies chunks, metadata
      ensures Outcome(View(), error) == AfterComplete(old(View()), id, apiKey, uuid, file, now)
    {
      var remaining;
      error, remaining := CheckFileRequestAndApiKey(id, apiKey, now);
      if error.Some? {
        return;
      }
      if file.None? {
        return Some(FailedUpload);
      }
      metadata.SaveMetaData(file.value.(uploadRequestId := id));
      chunks.SetComplete(id, uuid);
    }
  }
}
