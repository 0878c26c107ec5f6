/** Which uploads to a file request are accepted, and what they leave behind. */
module FileRequestRights {
  import opened Wrappers
  import opened Models
  import opened Database
  import opened ChunkReservations
  import opened FileRequests

  /** The request is there, the key is its own, it has not ended and is not full. */
  predicate IsOpenTo(u: Uploads, id: RequestId, apiKey: KeyId, now: int) {
    && id in u.requests && u.requests[id].apiKey == apiKey
    && (u.requests[id].limits.expiry == 0 || now <= u.requests[id].limits.expiry)
    && (u.requests[id].limits.maxFiles == 0 || |UploadedIds(u.files, id)| < u.requests[id].limits.maxFiles)
  }

  /** Every handler starts with the same checks, and refuses with the first that fails. */
  lemma ChecksAreExact(u: Uploads, id: RequestId, apiKey: KeyId, now: int)
    ensures var error := RequestError(u, id, apiKey, now);
            && (error.None? <==> IsOpenTo(u, id, apiKey, now))
            && (error == Some(NotFound) <==> id !in u.requests)
            && (error == Some(InvalidApiKey) <==> id in u.requests && u.requests[id].apiKey != apiKey)
            && (error == Some(RequestExpired) <==>
                id in u.requests && u.requests[id].apiKey == apiKey && 0 != u.requests[id].limits.expiry < now)
            && (error.Some? ==> error.value in {NotFound, InvalidApiKey, RequestExpired, CannotUploadMoreFiles})
  {}

  /** A file request that is closed to the caller is left alone by all handlers. */
  lemma ClosedRequestsAreLeftAlone(u: Uploads, id: RequestId, apiKey: KeyId, uuid: Uuid, isAllowedRate: bool, sizeIsAllowed: bool,
                                   isStored: bool, file: Option<File>, now: int)
    requires !IsOpenTo(u, id, apiKey, now)
    ensures var refused := Outcome(u, RequestError(u, id, apiKey, now));
            && refused.error.Some?
            && AfterReserve(u, id, apiKey, uuid, isAllowedRate, now) == refused
            && AfterAdd(u, id, apiKey, uuid, sizeIsAllowed, isStored, now) == refused
            && AfterComplete(u, id, apiKey, uuid, file, now) == refused
            && AfterUnreserve(u, id, apiKey, uuid, now) == refused
  {}

  /** A place is given exactly while uploads and reservations leave one, or, without a limit, while the rate allows it. */
  lemma ReservationsAreExact(u: Uploads, id: RequestId, apiKey: KeyId, uuid: Uuid, isAllowedRate: bool, now: int)
    requires IsOpenTo(u, id, apiKey, now)
    ensures var o := AfterReserve(u, id, apiKey, uuid, isAllowedRate, now);
            var maxFiles := u.requests[id].limits.maxFiles;
            && (o.error.None? <==> if maxFiles == 0 then isAllowedRate
                                   else |UploadedIds(u.files, id)| + Count(u.reserved, id) < maxFiles)
            && (o.error.Some? ==> o.uploads == u && o.error == Some(if maxFiles == 0 then RateLimited else CannotUploadMoreFiles))
            && (o.error.None? ==>
                  && o.uploads == u.(reserved := o.uploads.reserved)
                  && MayUpload(o.uploads.reserved, id, uuid, now) && IsReserved(o.uploads.reserved, id, uuid))
  {}

  /** A piece is accepted exactly if its size is allowed, its reservation lasts and it can be stored. */
  lemma PiecesAreExact(u: Uploads, id: RequestId, apiKey: KeyId, uuid: Uuid, sizeIsAllowed: bool, isStored: bool, now: int)
    requires IsOpenTo(u, id, apiKey, now)
    ensures var o := AfterAdd(u, id, apiKey, uuid, sizeIsAllowed, isStored, now);
            && (o.error.None? <==> sizeIsAllowed && isStored && MayUpload(u.reserved, id, uuid, now))
            && (o.error == Some(InvalidChunkReservation) <==> sizeIsAllowed && !MayUpload(u.reserved, id, uuid, now))
            && (o.error.Some? ==> o.error.value in {FailedUpload, InvalidChunkReservation})
            && o.uploads == u.(reserved := if sizeIsAllowed then AfterUploading(u.reserved, id, uuid, now) else u.reserved)
  {}

  /** A finished file becomes an upload of the request and gives its place back. */
  lemma CompletionsAreExact(u: Uploads, id: RequestId, apiKey: KeyId, uuid: Uuid, file: Option<File>, now: int)
    requires IsOpenTo(u, id, apiKey, now)
    ensures var o := AfterComplete(u, id, apiKey, uuid, file, now);
            if file.None? then o == Outcome(u, Some(FailedUpload))
            else
              && o.error.None? && o.uploads.requests == u.requests
              && o.uploads.files.Keys == u.files.Keys + {file.value.id}
              && o.uploads.files[file.value.id] == file.value.(uploadRequestId := id)
              && (forall f :: f in u.files && f != file.value.id ==> o.uploads.files[f] == u.files[f])
              && !IsReserved(o.uploads.reserved, id, uuid)
              && o.uploads.reserved == WithoutReservation(u.reserved, id, uuid)
  {}

  /** Giving back a reservation frees its place. */
  lemma GivingBackFreesAPlace(u: Uploads, id: RequestId, apiKey: KeyId, uuid: Uuid, now: int)
    requires IsOpenTo(u, id, apiKey, now)
    ensures var o := AfterUnreserve(u, id, apiKey, uuid, now);
            && o.error.None? && o.uploads == u.(reserved := o.uploads.reserved)
            && !IsReserved(o.uploads.reserved, id, uuid)
            && Count(o.uploads.reserved, id) == Count(u.reserved, id) - if IsReserved(u.reserved, id, uuid) then 1 else 0
  {
    CountAfterComplete(u.reserved, id, uuid, id);
  }

  lemma AReservationIsMade(u: Uploads, id: RequestId, apiKey: KeyId, uuid: Uuid, start: int, first: int)
    requires IsOpenTo(u, id, apiKey, first) && start <= first <= start + 240 && u.requests[id].limits.maxFiles > 0
    requires |UploadedIds(u.files, id)| + Count(u.reserved, id) < u.requests[id].limits.maxFiles
    ensures var o := AfterReserve(u, id, apiKey, uuid, true, start);
            && o.error.None? && o.uploads == u.(reserved := o.uploads.reserved)
            && MayUpload(o.uploads.reserved, id, uuid, first)
            && Count(o.uploads.reserved, id) == Count(u.reserved, id) + if IsReserved(u.reserved, id, uuid) then 0 else 1
  {
    CountAfterNew(u.reserved, id, uuid, start + TIME_RESERVATION_WITHOUT_UPLOAD, id);
  }

  lemma APieceIsSent(u: Uploads, id: RequestId, apiKey: KeyId, uuid: Uuid, first: int)
    requires IsOpenTo(u, id, apiKey, first) && MayUpload(u.reserved, id, uuid, first)
    ensures var o := AfterAdd(u, id, apiKey, uuid, true, true, first);
            && o.error.None? && o.uploads == u.(reserved := o.uploads.reserved)
            && IsReserved(o.uploads.reserved, id, uuid) && Count(o.uploads.reserved, id) == Count(u.reserved, id)
  {
    CountAfterNew(u.reserved, id, uuid, first + TIME_RESERVATION_WITH_UPLOAD, id);
  }

  lemma AFileIsComplete(u: Uploads, id: RequestId, apiKey: KeyId, uuid: Uuid, file: File, end: int)
    requires IsOpenTo(u, id, apiKey, end) && IsReserved(u.reserved, id, uuid)
    requires file.id !in u.files && !file.IsPendingForDeletion()
    ensures var o := AfterComplete(u, id, apiKey, uuid, Some(file), end);
            && o.error.None? && UploadedIds(o.uploads.files, id) == UploadedIds(u.files, id) + {file.id}
            && Count(o.uploads.reserved, id) == Count(u.reserved, id) - 1
  {
    CountAfterComplete(u.reserved, id, uuid, id);
  }

  /** An upload that starts while there is room and sends its first piece in time goes through, and is one more upload. */
  lemma AnUploadGoesThrough(u: Uploads, id: RequestId, apiKey: KeyId, uuid: Uuid, file: File, start: int, first: int, end: int)
    requires IsOpenTo(u, id, apiKey, end) && start <= first <= end && first <= start + 240
    requires u.requests[id].limits.maxFiles > 0
    requires |UploadedIds(u.files, id)| + Count(u.reserved, id) < u.requests[id].limits.maxFiles
    requires file.id !in u.files && !file.IsPendingForDeletion()
    ensures var reserved := AfterReserve(u, id, apiKey, uuid, true, start);
            var sent := AfterAdd(reserved.uploads, id, apiKey, uuid, true, true, first);
            var done := AfterComplete(sent.uploads, id, apiKey, uuid, Some(file), end);
            && reserved.error.None? && sent.error.None? && done.error.None?
            && UploadedIds(done.uploads.files, id) == UploadedIds(u.files, id) + {file.id}
            && (!IsReserved(u.reserved, id, uuid) ==> Count(done.uploads.reserved, id) == Count(u.reserved, id))
  {
    AReservationIsMade(u, id, apiKey, uuid, start, first);
    var reserved := AfterReserve(u, id, apiKey, uuid, true, start).uploads;
    APieceIsSent(reserved, id, apiKey, uuid, first);
    var sent := AfterAdd(reserved, id, apiKey, uuid, true, true, first).uploads;
    AFileIsComplete(sent, id, apiKey, uuid, file, end);
  }
}
