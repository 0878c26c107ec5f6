/** The limits of file requests over whole runs of their handlers. */
module FileRequestRuns {
  import opened Wrappers
  import opened Models
  import opened Database
  import opened ChunkReservations
  import opened FileRequests
  import opened FileRequestRights

  datatype Event =
    | Reserve(id: RequestId, apiKey: KeyId, uuid: Uuid, isAllowedRate: bool, now: int)
    | Add(id: RequestId, apiKey: KeyId, uuid: Uuid, sizeIsAllowed: bool, isStored: bool, now: int)
    | Complete(id: RequestId, apiKey: KeyId, uuid: Uuid, file: Option<File>, now: int)
    | Unreserve(id: RequestId, apiKey: KeyId, uuid: Uuid, now: int)
    | CleanUpReservations(now: int)
    | ChangeFiles(files: Rows)
    | NewRequest(request: FileRequest)
    | DropRequest(id: RequestId)

  function Next(u: Uploads, e: Event): Uploads {
    match e
    case Reserve(id, apiKey, uuid, isAllowedRate, now) => AfterReserve(u, id, apiKey, uuid, isAllowedRate, now).uploads
    case Add(id, apiKey, uuid, sizeIsAllowed, isStored, now) => AfterAdd(u, id, apiKey, uuid, sizeIsAllowed, isStored, now).uploads
    case Complete(id, apiKey, uuid, file, now) => AfterComplete(u, id, apiKey, uuid, file, now).uploads
    case Unreserve(id, apiKey, uuid, now) => AfterUnreserve(u, id, apiKey, uuid, now).uploads
    case CleanUpReservations(now) => u.(reserved := AfterCleanUp(u.reserved, now))
    case ChangeFiles(files) => u.(files := files)
    case NewRequest(request) => u.(requests := u.requests[request.id := request])
    case DropRequest(id) => u.(requests := u.requests - {id})
  }

  /** New ids are unused. Other changes to files neither restore nor duplicate an upload of a request. */
  ghost predicate CanHappen(u: Uploads, e: Event) {
    match e
    case Complete(_, _, _, file, _) => file.Some? ==> file.value.id !in u.files && !file.value.IsPendingForDeletion()
    case ChangeFiles(files) => forall id :: UploadedIds(files, id) <= UploadedIds(u.files, id)
    case NewRequest(request) =>
      request.id !in u.requests && UploadedIds(u.files, request.id) == {} && Count(u.reserved, request.id) == 0
    case _ => true
  }

  ghost predicate IsRun(u: Uploads, events: seq<Event>)
    decreases |events|
  {
    events == [] || (CanHappen(u, events[0]) && IsRun(Next(u, events[0]), events[1..]))
  }

  function Run(u: Uploads, events: seq<Event>): Uploads
    decreases |events|
  {
    if events == [] then u else Run(Next(u, events[0]), events[1..])
  }

  /** No limited request has more uploads than allowed. */
  ghost predicate UploadsWithinLimits(u: Uploads) {
    forall id :: id in u.requests && u.requests[id].limits.maxFiles > 0 ==> UploadedFiles(u.files, id) <= u.requests[id].limits.maxFiles
  }

  lemma FewerUploads(files: Rows, files': Rows, id: RequestId)
    requires UploadedIds(files', id) <= UploadedIds(files, id)
    ensures UploadedFiles(files', id) <= UploadedFiles(files, id)
  {
    SubsetIsNotLarger(UploadedIds(files', id), UploadedIds(files, id));
  }

  lemma ANewFileCounts(files: Rows, f: FileId, file: File, id: RequestId)
    requires f !in files
    ensures UploadedFiles(files[f := file], id) == UploadedFiles(files, id) + if IsUploadOf(file, id) then 1 else 0
  {
    if IsUploadOf(file, id) {
      assert UploadedIds(files[f := file], id) == UploadedIds(files, id) + {f};
    } else {
      assert UploadedIds(files[f := file], id) == UploadedIds(files, id);
    }
  }

  /** A finished upload counts once, for its own request. */
  lemma ACompletedFileCounts(files: Rows, file: File, id: RequestId, other: RequestId)
    requires file.id !in files && !file.IsPendingForDeletion()
    ensures var after := files[file.id := file.(uploadRequestId := id)];
            UploadedFiles(after, other) == UploadedFiles(files, other) + if other == id then 1 else 0
  {
    ANewFileCounts(files, file.id, file.(uploadRequestId := id), other);
  }

  lemma NextKeepsUploads(u: Uploads, e: Event, id: RequestId)
    requires CanHappen(u, e) && id in u.requests && id in Next(u, e).requests
    requires u.requests[id].limits.maxFiles > 0 && UploadedFiles(u.files, id) <= u.requests[id].limits.maxFiles
    ensures Next(u, e).requests[id] == u.requests[id]
    ensures UploadedFiles(Next(u, e).files, id) <= u.requests[id].limits.maxFiles
  {
    match e {
      case Complete(r, apiKey, uuid, file, now) =>
        if file.Some? {
          ACompletedFileCounts(u.files, file.value, r, id);
        }
      case ChangeFiles(files) => FewerUploads(u.files, files, id);
      case _ =>
    }
  }

  /** In every run, a request that accepts n files never has more than n uploads. */
  lemma {:induction false} UploadsNeverExceedTheLimit(u: Uploads, events: seq<Event>)
    requires UploadsWithinLimits(u) && IsRun(u, events)
    ensures UploadsWithinLimits(Run(u, events))
    decreases |events|
  {
    if events == [] {
    } else {
      var v := Next(u, events[0]);
      forall id | id in v.requests && v.requests[id].limits.maxFiles > 0
        ensures UploadedFiles(v.files, id) <= v.requests[id].limits.maxFiles
      {
        if id in u.requests {
          NextKeepsUploads(u, events[0], id);
        }
      }
      UploadsNeverExceedTheLimit(v, events[1..]);
    }
  }

  // ---------------------------------------------------------------- uploads and reservations together

  /** Uploads and reservations together stay within the limit. */
  predicate IsWithin(u: Uploads, id: RequestId) {
    id in u.requests && u.requests[id].limits.maxFiles > 0 ==>
      UploadedFiles(u.files, id) + Count(u.reserved, id) <= u.requests[id].limits.maxFiles
  }

  /** The event finishes an upload that holds no reservation, when everything left is reserved by others. */
  predicate TakesAReservedPlace(u: Uploads, e: Event, id: RequestId) {
    && e.Complete? && e.id == id && e.file.Some?
    && RequestError(u, id, e.apiKey, e.now).None?
    && u.requests[id].limits.maxFiles > 0
    && !IsReserved(u.reserved, id, e.uuid)
    && FilesRemaining(u, id) == 0
  }

  lemma NextReservations(u: Uploads, e: Event, id: RequestId)
    ensures e.Reserve? ==> Count(Next(u, e).reserved, id) <= Count(u.reserved, id) + if Next(u, e) != u && e.id == id then 1 else 0
    ensures e.Add? || e.Unreserve? || e.CleanUpReservations? ==> Count(Next(u, e).reserved, id) <= Count(u.reserved, id)
  {
    match e {
      case Reserve(r, apiKey, uuid, isAllowedRate, now) =>
        CountAfterNew(u.reserved, r, uuid, now + TIME_RESERVATION_WITHOUT_UPLOAD, id);
      case Add(r, apiKey, uuid, sizeIsAllowed, isStored, now) =>
        CountAfterNew(u.reserved, r, uuid, now + TIME_RESERVATION_WITH_UPLOAD, id);
      case Unreserve(r, apiKey, uuid, now) => CountAfterComplete(u.reserved, r, uuid, id);
      case CleanUpReservations(now) => CountAfterCleanUp(u.reserved, now, id);
      case _ =>
    }
  }

  /** One step leaves the sum within the limit exactly if it does not take a place reserved by others. */
  lemma NextStaysWithin(u: Uploads, e: Event, id: RequestId)
    requires CanHappen(u, e) && IsWithin(u, id)
    ensures IsWithin(Next(u, e), id) <==> !TakesAReservedPlace(u, e, id)
  {
    match e {
      case Complete(r, apiKey, uuid, file, now) =>
        if file.Some? {
          ACompletedFileCounts(u.files, file.value, r, id);
          CountAfterComplete(u.reserved, r, uuid, id);
        }
      case ChangeFiles(files) => FewerUploads(u.files, files, id);
      case Reserve(_, _, _, _, _) => NextReservations(u, e, id);
      case Add(_, _, _, _, _, _) => NextReservations(u, e, id);
      case Unreserve(_, _, _, _) => NextReservations(u, e, id);
      case CleanUpReservations(_) => NextReservations(u, e, id);
      case _ =>
    }
  }

  /** In every state of the run the sum is within the limit. */
  predicate AlwaysWithin(u: Uploads, events: seq<Event>, id: RequestId)
    decreases |events|
  {
    IsWithin(u, id) && (events == [] || AlwaysWithin(Next(u, events[0]), events[1..], id))
  }

  predicate NeverTakesAReservedPlace(u: Uploads, events: seq<Event>, id: RequestId)
    decreases |events|
  {
    events == [] || (!TakesAReservedPlace(u, events[0], id) && NeverTakesAReservedPlace(Next(u, events[0]), events[1..], id))
  }

  lemma {:induction false} UploadsAndReservationsStayWithin(u: Uploads, events: seq<Event>, id: RequestId)
    requires IsWithin(u, id) && IsRun(u, events)
    ensures AlwaysWithin(u, events, id) <==> NeverTakesAReservedPlace(u, events, id)
    decreases |events|
  {
    if events == [] {
    } else {
      NextStaysWithin(u, events[0], id);
      if IsWithin(Next(u, events[0]), id) {
        UploadsAndReservationsStayWithin(Next(u, events[0]), events[1..], id);
      }
    }
  }

  predicate HoldsReservations(u: Uploads, events: seq<Event>, id: RequestId)
    decreases |events|
  {
    events == [] || ((events[0].Complete? && events[0].id == id ==> IsReserved(u.reserved, id, events[0].uuid))
                     && HoldsReservations(Next(u, events[0]), events[1..], id))
  }

  /** As long as every finished upload still holds its reservation, uploads and reservations stay within the limit. */
  lemma {:induction false} ReservedUploadsStayWithin(u: Uploads, events: seq<Event>, id: RequestId)
    requires IsWithin(u, id) && IsRun(u, events) && HoldsReservations(u, events, id)
    ensures AlwaysWithin(u, events, id)
    decreases |events|
  {
    if events == [] {
    } else {
      NextStaysWithin(u, events[0], id);
      ReservedUploadsStayWithin(Next(u, events[0]), events[1..], id);
    }
  }

  /** With a limit of one file, an upload without a reservation is accepted while another one is reserved. */
  lemma AnUnreservedUploadIsAccepted(u: Uploads, request: FileRequest, file: File)
    requires u == Uploads(map[request.id := request], map[], map[request.id := map["reserved" := 0]])
    requires request.limits.maxFiles == 1 && request.limits.expiry == 0 && !file.IsPendingForDeletion()
    ensures IsWithin(u, request.id) && !IsWithin(Next(u, Complete(request.id, request.apiKey, "other", Some(file), 0)), request.id)
  {
    var e := Complete(request.id, request.apiKey, "other", Some(file), 0);
    assert UploadedIds(u.files, request.id) == {};
    assert TakesAReservedPlace(u, e, request.id);
    NextStaysWithin(u, e, request.id);
  }

  /** The steps of a run on a request that is open to the caller take effect. */
  lemma StepsTakeEffect(u: Uploads, id: RequestId, apiKey: KeyId, uuid: Uuid, file: File, now: int, t: int)
    requires IsOpenTo(u, id, apiKey, now) && t >= now
    ensures 0 < u.requests[id].limits.maxFiles && UploadedFiles(u.files, id) + Count(u.reserved, id) < u.requests[id].limits.maxFiles ==>
              IsReserved(Next(u, Reserve(id, apiKey, uuid, true, now)).reserved, id, uuid)
    ensures MayUpload(u.reserved, id, uuid, now) ==>
              (MayUpload(Next(u, Add(id, apiKey, uuid, true, true, now)).reserved, id, uuid, t) <==> t <= now + 82_800)
    ensures var u' := Next(u, Complete(id, apiKey, uuid, Some(file), now));
            file.id in u'.files && u'.files[file.id].uploadRequestId == id && !IsReserved(u'.reserved, id, uuid)
    ensures !IsReserved(Next(u, Unreserve(id, apiKey, uuid, now)).reserved, id, uuid)
    ensures IsReserved(Next(u, CleanUpReservations(now)).reserved, id, uuid) <==> MayUpload(u.reserved, id, uuid, now)
    ensures id !in Next(u, DropRequest(id)).requests
  {
    LiveReservationsSurvive(u.reserved, now, id, uuid, t);
  }
}
