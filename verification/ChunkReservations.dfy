/** Reservations for uploads to a file request: request id to chunk id to the time the reservation ends. */
module ChunkReservations {
  import opened Wrappers
  import opened Models

  type Uuid = string
  type Reservations = map<RequestId, map<Uuid, int>>

  const TIME_RESERVATION_WITHOUT_UPLOAD := 4 * 60
  const TIME_RESERVATION_WITH_UPLOAD := 23 * 60 * 60

  function ReservedFor(reserved: Reservations, id: RequestId): map<Uuid, int> {
    if id in reserved then reserved[id] else map[]
  }

  function Count(reserved: Reservations, id: RequestId): nat {
    |ReservedFor(reserved, id)|
  }

  predicate IsReserved(reserved: Reservations, id: RequestId, uuid: Uuid) {
    uuid in ReservedFor(reserved, id)
  }

  function WithReservation(reserved: Reservations, id: RequestId, uuid: Uuid, expiry: int): Reservations {
    reserved[id := ReservedFor(reserved, id)[uuid := expiry]]
  }

  function WithoutReservation(reserved: Reservations, id: RequestId, uuid: Uuid): Reservations {
    if id in reserved then reserved[id := reserved[id] - {uuid}] else reserved
  }

  /** An upload may only go on while its reservation lasts. */
  predicate MayUpload(reserved: Reservations, id: RequestId, uuid: Uuid, now: int) {
    IsReserved(reserved, id, uuid) && reserved[id][uuid] >= now
  }

  function AfterUploading(reserved: Reservations, id: RequestId, uuid: Uuid, now: int): Reservations {
    if MayUpload(reserved, id, uuid, now) then WithReservation(reserved, id, uuid, now + TIME_RESERVATION_WITH_UPLOAD) else reserved
  }

  function Lasting(chunks: map<Uuid, int>, now: int): map<Uuid, int> {
    map uuid | uuid in chunks && chunks[uuid] >= now :: chunks[uuid]
  }

  function AfterCleanUp(reserved: Reservations, now: int): Reservations {
    map id | id in reserved :: Lasting(reserved[id], now)
  }

  class ReservedChunks {
    var reserved: Reservations

    constructor ()
      ensures reserved == map[]
    {
      reserved := map[];
    }

    method GetCount(id: RequestId) returns (count: nat)
      ensures count == Count(reserved, id)
    {
      count := if id in reserved then |reserved[id]| else 0;
    }

    /** `uuid` is a new random string. */
    method New(id: RequestId, uuid: Uuid, now: int)
      modifies this
      ensures reserved == WithReservation(old(reserved), id, uuid, now + TIME_RESERVATION_WITHOUT_UPLOAD)
    {
      if id !in reserved {
        reserved := reserved[id := map[]];
      }
      reserved := reserved[id := reserved[id][uuid := now + TIME_RESERVATION_WITHOUT_UPLOAD]];
      assert reserved == WithReservation(old(reserved), id, uuid, now + TIME_RESERVATION_WITHOUT_UPLOAD);
    }

    method SetComplete(id: RequestId, uuid: Uuid)
      modifies this
      ensures reserved == WithoutReservation(old(reserved), id, uuid)
    {
      if id in reserved {
        reserved := reserved[id := reserved[id] - {uuid}];
      }
    }

    method SetUploading(id: RequestId, uuid: Uuid, now: int) returns (ok: bool)
      modifies this
      ensures ok == MayUpload(old(reserved), id, uuid, now) && reserved == AfterUploading(old(reserved), id, uuid, now)
    {
      if id !in reserved {
        return false;
      }
      if uuid !in reserved[id] {
        return false;
      }
      if reserved[id][uuid] < now {
        return false;
      }
      reserved := reserved[id := reserved[id][uuid := now + TIME_RESERVATION_WITH_UPLOAD]];
      ok := true;
    }

    method CleanUp(now: int)
      modifies this
      ensures reserved == AfterCleanUp(old(reserved), now)
    {
      var all := reserved;
      var ids := all.Keys;
      while ids != {}
        invariant ids <= all.Keys && reserved.Keys == all.Keys
        invariant forall id :: id in all ==> reserved[id] == if id in ids then all[id] else Lasting(all[id], now)
        decreases |ids|
      {
        var id :| id in ids;
        CleanUpRequest(id, now);
        ids := ids - {id};
      }
    }

    /** The inner loop, over the reservations of one file request. */
    method CleanUpRequest(id: RequestId, now: int)
      requires id in reserved
      modifies this
      ensures reserved == old(reserved)[id := Lasting(old(reserved)[id], now)]
    {
      var chunks := reserved[id];
      var uuids := chunks.Keys;
      while uuids != {}
        invariant uuids <= chunks.Keys && id in reserved && reserved == old(reserved)[id := reserved[id]]
        invariant reserved[id] == map uuid | uuid in chunks && (uuid in uuids || chunks[uuid] >= now) :: chunks[uuid]
        decreases |uuids|
      {
        var uuid :| uuid in uuids;
        if chunks[uuid] < now {
          reserved := reserved[id := reserved[id] - {uuid}];
        }
        uuids := uuids - {uuid};
      }
      assert reserved[id] == Lasting(chunks, now);
    }
  }

  // ---------------------------------------------------------------- how long reservations last

  /** A new reservation may be used for four minutes; others are not affected. */
  lemma ANewReservationLasts(reserved: Reservations, id: RequestId, uuid: Uuid, now: int, otherId: RequestId, otherUuid: Uuid, t: int)
    ensures var after := WithReservation(reserved, id, uuid, now + TIME_RESERVATION_WITHOUT_UPLOAD);
            MayUpload(after, otherId, otherUuid, t) <==>
            if otherId == id && otherUuid == uuid then t <= now + 240 else MayUpload(reserved, otherId, otherUuid, t)
  {}

  /** A piece that arrives in time prolongs its reservation to 23 hours; one that comes too late changes nothing. */
  lemma APieceProlongsItsReservation(reserved: Reservations, id: RequestId, uuid: Uuid, now: int, otherId: RequestId, otherUuid: Uuid, t: int)
    ensures MayUpload(AfterUploading(reserved, id, uuid, now), otherId, otherUuid, t) <==>
            if otherId == id && otherUuid == uuid && MayUpload(reserved, id, uuid, now) then t <= now + 82_800
            else MayUpload(reserved, otherId, otherUuid, t)
    ensures IsReserved(AfterUploading(reserved, id, uuid, now), otherId, otherUuid) <==> IsReserved(reserved, otherId, otherUuid)
  {}

  /** Giving back a reservation ends it and no other. */
  lemma AReservationIsGivenBack(reserved: Reservations, id: RequestId, uuid: Uuid, otherId: RequestId, otherUuid: Uuid, t: int)
    ensures var after, isOther := WithoutReservation(reserved, id, uuid), otherId != id || otherUuid != uuid;
            && (IsReserved(after, otherId, otherUuid) <==> IsReserved(reserved, otherId, otherUuid) && isOther)
            && (MayUpload(after, otherId, otherUuid, t) <==> MayUpload(reserved, otherId, otherUuid, t) && isOther)
  {}

  /** A clean-up drops exactly the reservations that may not be used any more, and leaves the others as they are. */
  lemma LiveReservationsSurvive(reserved: Reservations, now: int, id: RequestId, uuid: Uuid, t: int)
    requires t >= now
    ensures var after := AfterCleanUp(reserved, now);
            && (IsReserved(after, id, uuid) <==> MayUpload(reserved, id, uuid, now))
            && (MayUpload(after, id, uuid, t) <==> MayUpload(reserved, id, uuid, t))
  {}

  // ---------------------------------------------------------------- how the count changes

  lemma CountAfterNew(reserved: Reservations, id: RequestId, uuid: Uuid, expiry: int, other: RequestId)
    ensures Count(WithReservation(reserved, id, uuid, expiry), other)
            == Count(reserved, other) + if other == id && !IsReserved(reserved, id, uuid) then 1 else 0
  {
    var before := ReservedFor(reserved, id);
    assert before[uuid := expiry].Keys == before.Keys + {uuid};
    assert |before[uuid := expiry].Keys| == |before[uuid := expiry]| && |before.Keys| == |before|;
  }

  lemma CountAfterComplete(reserved: Reservations, id: RequestId, uuid: Uuid, other: RequestId)
    ensures Count(WithoutReservation(reserved, id, uuid), other)
            == Count(reserved, other) - if other == id && IsReserved(reserved, id, uuid) then 1 else 0
  {
    var before := ReservedFor(reserved, id);
    assert (before - {uuid}).Keys == before.Keys - {uuid};
    assert |(before - {uuid}).Keys| == |before - {uuid}| && |before.Keys| == |before|;
  }

  lemma CountAfterCleanUp(reserved: Reservations, now: int, id: RequestId)
    ensures Count(AfterCleanUp(reserved, now), id) <= Count(reserved, id)
  {
    if id in reserved {
      FewerReservations(reserved[id], now);
    }
  }

  lemma FewerReservations(chunks: map<Uuid, int>, now: int)
    ensures |Lasting(chunks, now)| <= |chunks|
  {
    var lasting := Lasting(chunks, now);
    assert lasting.Keys <= chunks.Keys;
    SubsetIsNotLarger(lasting.Keys, chunks.Keys);
    assert |lasting.Keys| == |lasting| && |chunks.Keys| == |chunks|;
  }
}
