/** Downloads in progress, which keep their file from being cleaned up. */
module DownloadStatuses {
  import opened Models

  type StatusMap = map<string, DownloadStatus>

  const SECONDS_PER_DAY := 24 * 60 * 60

  predicate IsCurrentlyDownloading(statuses: StatusMap, fileId: FileId, now: int) {
    exists k :: k in statuses && statuses[k].fileId == fileId && statuses[k].expireAt > now
  }

  function Cleaned(statuses: StatusMap, now: int): StatusMap {
    map k | k in statuses && statuses[k].expireAt >= now :: statuses[k]
  }

  function WithoutFile(statuses: StatusMap, fileId: FileId): StatusMap {
    map k | k in statuses && statuses[k].fileId != fileId :: statuses[k]
  }

  function Started(statuses: StatusMap, statusId: string, fileId: FileId, now: int): StatusMap {
    statuses[statusId := DownloadStatus(statusId, fileId, now + SECONDS_PER_DAY)]
  }

  class StatusTable {
    var statusMap: StatusMap

    /** Every status is filed under its own id. */
    ghost predicate Valid()
      reads this
    {
      forall k :: k in statusMap ==> statusMap[k].id == k
    }

    constructor ()
      ensures Valid() && statusMap == map[]
    {
      statusMap := map[];
    }

    /** `statusId` is the freshly generated random id. */
    method SetDownload(file: File, statusId: string, now: int)
      requires Valid()
      modifies this
      ensures Valid() && statusMap == Started(old(statusMap), statusId, file.id, now)
    {
      statusMap := statusMap[statusId := DownloadStatus(statusId, file.id, now + SECONDS_PER_DAY)];
    }

    method SetComplete(statusId: string)
      requires Valid()
      modifies this
      ensures Valid() && statusMap == old(statusMap) - {statusId}
    {
      statusMap := statusMap - {statusId};
    }

    /** Drops the expired statuses, in any order. */
    method Clean(now: int)
      requires Valid()
      modifies this
      ensures Valid() && statusMap == Cleaned(old(statusMap), now)
    {
      var items := statusMap;
      var todo := items.Keys;
      while todo != {}
        invariant Valid() && todo <= items.Keys
        invariant statusMap == map k | k in items && (k in todo || items[k].expireAt >= now) :: items[k]
        decreases |todo|
      {
        var k :| k in todo;
        if items[k].expireAt < now {
          SetComplete(items[k].id);
        }
        todo := todo - {k};
      }
    }

    method IsDownloading(file: File, now: int) returns (isDownloading: bool)
      ensures isDownloading <==> IsCurrentlyDownloading(statusMap, file.id, now)
    {
      isDownloading := false;
      var todo := statusMap.Keys;
      while todo != {} && !isDownloading
        invariant todo <= statusMap.Keys
        invariant isDownloading ==> IsCurrentlyDownloading(statusMap, file.id, now)
        invariant !isDownloading ==> forall k :: k in statusMap && k !in todo ==>
                                       statusMap[k].fileId != file.id || statusMap[k].expireAt <= now
        decreases |todo|
      {
        var k :| k in todo;
        if statusMap[k].fileId == file.id && statusMap[k].expireAt > now {
          isDownloading := true;
        }
        todo := todo - {k};
      }
    }

    method SetAllComplete(fileId: FileId)
      requires Valid()
      modifies this
      ensures Valid() && statusMap == WithoutFile(old(statusMap), fileId)
    {
      var items := statusMap;
      var todo := items.Keys;
      while todo != {}
        invariant Valid() && todo <= items.Keys
        invariant statusMap == map k | k in items && (k in todo || items[k].fileId != fileId) :: items[k]
        decreases |todo|
      {
        var k :| k in todo;
        if items[k].fileId == fileId {
          statusMap := statusMap - {items[k].id};
        }
        todo := todo - {k};
      }
    }
  }
}
