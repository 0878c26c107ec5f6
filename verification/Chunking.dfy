/** Chunk files: uploads are put together from pieces that arrive in any order. */
module Chunking {
  import opened Wrappers
  import opened Models

  const MAX_INT64 := 0x7FFF_FFFF_FFFF_FFFF

  /** Addition of 64-bit integers, which wraps around. */
  function Add64(a: int, b: int): int
    requires -MAX_INT64 - 1 <= a <= MAX_INT64 && -MAX_INT64 - 1 <= b <= MAX_INT64
  {
    var sum := a + b;
    if sum > MAX_INT64 then sum - 2 * (MAX_INT64 + 1) else if sum < -MAX_INT64 - 1 then sum + 2 * (MAX_INT64 + 1) else sum
  }

  /** The sum of 64-bit integers, as the one number of the 64-bit range that differs from it by a multiple of 2^64. */
  lemma AdditionWrapsAround(a: int, b: int)
    requires -MAX_INT64 - 1 <= a <= MAX_INT64 && -MAX_INT64 - 1 <= b <= MAX_INT64
    ensures -0x8000_0000_0000_0000 <= Add64(a, b) < 0x8000_0000_0000_0000
    ensures (Add64(a, b) - (a + b)) % 0x1_0000_0000_0000_0000 == 0
  {}

  /** As parsed from the form: both numbers are 64-bit and not negative. */
  datatype ChunkInfo = ChunkInfo(totalFilesizeBytes: int, offset: int, uuid: string)
  {
    predicate Valid() {
      0 <= totalFilesizeBytes <= MAX_INT64 && 0 <= offset <= MAX_INT64 && uuid != ""
    }
  }

  datatype ChunkError = InvalidMaxSize | FileTooLarge | NotEnoughSpace | BeyondTotal

  type ChunkFiles = map<string, Bytes>

  function Zeros(n: nat): (z: Bytes)
    ensures |z| == n && forall i :: 0 <= i < n ==> z[i] == 0
  {
    seq(n, _ => 0)
  }

  /** The file after bytes are written at an offset; a gap behind its end is filled with zeros. */
  function WrittenAt(file: Bytes, offset: nat, chunk: Bytes): (r: Bytes)
    ensures |r| == if |chunk| > 0 && offset + |chunk| > |file| then offset + |chunk| else |file|
    ensures forall i :: 0 <= i < |r| ==>
              r[i] == if offset <= i < offset + |chunk| then chunk[i - offset] else if i < |file| then file[i] else 0
  {
    if chunk == [] then file
    else
      var padded := if offset > |file| then file + Zeros(offset - |file|) else file;
      padded[..offset] + chunk + if offset + |chunk| < |padded| then padded[offset + |chunk|..] else []
  }

  datatype Outcome = Outcome(files: ChunkFiles, error: Option<ChunkError>)

  /** `enoughSpace` says if the disk has room for the file. */
  function AfterAllocate(files: ChunkFiles, info: ChunkInfo, maxFileSizeMB: int, maxAllowed: int, enoughSpace: bool): Outcome
    requires info.Valid()
  {
    if maxAllowed <= 0 then Outcome(files, Some(InvalidMaxSize))
    else if info.uuid in files then Outcome(files, None)
    else if info.totalFilesizeBytes > Min(maxFileSizeMB * 1024 * 1024, maxAllowed) then Outcome(files, Some(FileTooLarge))
    else if !enoughSpace then Outcome(files, Some(NotEnoughSpace))
    else Outcome(files[info.uuid := Zeros(info.totalFilesizeBytes)], None)
  }

  function Min(a: int, b: int): int {
    if a < b then a else b
  }

  function AfterWrite(files: ChunkFiles, info: ChunkInfo, chunk: Bytes): Outcome
    requires info.Valid() && |chunk| <= MAX_INT64 && info.uuid in files
  {
    if Add64(info.offset, |chunk|) > info.totalFilesizeBytes then Outcome(files, Some(BeyondTotal))
    else Outcome(files[info.uuid := WrittenAt(files[info.uuid], info.offset, chunk)], None)
  }

  function AfterNewChunk(files: ChunkFiles, info: ChunkInfo, chunk: Bytes, maxFileSizeMB: int, maxAllowed: int, enoughSpace: bool): Outcome
    requires info.Valid() && |chunk| <= MAX_INT64
  {
    var start := AfterAllocate(files, info, maxFileSizeMB, maxAllowed, enoughSpace);
    if start.error.Some? then start else AfterWrite(start.files, info, chunk)
  }

  /** The check in front of it that every upload goes through. */
  function AfterProcessNewChunk(files: ChunkFiles, info: ChunkInfo, chunk: Bytes, maxFileSizeMB: int, maxFileSize: int, enoughSpace: bool): Outcome
    requires info.Valid() && |chunk| <= MAX_INT64
  {
    if info.totalFilesizeBytes > maxFileSize || info.offset > maxFileSize then Outcome(files, Some(FileTooLarge))
    else AfterNewChunk(files, info, chunk, maxFileSizeMB, maxFileSize, enoughSpace)
  }

  class ChunkStore {
    var files: ChunkFiles
    const maxFileSizeMB: int

    constructor (maxFileSizeMB: int)
      ensures files == map[] && this.maxFileSizeMB == maxFileSizeMB
    {
      files := map[];
      this.maxFileSizeMB := maxFileSizeMB;
    }

    method AllocateFile(info: ChunkInfo, maxAllowed: int, enoughSpace: bool) returns (error: Option<ChunkError>)
      requires info.Valid()
      modifies this
      ensures Outcome(files, error) == AfterAllocate(old(files), info, maxFileSizeMB, maxAllowed, enoughSpace)
    {
      if maxAllowed <= 0 {
        return Some(InvalidMaxSize);
      }
      if info.uuid in files {
        return None;
      }
      var maxSizeBytes := Min(maxFileSizeMB * 1024 * 1024, maxAllowed);
      if info.totalFilesizeBytes > maxSizeBytes {
        return Some(FileTooLarge);
      }
      if !enoughSpace {
        return Some(NotEnoughSpace);
      }
      files := files[info.uuid := Zeros(info.totalFilesizeBytes)];
      error := None;
    }

    method WriteChunk(info: ChunkInfo, chunk: Bytes) returns (error: Option<ChunkError>)
      requires info.Valid() && |chunk| <= MAX_INT64 && info.uuid in files
      modifies this
      ensures Outcome(files, error) == AfterWrite(old(files), info, chunk)
    {
      if Add64(info.offset, |chunk|) > info.totalFilesizeBytes {
        return Some(BeyondTotal);
      }
      files := files[info.uuid := WrittenAt(files[info.uuid], info.offset, chunk)];
      error := None;
    }

    method NewChunk(info: ChunkInfo, chunk: Bytes, maxAllowed: int, enoughSpace: bool) returns (error: Option<ChunkError>)
      requires info.Valid() && |chunk| <= MAX_INT64
      modifies this
      ensures Outcome(files, error) == AfterNewChunk(old(files), info, chunk, maxFileSizeMB, maxAllowed, enoughSpace)
    {
      error := AllocateFile(info, maxAllowed, enoughSpace);
      if error.Some? {
        return;
      }
      error := WriteChunk(info, chunk);
    }

    method ProcessNewChunk(info: ChunkInfo, chunk: Bytes, maxFileSize: int, enoughSpace: bool) returns (error: Option<ChunkError>)
      requires info.Valid() && |chunk| <= MAX_INT64
      modifies this
      ensures Outcome(files, error) == AfterProcessNewChunk(old(files), info, chunk, maxFileSizeMB, maxFileSize, enoughSpace)
    {
      if info.totalFilesizeBytes > maxFileSize || info.offset > maxFileSize {
        return Some(FileTooLarge);
      }
      error := NewChunk(info, chunk, maxFileSize, enoughSpace);
    }
  }

  // ---------------------------------------------------------------- which pieces are accepted

  /** A chunk file is started only for a size within both limits, and if the disk has room for it. */
  predicate MayStart(info: ChunkInfo, maxFileSizeMB: int, maxAllowed: int, enoughSpace: bool) {
    info.totalFilesizeBytes <= maxFileSizeMB * 1_048_576 && info.totalFilesizeBytes <= maxAllowed && enoughSpace
  }

  /** Other chunk files are left alone; this one is there at most if it was before, or if it may be started. */
  predicate OnlyTouches(files: ChunkFiles, files': ChunkFiles, uuid: string) {
    && files.Keys <= files'.Keys <= files.Keys + {uuid}
    && forall other :: other in files && other != uuid ==> files'[other] == files[other]
  }

  /** A piece whose end is a 64-bit number is accepted exactly if its file is there or may be started and it ends within the total. */
  lemma AcceptedPiecesAreExact(files: ChunkFiles, info: ChunkInfo, chunk: Bytes, maxFileSizeMB: int, maxAllowed: int, enoughSpace: bool)
    requires info.Valid() && info.offset + |chunk| <= MAX_INT64
    ensures var o := AfterNewChunk(files, info, chunk, maxFileSizeMB, maxAllowed, enoughSpace);
            && OnlyTouches(files, o.files, info.uuid)
            && (o.error.None? <==>
                && maxAllowed > 0 && (info.uuid in files || MayStart(info, maxFileSizeMB, maxAllowed, enoughSpace))
                && info.offset + |chunk| <= info.totalFilesizeBytes)
            && (o.error == Some(BeyondTotal) <==>
                && maxAllowed > 0 && (info.uuid in files || MayStart(info, maxFileSizeMB, maxAllowed, enoughSpace))
                && info.offset + |chunk| > info.totalFilesizeBytes)
            && (o.error == Some(InvalidMaxSize) <==> maxAllowed <= 0)
            && (o.error == Some(NotEnoughSpace) <==>
                maxAllowed > 0 && info.uuid !in files && MayStart(info, maxFileSizeMB, maxAllowed, true) && !enoughSpace)
            && (o.error.Some? && o.error != Some(BeyondTotal) ==> o.files == files)
  {}

  /** What an accepted piece leaves: its bytes at their place, and everywhere else what was there, or zeros. */
  lemma AcceptedPiecesAreStored(files: ChunkFiles, info: ChunkInfo, chunk: Bytes, maxFileSizeMB: int, maxAllowed: int, enoughSpace: bool, i: nat)
    requires info.Valid() && info.offset + |chunk| <= MAX_INT64
    requires AfterNewChunk(files, info, chunk, maxFileSizeMB, maxAllowed, enoughSpace).error.None?
    ensures var file := AfterNewChunk(files, info, chunk, maxFileSizeMB, maxAllowed, enoughSpace).files[info.uuid];
            && (info.uuid !in files ==> |file| == info.totalFilesizeBytes)
            && (i < |file| ==>
                  file[i] == if info.offset <= i < info.offset + |chunk| then chunk[i - info.offset]
                             else if info.uuid in files && i < |files[info.uuid]| then files[info.uuid][i] else 0)
  {
    var started := AfterAllocate(files, info, maxFileSizeMB, maxAllowed, enoughSpace).files[info.uuid];
    ByteOfWritten(started, info.offset, chunk, i);
    if info.uuid !in files {
      assert started == Zeros(info.totalFilesizeBytes);
    }
  }

  lemma ByteOfWritten(file: Bytes, offset: nat, chunk: Bytes, i: nat)
    ensures var r := WrittenAt(file, offset, chunk);
            i < |r| ==> r[i] == if offset <= i < offset + |chunk| then chunk[i - offset] else if i < |file| then file[i] else 0
  {}

  /** The check in front refuses exactly totals and offsets above the maximum, and changes nothing else. */
  lemma TheGuardIsExact(files: ChunkFiles, info: ChunkInfo, chunk: Bytes, maxFileSizeMB: int, maxFileSize: int, enoughSpace: bool)
    requires info.Valid() && |chunk| <= MAX_INT64
    ensures var o := AfterProcessNewChunk(files, info, chunk, maxFileSizeMB, maxFileSize, enoughSpace);
            if info.totalFilesizeBytes <= maxFileSize && info.offset <= maxFileSize
            then o == AfterNewChunk(files, info, chunk, maxFileSizeMB, maxFileSize, enoughSpace)
            else o.files == files && o.error == Some(FileTooLarge)
  {}

  // ---------------------------------------------------------------- writes stay inside the declared total

  /**
   A successful write leaves the chunk file within the declared total, or within its former length, exactly
   if the end of the piece is not beyond the 64-bit range.
   */
  lemma WriteStaysInTotal(files: ChunkFiles, info: ChunkInfo, chunk: Bytes)
    requires info.Valid() && |chunk| <= MAX_INT64 && info.uuid in files && |files[info.uuid]| <= MAX_INT64
    requires AfterWrite(files, info, chunk).error.None?
    ensures var file := AfterWrite(files, info, chunk).files[info.uuid];
            |file| <= info.totalFilesizeBytes || |file| == |files[info.uuid]|
            <==> info.offset + |chunk| <= MAX_INT64
  {}

  /**
   Without the guard on the offset, the bounds check lets one byte at the last offset pass although the total
   is 0. Only that check is fooled: a real file system refuses a write behind its largest offset.
   */
  lemma AWrappingOffsetIsAccepted(uuid: string)
    requires uuid != ""
    ensures var info := ChunkInfo(0, MAX_INT64, uuid);
            var after := AfterWrite(map[uuid := []], info, [0]);
            after.error.None? && |after.files[uuid]| == MAX_INT64 + 1
  {}

  /** With the guard every accepted piece ends within the total, for any configured size that can be doubled. */
  lemma AcceptedPiecesStayInTotal(files: ChunkFiles, info: ChunkInfo, chunk: Bytes, maxFileSizeMB: int, maxFileSize: int, enoughSpace: bool)
    requires info.Valid() && |chunk| <= maxFileSize && 2 * maxFileSize <= MAX_INT64
    requires AfterProcessNewChunk(files, info, chunk, maxFileSizeMB, maxFileSize, enoughSpace).error.None?
    ensures info.offset + |chunk| <= info.totalFilesizeBytes <= maxFileSize
    ensures var file := AfterProcessNewChunk(files, info, chunk, maxFileSizeMB, maxFileSize, enoughSpace).files[info.uuid];
            |file| == if info.uuid !in files then info.totalFilesizeBytes
                      else if |chunk| > 0 && info.offset + |chunk| > |files[info.uuid]| then info.offset + |chunk|
                      else |files[info.uuid]|
  {}

  // ---------------------------------------------------------------- pieces in any order

  datatype Request = Request(info: ChunkInfo, chunk: Bytes, maxAllowed: int, enoughSpace: bool)
  {
    predicate Valid() {
      info.Valid() && |chunk| <= MAX_INT64
    }
  }

  /** The request sends a piece of `content` to the right place. */
  predicate IsPieceOf(r: Request, content: Bytes, maxFileSizeMB: int) {
    && r.Valid()
    && r.info.totalFilesizeBytes == |content|
    && r.info.offset + |r.chunk| <= |content|
    && r.chunk == content[r.info.offset..r.info.offset + |r.chunk|]
    && r.maxAllowed > 0 && |content| <= Min(maxFileSizeMB * 1024 * 1024, r.maxAllowed) && r.enoughSpace
  }

  function AfterRequest(files: ChunkFiles, r: Request, maxFileSizeMB: int): Outcome
    requires r.Valid()
  {
    AfterNewChunk(files, r.info, r.chunk, maxFileSizeMB, r.maxAllowed, r.enoughSpace)
  }

  function AfterRequests(files: ChunkFiles, requests: seq<Request>, maxFileSizeMB: int): ChunkFiles
    requires forall r :: r in requests ==> r.Valid()
    decreases |requests|
  {
    if requests == [] then files
    else
      var n := |requests| - 1;
      AfterRequest(AfterRequests(files, requests[..n], maxFileSizeMB), requests[n], maxFileSizeMB).files
  }

  /** One of the requests for the upload sends the byte at `i`. */
  ghost predicate IsSent(requests: seq<Request>, uuid: string, i: int) {
    exists k :: 0 <= k < |requests| && requests[k].info.uuid == uuid
                && requests[k].info.offset <= i < requests[k].info.offset + |requests[k].chunk|
  }

  ghost predicate IsStarted(requests: seq<Request>, uuid: string) {
    exists k :: 0 <= k < |requests| && requests[k].info.uuid == uuid
  }

  /** The chunk file holds what was sent so far, at its place in a file of the declared length. */
  ghost predicate HoldsSent(files: ChunkFiles, requests: seq<Request>, uuid: string, content: Bytes) {
    if IsStarted(requests, uuid) then
      && uuid in files
      && |files[uuid]| == |content|
      && forall i :: 0 <= i < |content| && IsSent(requests, uuid, i) ==> files[uuid][i] == content[i]
    else uuid !in files
  }

  /** Any mix of requests: those for this upload are pieces of `content`, the others are arbitrary. */
  ghost predicate UploadsContent(requests: seq<Request>, uuid: string, content: Bytes, maxFileSizeMB: int) {
    forall k :: 0 <= k < |requests| ==>
      requests[k].Valid() && (requests[k].info.uuid == uuid ==> IsPieceOf(requests[k], content, maxFileSizeMB))
  }

  lemma APieceIsWritten(files: ChunkFiles, r: Request, content: Bytes, maxFileSizeMB: int)
    requires IsPieceOf(r, content, maxFileSizeMB) && |content| <= MAX_INT64
    requires r.info.uuid in files ==> |files[r.info.uuid]| == |content|
    ensures var after := AfterRequest(files, r, maxFileSizeMB);
            && after.error.None? && r.info.uuid in after.files
            && var file := after.files[r.info.uuid];
               && |file| == |content|
               && (forall i :: r.info.offset <= i < r.info.offset + |r.chunk| ==> file[i] == content[i])
               && (r.info.uuid in files ==>
                     forall i :: 0 <= i < |content| && !(r.info.offset <= i < r.info.offset + |r.chunk|) ==> file[i] == files[r.info.uuid][i])
  {
    assert forall j :: 0 <= j < |r.chunk| ==> r.chunk[j] == content[r.info.offset + j];
  }

  lemma TheLastRequestSends(requests: seq<Request>, uuid: string)
    requires requests != []
    ensures var n := |requests| - 1;
            var before, r := requests[..n], requests[n];
            && (IsStarted(requests, uuid) <==> IsStarted(before, uuid) || r.info.uuid == uuid)
            && forall i :: IsSent(requests, uuid, i)
                           <==> IsSent(before, uuid, i) || (r.info.uuid == uuid && r.info.offset <= i < r.info.offset + |r.chunk|)
  {
    var n := |requests| - 1;
    var before, r := requests[..n], requests[n];
    assert forall k :: 0 <= k < n ==> before[k] == requests[k];
    forall i
      ensures IsSent(requests, uuid, i)
              <==> IsSent(before, uuid, i) || (r.info.uuid == uuid && r.info.offset <= i < r.info.offset + |r.chunk|)
    {
      if IsSent(requests, uuid, i) {
        var k :| 0 <= k < |requests| && requests[k].info.uuid == uuid
                 && requests[k].info.offset <= i < requests[k].info.offset + |requests[k].chunk|;
        assert k == n || before[k] == requests[k];
      }
      if IsSent(before, uuid, i) {
        var k :| 0 <= k < |before| && before[k].info.uuid == uuid
                 && before[k].info.offset <= i < before[k].info.offset + |before[k].chunk|;
        assert requests[k] == before[k];
      }
    }
  }

  lemma {:induction false} RequestsHoldSent(files: ChunkFiles, requests: seq<Request>, uuid: string, content: Bytes, maxFileSizeMB: int)
    requires uuid !in files && UploadsContent(requests, uuid, content, maxFileSizeMB) && |content| <= MAX_INT64
    ensures HoldsSent(AfterRequests(files, requests, maxFileSizeMB), requests, uuid, content)
    decreases |requests|
  {
    if requests == [] {
    } else {
      var n := |requests| - 1;
      var before, r := requests[..n], requests[n];
      RequestsHoldSent(files, before, uuid, content, maxFileSizeMB);
      var b := AfterRequests(files, before, maxFileSizeMB);
      TheLastRequestSends(requests, uuid);
      if r.info.uuid == uuid {
        APieceIsWritten(b, r, content, maxFileSizeMB);
      } else {
        AnotherUploadIsLeftAlone(b, r, uuid, maxFileSizeMB);
      }
    }
  }

  lemma AnotherUploadIsLeftAlone(files: ChunkFiles, r: Request, uuid: string, maxFileSizeMB: int)
    requires r.Valid() && r.info.uuid != uuid
    ensures var after := AfterRequest(files, r, maxFileSizeMB).files;
            (uuid in after <==> uuid in files) && (uuid in files ==> after[uuid] == files[uuid])
  {}

  /**
   Once every byte was sent, in any order and with repeats and other uploads in between, the chunk file is
   the original, and its size is allowed.
   */
  lemma PiecesGiveTheFile(files: ChunkFiles, requests: seq<Request>, uuid: string, content: Bytes, maxFileSizeMB: int)
    requires uuid !in files && UploadsContent(requests, uuid, content, maxFileSizeMB) && |content| <= MAX_INT64
    requires IsStarted(requests, uuid) && forall i :: 0 <= i < |content| ==> IsSent(requests, uuid, i)
    ensures var after := AfterRequests(files, requests, maxFileSizeMB);
            uuid in after && after[uuid] == content && IsAllowedFileSize(maxFileSizeMB, |content|)
  {
    RequestsHoldSent(files, requests, uuid, content, maxFileSizeMB);
    var k :| 0 <= k < |requests| && requests[k].info.uuid == uuid;
    assert IsPieceOf(requests[k], content, maxFileSizeMB);
  }
}
