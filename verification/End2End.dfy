/** End-to-end encrypted uploads: the browser slices the file, encrypts every slice and posts what the cipher gives out. */
module End2End {
  import opened Wrappers
  import opened Chunking
  import opened PublicUpload

  /**
   A stream cipher with a fixed key: `written(p)` is the ciphertext given out after `p` has been fed to it, and
   `closed(p)` the whole ciphertext once it is closed.
   */
  datatype Stream = Stream(written: Bytes -> Bytes, closed: Bytes -> Bytes)

  /** Ciphertext that was given out never changes, and its final length is the announced one. */
  ghost predicate IsLengthExact(stream: Stream, encryptedSize: nat -> nat) {
    && (forall p, q {:trigger stream.written(p + q)} :: stream.written(p) <= stream.written(p + q))
    && (forall p {:trigger stream.closed(p)} :: stream.written(p) <= stream.closed(p) && |stream.closed(p)| == encryptedSize(|p|))
  }

  /** The encryption state of one upload in the browser's worker. */
  class UploadData {
    const stream: Stream
    var fed: Bytes
    var writerInput: Bytes
    var bytesSent: nat

    /** The buffer holds the ciphertext that was given out and not sent yet. */
    ghost predicate Valid()
      reads this
    {
      bytesSent + |writerInput| == |stream.written(fed)| && writerInput == stream.written(fed)[bytesSent..]
    }

    constructor (stream: Stream)
      ensures this.stream == stream && fed == [] && bytesSent == 0 && Valid()
    {
      this.stream := stream;
      fed, bytesSent := [], 0;
      writerInput := stream.written([]);
    }

    /** Feeds the cipher, which appends what it gives out to the buffer. */
    method Write(chunk: Bytes)
      requires Valid() && stream.written(fed) <= stream.written(fed + chunk)
      modifies this
      ensures Valid() && fed == old(fed) + chunk && bytesSent == old(bytesSent)
    {
      var output := stream.written(fed + chunk)[|stream.written(fed)|..];
      fed := fed + chunk;
      writerInput := writerInput + output;
    }

    /** Closes the cipher, which appends the rest of the ciphertext to the buffer. */
    method Close()
      requires Valid() && stream.written(fed) <= stream.closed(fed)
      modifies this
      ensures fed == old(fed) && bytesSent == old(bytesSent) <= |stream.closed(fed)|
      ensures writerInput == stream.closed(fed)[bytesSent..]
    {
      writerInput := writerInput + stream.closed(fed)[|stream.written(fed)|..];
    }

    /** Feeds a slice, then reads and resets the buffer: the ciphertext that has come out since the last call. */
    method UploadChunk(chunk: Bytes, isLastChunk: bool) returns (encrypted: Bytes)
      requires Valid() && stream.written(fed) <= stream.written(fed + chunk) <= stream.closed(fed + chunk)
      modifies this
      ensures fed == old(fed) + chunk && bytesSent == old(bytesSent) + |encrypted|
      ensures var output := if isLastChunk then stream.closed(fed) else stream.written(fed);
              bytesSent == |output| && encrypted == output[old(bytesSent)..]
      ensures !isLastChunk ==> Valid()
    {
      Write(chunk);
      if isLastChunk {
        Close();
      }
      encrypted := writerInput;
      bytesSent := bytesSent + |encrypted|;
      writerInput := [];
    }
  }

  /** The slices before `chunkIndex` together. */
  function PlaintextBefore(file: Bytes, chunkIndex: nat, chunkSize: nat): Bytes {
    Slice(file, 0, chunkIndex * chunkSize)
  }

  lemma ASliceIsRead(file: Bytes, chunkIndex: nat, chunkSize: nat)
    ensures PlaintextBefore(file, chunkIndex, chunkSize) + Slice(file, chunkIndex * chunkSize, chunkIndex * chunkSize + chunkSize)
            == PlaintextBefore(file, chunkIndex + 1, chunkSize)
  {
    assert (chunkIndex + 1) * chunkSize == chunkIndex * chunkSize + chunkSize;
  }

  lemma TheLastSliceIsRead(file: Bytes, chunkIndex: nat, chunkSize: nat)
    ensures PlaintextBefore(file, chunkIndex, chunkSize) + Slice(file, chunkIndex * chunkSize, |file|) == file
  {}

  predicate IsLastChunk(chunkIndex: nat, totalChunkCount: nat) {
    chunkIndex == totalChunkCount - 1
  }

  /**
   The upload from slice `chunkIndex` on; one post for every remaining slice. The posts continue each other,
   carry the rest of the ciphertext of the whole file and end with its announced length.
   */
  method UploadChunk(file: Bytes, upload: UploadData, ghost size: nat -> nat, totalChunkCount: nat, chunkIndex: nat, chunkSize: nat, bytesWritten: nat)
    returns (posts: seq<Post>)
    requires IsLengthExact(upload.stream, size) && chunkIndex < totalChunkCount
    requires upload.fed == PlaintextBefore(file, chunkIndex, chunkSize)
    requires bytesWritten == upload.bytesSent && upload.Valid()
    modifies upload
    ensures upload.fed == file
    ensures |posts| == totalChunkCount - chunkIndex
    ensures Contiguous(posts, bytesWritten) && bytesWritten + |Concat(posts)| == size(|file|)
    ensures Concat(posts) == upload.stream.closed(file)[bytesWritten..]
    decreases totalChunkCount - chunkIndex
  {
    var isLastChunk := false;
    var bytesReadPlaintext := chunkIndex * chunkSize;
    var readEnd := bytesReadPlaintext + chunkSize;
    if IsLastChunk(chunkIndex, totalChunkCount) {
      isLastChunk := true;
      readEnd := |file|;
    }
    var data := Slice(file, bytesReadPlaintext, readEnd);
    ASliceIsRead(file, chunkIndex, chunkSize);
    TheLastSliceIsRead(file, chunkIndex, chunkSize);
    FeedingOnlyAdds(upload.stream, size, upload.fed, data);
    var encrypted := upload.UploadChunk(data, isLastChunk);
    var rest: seq<Post> := [];
    if !isLastChunk {
      FedIsAPrefix(upload.stream, size, file, upload.fed);
      rest := UploadChunk(file, upload, size, totalChunkCount, chunkIndex + 1, chunkSize, bytesWritten + |encrypted|);
    }
    posts := [Post(bytesWritten, encrypted)] + rest;
    PostsContinue(posts, upload.stream.closed(file), bytesWritten);
  }

  lemma FeedingOnlyAdds(stream: Stream, size: nat -> nat, fed: Bytes, data: Bytes)
    requires IsLengthExact(stream, size)
    ensures stream.written(fed) <= stream.written(fed + data) <= stream.closed(fed + data)
  {}

  lemma FedIsAPrefix(stream: Stream, size: nat -> nat, file: Bytes, fed: Bytes)
    requires IsLengthExact(stream, size) && fed <= file
    ensures stream.written(fed) <= stream.closed(file)
  {
    assert fed + file[|fed|..] == file;
  }

  lemma PostsContinue(posts: seq<Post>, all: Bytes, start: nat)
    requires posts != [] && posts[0].offset == start
    requires start + |posts[0].data| <= |all| && posts[0].data == all[start..start + |posts[0].data|]
    requires Contiguous(posts[1..], start + |posts[0].data|) && Concat(posts[1..]) == all[start + |posts[0].data|..]
    ensures Contiguous(posts, start) && Concat(posts) == all[start..]
  {}

  /** The whole upload: one post per announced slice, together the ciphertext of the file. */
  method SetE2eUpload(file: Bytes, stream: Stream, size: nat -> nat, chunkSize: nat) returns (posts: seq<Post>)
    requires IsLengthExact(stream, size) && chunkSize > 0 && 0 < size(|file|)
    ensures |posts| == CeilDiv(size(|file|), chunkSize)
    ensures Contiguous(posts, 0) && Concat(posts) == stream.closed(file) && |Concat(posts)| == size(|file|)
  {
    var encryptedSize := size(|file|);
    var totalChunkCount := CeilDiv(encryptedSize, chunkSize);
    CeilDivBounds(encryptedSize, chunkSize);
    var upload := new UploadData(stream);
    posts := UploadChunk(file, upload, size, totalChunkCount, 0, chunkSize, 0);
  }

  /** The recursion has a last slice exactly if the encrypted size is not 0. */
  lemma SomeSliceIsTheLast(encryptedSize: nat, chunkSize: nat)
    requires chunkSize > 0
    ensures (exists i: nat :: IsLastChunk(i, CeilDiv(encryptedSize, chunkSize))) <==> encryptedSize > 0
  {
    CeilDivBounds(encryptedSize, chunkSize);
    if encryptedSize > 0 {
      assert IsLastChunk(CeilDiv(encryptedSize, chunkSize) - 1, CeilDiv(encryptedSize, chunkSize));
    }
  }

  /** No slice that is read is larger than the chunk size, the last one included, if encryption does not shorten the file. */
  lemma SlicesFitTheChunkSize(file: Bytes, encryptedSize: nat, chunkSize: nat, chunkIndex: nat)
    requires chunkSize > 0 && |file| <= encryptedSize && chunkIndex < CeilDiv(encryptedSize, chunkSize)
    ensures var start := chunkIndex * chunkSize;
            var readEnd := if IsLastChunk(chunkIndex, CeilDiv(encryptedSize, chunkSize)) then |file| else start + chunkSize;
            |Slice(file, start, readEnd)| <= chunkSize
  {
    CeilDivBounds(encryptedSize, chunkSize);
    if IsLastChunk(chunkIndex, CeilDiv(encryptedSize, chunkSize)) {
      assert (chunkIndex + 1) * chunkSize == chunkIndex * chunkSize + chunkSize;
    }
  }

  /** What the server has after the posts arrived in any order decrypts to the uploaded file. */
  lemma UploadedFileDecrypts(files: ChunkFiles, requests: seq<Request>, posts: seq<Post>, uuid: string, maxFileSizeMB: int,
                             file: Bytes, stream: Stream, size: nat -> nat, decrypt: Bytes -> Bytes)
    requires uuid !in files && 0 < size(|file|) <= MAX_INT64
    requires Contiguous(posts, 0) && Concat(posts) == stream.closed(file) && |Concat(posts)| == size(|file|)
    requires Sends(requests, posts, uuid, size(|file|), maxFileSizeMB)
    requires forall p :: decrypt(stream.closed(p)) == p
    ensures UploadsContent(requests, uuid, Concat(posts), maxFileSizeMB)
    ensures var after := AfterRequests(files, requests, maxFileSizeMB);
            && uuid in after && |after[uuid]| == size(|file|) && decrypt(after[uuid]) == file
  {
    SentPostsGiveTheFile(files, requests, posts, uuid, maxFileSizeMB);
  }
}
