/** The whole way of an upload in pieces: from the file in the browser to what a download of it sends. */
module UploadPath {
  import opened Wrappers
  import opened Encryption
  import opened Models
  import opened Chunking
  import opened PublicUpload
  import opened End2End
  import opened FileStore
  import opened FileStoreInvariant

  /**
   Pieces of a file, however cut, that arrived in any order and with repeats become a stored file that is
   served as the original, whether or not it was stored before, encrypted or not.
   */
  lemma UploadedFileIsServed(cfg: Config, s: Store, chunks: ChunkFiles, requests: seq<Request>, posts: seq<Post>, uuid: string,
                             id: FileId, header: FileHeader, userId: UserId, params: UploadParameters,
                             key: Key, nonce: Nonce, random: nat, now: int)
    requires StoreInv(cfg, s) && id != NO_ID && id !in s.files && Random(random) !in s.sources
    requires uuid !in chunks && posts != [] && Contiguous(posts, 0) && header.size == |Concat(posts)| <= MAX_INT64
    requires Sends(requests, posts, uuid, header.size, cfg.maxFileSizeMB)
    requires !params.isEndToEndEncrypted
    ensures UploadsContent(requests, uuid, Concat(posts), cfg.maxFileSizeMB)
    ensures var received := AfterRequests(chunks, requests, cfg.maxFileSizeMB);
            && uuid in received
            && var s' := AfterNewFileFromChunk(cfg, s, id, header, received[uuid], userId, params, key, nonce, random, now);
               && StoreInv(cfg, s') && id in s'.files && s'.files[id].sha1 in s'.sources
               && Served(cfg, s'.files[id], s'.sources[s'.files[id].sha1]) == Some(Plain(Concat(posts)))
  {
    SentPostsGiveTheFile(chunks, requests, posts, uuid, cfg.maxFileSizeMB);
    var content := Concat(posts);
    NewFileFromChunkKeepsInv(cfg, s, id, header, content, userId, params, key, nonce, random, now);
    var s' := AfterNewFileFromChunk(cfg, s, id, header, content, userId, params, key, nonce, random, now);
    ServedIsContent(cfg, s', id);
  }

  /** An end-to-end upload to a server that does not encrypt is served as the ciphertext, which decrypts to the file. */
  lemma EndToEndUploadIsServed(cfg: Config, s: Store, chunks: ChunkFiles, requests: seq<Request>, posts: seq<Post>, uuid: string,
                               id: FileId, header: FileHeader, userId: UserId, params: UploadParameters,
                               key: Key, nonce: Nonce, random: nat, now: int,
                               file: Bytes, stream: Stream, decrypt: Bytes -> Bytes)
    requires StoreInv(cfg, s) && id != NO_ID && id !in s.files && Random(random) !in s.sources
    requires uuid !in chunks && posts != [] && Contiguous(posts, 0) && header.size == |Concat(posts)| <= MAX_INT64
    requires Sends(requests, posts, uuid, header.size, cfg.maxFileSizeMB)
    requires params.isEndToEndEncrypted && !IsEncryptionRequested(cfg.level)
    requires Concat(posts) == stream.closed(file) && forall p :: decrypt(stream.closed(p)) == p
    ensures UploadsContent(requests, uuid, Concat(posts), cfg.maxFileSizeMB)
    ensures var received := AfterRequests(chunks, requests, cfg.maxFileSizeMB);
            && uuid in received
            && var s' := AfterNewFileFromChunk(cfg, s, id, header, received[uuid], userId, params, key, nonce, random, now);
               && StoreInv(cfg, s') && id in s'.files && s'.files[id].sha1 in s'.sources
               && var served := Served(cfg, s'.files[id], s'.sources[s'.files[id].sha1]);
                  served == Some(Plain(stream.closed(file))) && decrypt(served.value.content) == file
  {
    SentPostsGiveTheFile(chunks, requests, posts, uuid, cfg.maxFileSizeMB);
    var content := Concat(posts);
    NewFileFromChunkKeepsInv(cfg, s, id, header, content, userId, params, key, nonce, random, now);
    ServedIsContent(cfg, AfterNewFileFromChunk(cfg, s, id, header, content, userId, params, key, nonce, random, now), id);
  }
}
