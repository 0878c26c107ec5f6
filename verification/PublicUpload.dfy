/** How the upload pages cut a file into pieces, and that the server puts it together again. */
module PublicUpload {
  import opened Wrappers
  import opened Models
  import opened Chunking

  /** The data of one request, and where it belongs in the file. */
  datatype Post = Post(offset: nat, data: Bytes)

  /** A slice of a file; positions behind its end count as its end. */
  function Slice(file: Bytes, start: nat, end: nat): Bytes {
    var s, e := Min(start, |file|), Min(end, |file|);
    if s < e then file[s..e] else []
  }

  function CeilDiv(n: nat, d: nat): nat
    requires d > 0
  {
    if n % d == 0 then n / d else n / d + 1
  }

  function Concat(posts: seq<Post>): Bytes {
    if posts == [] then [] else posts[0].data + Concat(posts[1..])
  }

  /** Every post starts where the one before it ended. */
  predicate Contiguous(posts: seq<Post>, start: nat)
    decreases |posts|
  {
    posts == [] || (posts[0].offset == start && Contiguous(posts[1..], start + |posts[0].data|))
  }

  lemma FirstPost(post: Post, rest: seq<Post>, start: nat)
    ensures Concat([post] + rest) == post.data + Concat(rest)
    ensures Contiguous([post] + rest, start) <==> post.offset == start && Contiguous(rest, start + |post.data|)
  {
    assert ([post] + rest)[1..] == rest;
  }

  lemma {:induction false} ContiguousConcat(a: seq<Post>, b: seq<Post>, start: nat)
    requires Contiguous(a, start) && Contiguous(b, start + |Concat(a)|)
    ensures Contiguous(a + b, start) && Concat(a + b) == Concat(a) + Concat(b)
    decreases |a|
  {
    if a == [] {
      assert a + b == b;
    } else {
      var first, rest := a[0], a[1..];
      FirstOfPosts(a, b);
      FirstPost(first, rest, start);
      ContiguousConcat(rest, b, start + |first.data|);
      FirstPost(first, rest + b, start);
      DataInFront(first.data, Concat(rest), Concat(b));
    }
  }

  lemma FirstOfPosts(a: seq<Post>, b: seq<Post>)
    requires a != []
    ensures a == [a[0]] + a[1..] && a + b == [a[0]] + (a[1..] + b)
  {}

  lemma DataInFront(a: Bytes, b: Bytes, c: Bytes)
    ensures a + (b + c) == (a + b) + c
  {}

  lemma APieceIsCut(file: Bytes, posts: seq<Post>, offset: nat, size: nat)
    requires offset <= |file| && Contiguous(posts, 0) && Concat(posts) == file[..offset]
    ensures var chunk := Slice(file, offset, offset + size);
            && Contiguous(posts + [Post(offset, chunk)], 0)
            && Concat(posts + [Post(offset, chunk)]) == file[..offset + |chunk|]
  {
    var chunk := Slice(file, offset, offset + size);
    var post := Post(offset, chunk);
    assert Concat([post]) == chunk + [];
    ContiguousConcat(posts, [post], 0);
    assert file[..offset] + chunk == file[..offset + |chunk|];
  }

  /** All posts so far are of the chunk size, and `offset` is where they end. */
  predicate AreWhole(posts: seq<Post>, chunkSize: nat, offset: nat) {
    offset == |posts| * chunkSize && forall k :: 0 <= k < |posts| ==> |posts[k].data| == chunkSize
  }

  /** All posts but the last are of the chunk size, and the last one has the rest. */
  predicate AreCutFrom(posts: seq<Post>, chunkSize: nat, size: nat) {
    && |posts| > 0
    && AreWhole(posts[..|posts| - 1], chunkSize, (|posts| - 1) * chunkSize)
    && |posts[|posts| - 1].data| == size - (|posts| - 1) * chunkSize
  }

  lemma OneMoreWhole(posts: seq<Post>, chunkSize: nat, offset: nat, post: Post)
    requires AreWhole(posts, chunkSize, offset) && |post.data| == chunkSize
    ensures AreWhole(posts + [post], chunkSize, offset + chunkSize)
  {
    assert (|posts| + 1) * chunkSize == |posts| * chunkSize + chunkSize;
  }

  lemma TheLastPost(posts: seq<Post>, chunkSize: nat, offset: nat, post: Post, size: nat)
    requires AreWhole(posts, chunkSize, offset) && offset + |post.data| == size && |post.data| <= chunkSize
    requires chunkSize > 0 && (size == offset == 0 || offset < size)
    ensures AreCutFrom(posts + [post], chunkSize, size)
    ensures |posts + [post]| == if size == 0 then 1 else CeilDiv(size, chunkSize)
  {
    var n := |posts|;
    assert (posts + [post])[..n] == posts;
    assert (n + 1) * chunkSize == n * chunkSize + chunkSize;
    if size > 0 {
      CeilDivIsUnique(size, chunkSize, n + 1);
    } else if n > 0 {
      MulMonotone(1, n, chunkSize);
    }
  }

  /** The upload loop: one post for every piece, and one empty post for an empty file. */
  method StartUpload(file: Bytes, chunkSize: nat) returns (posts: seq<Post>)
    requires chunkSize > 0
    ensures Contiguous(posts, 0) && Concat(posts) == file
    ensures |posts| == if file == [] then 1 else CeilDiv(|file|, chunkSize)
    ensures AreCutFrom(posts, chunkSize, |file|)
  {
    posts := [];
    var offset := 0;
    while true
      invariant AreWhole(posts, chunkSize, offset) && (offset < |file| || offset == 0)
      invariant Contiguous(posts, 0) && Concat(posts) == file[..offset]
      decreases |file| - offset
    {
      var chunk := Slice(file, offset, offset + chunkSize);
      var post := Post(offset, chunk);
      APieceIsCut(file, posts, offset, chunkSize);
      if offset + |chunk| >= |file| {
        TheLastPost(posts, chunkSize, offset, post, |file|);
        assert file[..offset + |chunk|] == file;
      } else {
        OneMoreWhole(posts, chunkSize, offset, post);
      }
      posts := posts + [post];
      offset := offset + |chunk|;
      if offset >= |file| {
        break;
      }
    }
  }

  lemma CeilDivBounds(n: nat, d: nat)
    requires d > 0
    ensures (CeilDiv(n, d) - 1) * d < n <= CeilDiv(n, d) * d || n == CeilDiv(n, d) == 0
  {
    assert n == n / d * d + n % d;
  }

  lemma MulMonotone(a: int, b: int, d: nat)
    requires a <= b
    ensures a * d <= b * d
  {}

  lemma CeilDivIsUnique(n: nat, d: nat, k: nat)
    requires d > 0 && n > 0 && (k - 1) * d < n <= k * d
    ensures CeilDiv(n, d) == k
  {
    var q := CeilDiv(n, d);
    CeilDivBounds(n, d);
    if q <= k - 1 {
      MulMonotone(q, k - 1, d);
    }
    if k <= q - 1 {
      MulMonotone(k, q - 1, d);
    }
  }

  // ---------------------------------------------------------------- what arrives at the server

  predicate IsRequestFor(r: Request, post: Post, uuid: string, total: nat, maxFileSizeMB: int) {
    && r.info == ChunkInfo(total, post.offset, uuid) && r.chunk == post.data
    && r.maxAllowed > 0 && total <= Min(maxFileSizeMB * 1024 * 1024, r.maxAllowed) && r.enoughSpace
  }

  ghost predicate IsOneOf(r: Request, posts: seq<Post>, uuid: string, total: nat, maxFileSizeMB: int) {
    exists k :: 0 <= k < |posts| && IsRequestFor(r, posts[k], uuid, total, maxFileSizeMB)
  }

  ghost predicate IsPosted(post: Post, requests: seq<Request>, uuid: string, total: nat, maxFileSizeMB: int) {
    exists i :: 0 <= i < |requests| && IsRequestFor(requests[i], post, uuid, total, maxFileSizeMB)
  }

  /** The requests for this upload send the posts in any order, each at least once; others may come in between. */
  ghost predicate Sends(requests: seq<Request>, posts: seq<Post>, uuid: string, total: nat, maxFileSizeMB: int) {
    && (forall i :: 0 <= i < |requests| ==> requests[i].Valid())
    && (forall i {:trigger IsOneOf(requests[i], posts, uuid, total, maxFileSizeMB)} ::
          0 <= i < |requests| && requests[i].info.uuid == uuid ==> IsOneOf(requests[i], posts, uuid, total, maxFileSizeMB))
    && (forall k {:trigger IsPosted(posts[k], requests, uuid, total, maxFileSizeMB)} ::
          0 <= k < |posts| ==> IsPosted(posts[k], requests, uuid, total, maxFileSizeMB))
  }

  lemma SliceBehind(first: Bytes, rest: Bytes, o: nat, n: nat)
    requires o + n <= |rest|
    ensures (first + rest)[|first| + o..|first| + o + n] == rest[o..o + n]
    ensures (first + rest)[0..|first|] == first
  {}

  lemma {:induction false} PostsArePieces(posts: seq<Post>, start: nat, k: nat)
    requires Contiguous(posts, start) && k < |posts|
    ensures start <= posts[k].offset && posts[k].offset + |posts[k].data| <= start + |Concat(posts)|
    ensures posts[k].data == Concat(posts)[posts[k].offset - start..posts[k].offset - start + |posts[k].data|]
    decreases |posts|
  {
    var first, rest := posts[0].data, Concat(posts[1..]);
    assert Concat(posts) == first + rest;
    if k == 0 {
      SliceBehind(first, rest, 0, 0);
    } else {
      PostsArePieces(posts[1..], start + |first|, k - 1);
      assert posts[1..][k - 1] == posts[k];
      SliceBehind(first, rest, posts[k].offset - start - |first|, |posts[k].data|);
    }
  }

  lemma {:induction false} SomePostHolds(posts: seq<Post>, start: nat, i: nat) returns (k: nat)
    requires Contiguous(posts, start) && start <= i < start + |Concat(posts)|
    ensures k < |posts| && posts[k].offset <= i < posts[k].offset + |posts[k].data|
    decreases |posts|
  {
    if i < start + |posts[0].data| {
      k := 0;
    } else {
      k := SomePostHolds(posts[1..], start + |posts[0].data|, i);
      k := k + 1;
    }
  }

  /** Contiguous posts, sent in any order and with repeats, give their concatenation. */
  lemma RequestsArePieces(requests: seq<Request>, posts: seq<Post>, uuid: string, content: Bytes, maxFileSizeMB: int)
    requires Contiguous(posts, 0) && Concat(posts) == content
    requires Sends(requests, posts, uuid, |content|, maxFileSizeMB)
    ensures UploadsContent(requests, uuid, content, maxFileSizeMB)
  {
    forall i | 0 <= i < |requests| && requests[i].info.uuid == uuid
      ensures IsPieceOf(requests[i], content, maxFileSizeMB)
    {
      assert IsOneOf(requests[i], posts, uuid, |content|, maxFileSizeMB);
      var k :| 0 <= k < |posts| && IsRequestFor(requests[i], posts[k], uuid, |content|, maxFileSizeMB);
      PostsArePieces(posts, 0, k);
    }
  }

  lemma EveryByteIsSent(requests: seq<Request>, posts: seq<Post>, uuid: string, content: Bytes, maxFileSizeMB: int, b: nat)
    requires Contiguous(posts, 0) && Concat(posts) == content && b < |content|
    requires Sends(requests, posts, uuid, |content|, maxFileSizeMB)
    ensures IsSent(requests, uuid, b)
  {
    var k := SomePostHolds(posts, 0, b);
    assert IsPosted(posts[k], requests, uuid, |content|, maxFileSizeMB);
    var i :| 0 <= i < |requests| && IsRequestFor(requests[i], posts[k], uuid, |content|, maxFileSizeMB);
  }

  /** Contiguous posts, sent in any order and with repeats, give their concatenation. */
  lemma SentPostsGiveTheFile(files: ChunkFiles, requests: seq<Request>, posts: seq<Post>, uuid: string, maxFileSizeMB: int)
    requires uuid !in files && posts != [] && Contiguous(posts, 0) && |Concat(posts)| <= MAX_INT64
    requires Sends(requests, posts, uuid, |Concat(posts)|, maxFileSizeMB)
    ensures UploadsContent(requests, uuid, Concat(posts), maxFileSizeMB)
    ensures var after := AfterRequests(files, requests, maxFileSizeMB);
            uuid in after && after[uuid] == Concat(posts) && IsAllowedFileSize(maxFileSizeMB, |Concat(posts)|)
  {
    var content := Concat(posts);
    RequestsArePieces(requests, posts, uuid, content, maxFileSizeMB);
    forall b | 0 <= b < |content|
      ensures IsSent(requests, uuid, b)
    {
      EveryByteIsSent(requests, posts, uuid, content, maxFileSizeMB, b);
    }
    assert IsStarted(requests, uuid) by {
      assert IsPosted(posts[0], requests, uuid, |content|, maxFileSizeMB);
      var first :| 0 <= first < |requests| && IsRequestFor(requests[first], posts[0], uuid, |content|, maxFileSizeMB);
    }
    PiecesGiveTheFile(files, requests, uuid, content, maxFileSizeMB);
  }
}
