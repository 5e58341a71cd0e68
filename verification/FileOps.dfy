/** Mapping pieces and chunks onto the files: checking, reading and writing. */
module FileOps {
  import opened Prelude
  import opened Lengths
  import opened Files
  import opened Storage

  /** The validated metadata: geometry, files, piece hashes, and the hash function. */
  datatype Torrent<!D(==)> = Torrent(lengths: Lengths, files: seq<FileInfo>, hashes: seq<D>, sha1: seq<Byte> -> D) {
    ghost predicate Valid() {
      Tiles(lengths, files)
    }

    function CompareHash(p: nat, digest: D): Option<bool> {
      if p < |hashes| then Some(hashes[p] == digest) else None
    }

    /** The bytes of piece `p` as the files hold them now. */
    ghost function PieceContent(data: seq<seq<Byte>>, p: nat): seq<Byte>
      requires lengths.Valid()
    {
      PieceLengthNat(lengths, p);
      TorrentBytes(files, data, lengths.PieceStart(p), lengths.PieceLength(p))
    }

    ghost predicate PieceMatches(data: seq<seq<Byte>>, p: nat)
      requires lengths.Valid()
    {
      p < |hashes| && sha1(PieceContent(data, p)) == hashes[p]
    }

    ghost predicate PieceBacked(data: seq<seq<Byte>>, p: nat)
      requires lengths.Valid()
    {
      PieceLengthNat(lengths, p);
      Backed(files, data, lengths.PieceStart(p), lengths.PieceLength(p))
    }

    /** Some byte sequence shorter than the piece has the piece's hash. */
    ghost predicate ShorterMatch(p: nat) {
      p < |hashes| && exists x :: |x| < lengths.PieceLength(p) && sha1(x) == hashes[p]
    }

    /** The hashes are those of blocks of the right lengths, under a collision-free function. */
    ghost predicate Honest()
      requires lengths.Valid()
    {
      && (forall x, y :: sha1(x) == sha1(y) ==> x == y)
      && lengths.TotalPieces() <= |hashes|
      && (forall p :: 0 <= p < lengths.TotalPieces() ==> IsBlockHash(p))
    }

    ghost predicate IsBlockHash(p: nat)
      requires p < |hashes|
    {
      exists block :: |block| == lengths.PieceLength(p) && sha1(block) == hashes[p]
    }
  }

  ghost predicate FileBacked(files: seq<FileInfo>, data: seq<seq<Byte>>, i: nat, o: nat, n: nat)
    requires i < |files|
  {
    files[i].padding || n == 0 || (i < |data| && o + n <= |data[i]|)
  }

  /** Two places in the torrent coincide only if file and offset do. */
  lemma SamePlace(files: seq<FileInfo>, i: nat, o: nat, k: nat)
    requires i < |files| && o < files[i].len && k < |files|
    requires FileStart(files, k) <= FileStart(files, i) + o < FileStart(files, k + 1)
    ensures i == k
  {
    if i < k {
      FileStartMono(files, i + 1, k);
    } else if k < i {
      FileStartMono(files, k + 1, i);
    }
  }

  lemma BackedJoin(files: seq<FileInfo>, data: seq<seq<Byte>>, a: nat, n: nat, k: nat, o: nat, m: nat)
    requires Backed(files, data, a, n)
    requires k < |files| && o + m <= files[k].len && FileStart(files, k) + o == a + n
    requires FileBacked(files, data, k, o, m)
    ensures Backed(files, data, a, n + m)
  {
    forall i, o' | 0 <= i < |files| && 0 <= o' < files[i].len && !files[i].padding &&
                   a <= FileStart(files, i) + o' < a + n + m
      ensures InData(data, i, o')
    {
      if FileStart(files, i) + o' >= a + n {
        SamePlace(files, i, o', k);
      }
    }
  }

  /** One more stretch read from file `k` extends what has been read of the torrent. */
  lemma Extend(files: seq<FileInfo>, data: seq<seq<Byte>>, a: nat, n: nat, k: nat, o: nat, m: nat)
    requires k < |files| && o + m <= files[k].len && FileStart(files, k) + o == a + n
    ensures TorrentBytes(files, data, a, n) + FileBytesAt(files, data, k, o, m) == TorrentBytes(files, data, a, n + m)
  {
    StretchInFile(files, data, k, o, m);
    StretchJoin(files, data, a, n, m);
  }

  lemma PieceOfFile(files: seq<FileInfo>, data: seq<seq<Byte>>, i: nat, o: nat, n: nat, bytes: seq<Byte>)
    requires i < |files| && |bytes| == n
    requires if files[i].padding then forall j :: 0 <= j < n ==> bytes[j] == 0
             else i < |data| && o + n <= |data[i]| && bytes == data[i][o..o + n]
    ensures bytes == FileBytesAt(files, data, i, o, n)
  {
    var b := FileBytesAt(files, data, i, o, n);
    forall j | 0 <= j < n
      ensures bytes[j] == b[j]
    {
      assert b[j] == FileByte(files, data, i, o + j);
    }
  }

  // ---- The reads made to hash a range -----------------------------------------------

  const HASH_BUF: nat := 65536

  /** Each of the reads by which `n` bytes of file `k` are fed to the hash succeeds. */
  ghost predicate HashReadsOk(files: seq<FileInfo>, s: Storage, k: nat, o: nat, bufLen: nat, n: nat)
    requires k < |files| && bufLen > 0
    reads s
    decreases n
  {
    n > 0 ==>
      (files[k].padding || s.CanRead(k, o, Min(bufLen, n))) &&
      HashReadsOk(files, s, k, o + Min(bufLen, n), bufLen, n - Min(bufLen, n))
  }

  /** Read `i` of those: a whole buffer, or what is left. */
  ghost predicate HashReadOk(files: seq<FileInfo>, s: Storage, k: nat, o: nat, bufLen: nat, n: nat, i: nat)
    requires k < |files|
    reads s
  {
    files[k].padding || i * bufLen >= n || s.CanRead(k, o + i * bufLen, Min(bufLen, n - i * bufLen))
  }

  /** The reads are those of one buffer after another. */
  lemma {:induction false} HashReadsExactly(files: seq<FileInfo>, s: Storage, k: nat, o: nat, bufLen: nat, n: nat)
    requires k < |files| && bufLen > 0
    ensures HashReadsOk(files, s, k, o, bufLen, n) <==> forall i: nat :: HashReadOk(files, s, k, o, bufLen, n, i)
    decreases n
  {
    if n > 0 {
      var m: nat := Min(bufLen, n);
      var o', n' := o + m, n - m;
      HashReadsExactly(files, s, k, o', bufLen, n');
      assert HashReadOk(files, s, k, o, bufLen, n, 0) <==> files[k].padding || s.CanRead(k, o, m);
      forall i: nat | i > 0
        ensures HashReadOk(files, s, k, o, bufLen, n, i) <==> HashReadOk(files, s, k, o', bufLen, n', i - 1)
      {
        LaterRead(files, s, k, o, bufLen, n, i - 1);
      }
      forall i: nat
        ensures HashReadOk(files, s, k, o', bufLen, n', i) <==> HashReadOk(files, s, k, o, bufLen, n, i + 1)
      {
        LaterRead(files, s, k, o, bufLen, n, i);
      }
    } else {
      forall i: nat
        ensures HashReadOk(files, s, k, o, bufLen, n, i)
      {
      }
    }
  }

  lemma LaterRead(files: seq<FileInfo>, s: Storage, k: nat, o: nat, bufLen: nat, n: nat, i: nat)
    requires k < |files| && bufLen > 0
    ensures var m: nat := Min(bufLen, n);
      HashReadOk(files, s, k, o + m, bufLen, n - m, i) <==> HashReadOk(files, s, k, o, bufLen, n, i + 1)
  {
    MulStep(i, bufLen);
  }

  /** Where in file `k` the range `[a, a + n)` begins, and how much of it lies there. */
  function SpanStart(files: seq<FileInfo>, a: nat, k: nat): nat
    requires k < |files|
  {
    Max(a, FileStart(files, k)) - FileStart(files, k)
  }

  function SpanLen(files: seq<FileInfo>, a: nat, n: nat, k: nat): nat
    requires k < |files|
  {
    Max(0, Min(a + n, FileStart(files, k) + files[k].len) - Max(a, FileStart(files, k)))
  }

  /** The part of the range in file `k` can be read. */
  ghost predicate SpanReadable(files: seq<FileInfo>, s: Storage, a: nat, n: nat, bufLen: nat, k: nat)
    requires k < |files| && bufLen > 0
    reads s
  {
    HashReadsOk(files, s, k, SpanStart(files, a, k), bufLen, SpanLen(files, a, n, k))
  }

  ghost predicate RangeReadable(files: seq<FileInfo>, s: Storage, a: nat, n: nat, bufLen: nat)
    requires bufLen > 0
    reads s
  {
    forall k :: 0 <= k < |files| ==> SpanReadable(files, s, a, n, bufLen, k)
  }

  /** A range that fits the buffer is read in one go, whatever the buffer's size. */
  lemma BufferSize(files: seq<FileInfo>, s: Storage, k: nat, o: nat, small: nat, large: nat, n: nat)
    requires k < |files| && 0 < small <= large && (small < large ==> n <= small)
    ensures HashReadsOk(files, s, k, o, small, n) <==> HashReadsOk(files, s, k, o, large, n)
  {
  }

  lemma {:induction false} ReadableReads(files: seq<FileInfo>, s: Storage, k: nat, o: nat, bufLen: nat, n: nat)
    requires Readable(files, s) && k < |files| && bufLen > 0 && o + n <= files[k].len
    ensures HashReadsOk(files, s, k, o, bufLen, n)
    decreases n
  {
    if n > 0 {
      ReadableReads(files, s, k, o + Min(bufLen, n), bufLen, n - Min(bufLen, n));
    }
  }

  lemma ReadableRange(files: seq<FileInfo>, s: Storage, a: nat, n: nat, bufLen: nat)
    requires Readable(files, s) && bufLen > 0
    ensures RangeReadable(files, s, a, n, bufLen)
  {
    forall k | 0 <= k < |files|
      ensures SpanReadable(files, s, a, n, bufLen, k)
    {
      if SpanLen(files, a, n, k) > 0 {
        ReadableReads(files, s, k, SpanStart(files, a, k), bufLen, SpanLen(files, a, n, k));
      }
    }
  }

  /** What a range has of `[start, end)` does not change when it grows elsewhere. */
  lemma SpanElsewhere(a: nat, n: nat, m: nat, start: nat, end: nat)
    requires start <= end && (end <= a + n || a + n + m <= start)
    ensures Max(0, Min(a + n + m, end) - Max(a, start)) == Max(0, Min(a + n, end) - Max(a, start))
  {
  }

  /** Reading on through file `k` changes only what lies of the range in that file. */
  lemma SpansGrow(files: seq<FileInfo>, a: nat, done: nat, k: nat, o: nat, m: nat, i: nat)
    requires k < |files| && i < |files| && FileStart(files, k) + o == a + done && o + m <= files[k].len
    requires i != k
    ensures SpanLen(files, a, done + m, i) == SpanLen(files, a, done, i)
  {
    var start := FileStart(files, i);
    assert FileStart(files, i + 1) == start + files[i].len;
    if i < k {
      FileStartMono(files, i + 1, k);
    } else {
      FileStartMono(files, k + 1, i);
    }
    SpanElsewhere(a, done, m, start, start + files[i].len);
  }

  lemma SpanOfStretch(files: seq<FileInfo>, a: nat, done: nat, k: nat, o: nat, m: nat)
    requires k < |files| && FileStart(files, k) + o == a + done && o + m <= files[k].len
    requires done > 0 ==> o == 0
    ensures SpanLen(files, a, done + m, k) == m && SpanLen(files, a, done, k) == 0 && SpanStart(files, a, k) == o
  {
  }

  /** What is read of file `k` is all that lies of the range in it. */
  lemma SpanIs(files: seq<FileInfo>, a: nat, n: nat, done: nat, k: nat, o: nat)
    requires k < |files| && done < n && FileStart(files, k) + o == a + done && o <= files[k].len
    requires done > 0 ==> o == 0
    ensures SpanStart(files, a, k) == o && SpanLen(files, a, n, k) == Min(files[k].len - o, n - done)
  {
  }

  lemma RangeGrows(files: seq<FileInfo>, s: Storage, a: nat, done: nat, k: nat, o: nat, m: nat, bufLen: nat)
    requires k < |files| && bufLen > 0 && FileStart(files, k) + o == a + done && o + m <= files[k].len
    requires (done > 0 ==> o == 0) && RangeReadable(files, s, a, done, bufLen)
    requires HashReadsOk(files, s, k, o, bufLen, m)
    ensures RangeReadable(files, s, a, done + m, bufLen)
  {
    var n := done + m;
    forall i | 0 <= i < |files|
      ensures SpanReadable(files, s, a, n, bufLen, i)
    {
      if i == k {
        SpanOfStretch(files, a, done, k, o, m);
      } else {
        SpansGrow(files, a, done, k, o, m, i);
        assert SpanReadable(files, s, a, done, bufLen, i);
      }
    }
  }

  /** The hash has been fed `n` bytes of file `k` from `o` on. */
  ghost predicate Fed(files: seq<FileInfo>, s: Storage, k: nat, o: nat, n: nat, hash: seq<Byte>, h: seq<Byte>)
    requires k < |files|
    reads s
  {
    h == hash + FileBytesAt(files, s.data, k, o, n) && FileBacked(files, s.data, k, o, n)
  }

  /** Feed one bufferful to the hash. */
  method HashBuffer(files: seq<FileInfo>, s: Storage, fileId: nat, pos: nat, chunk: nat, hash: seq<Byte>)
    returns (ok: bool, h: seq<Byte>)
    requires fileId < |files| && pos + chunk <= files[fileId].len
    ensures ok <==> files[fileId].padding || s.CanRead(fileId, pos, chunk)
    ensures ok ==> Fed(files, s, fileId, pos, chunk, hash, h)
  {
    var bytes := seq(chunk, _ => 0 as Byte);
    if !files[fileId].padding {
      var r := s.PreadExact(fileId, pos, chunk);
      if r.None? {
        return false, hash;
      }
      bytes := r.value;
    }
    PieceOfFile(files, s.data, fileId, pos, chunk, bytes);
    return true, hash + bytes;
  }

  lemma FedMore(files: seq<FileInfo>, s: Storage, k: nat, o: nat, n: nat, m: nat, hash: seq<Byte>, h: seq<Byte>,
      h': seq<Byte>)
    requires k < |files| && Fed(files, s, k, o, n, hash, h) && Fed(files, s, k, o + n, m, h, h')
    ensures Fed(files, s, k, o, n + m, hash, h')
  {
    assert FileBytesAt(files, s.data, k, o, n) + FileBytesAt(files, s.data, k, o + n, m) ==
      FileBytesAt(files, s.data, k, o, n + m);
  }

  lemma NextHashRead(files: seq<FileInfo>, s: Storage, k: nat, o: nat, bufLen: nat, n: nat, read: nat, next: nat)
    requires k < |files| && bufLen > 0 && read < n && next == read + Min(bufLen, n - read)
    ensures HashReadsOk(files, s, k, o + read, bufLen, n - read) <==>
      (files[k].padding || s.CanRead(k, o + read, next - read)) && HashReadsOk(files, s, k, o + next, bufLen, n - next)
  {
    assert o + read + Min(bufLen, n - read) == o + next && n - read - Min(bufLen, n - read) == n - next;
  }

  /** Feed `n` bytes of a file to the hash, a buffer at a time. */
  method UpdateHashFromFile(files: seq<FileInfo>, s: Storage, fileId: nat, pos: nat, hash: seq<Byte>, bufLen: nat,
      n: nat)
    returns (ok: bool, h: seq<Byte>)
    requires fileId < |files| && bufLen > 0 && pos + n <= files[fileId].len
    ensures ok <==> HashReadsOk(files, s, fileId, pos, bufLen, n)
    ensures ok ==> Fed(files, s, fileId, pos, n, hash, h)
  {
    h := hash;
    var read: nat := 0;
    while read < n
      invariant read <= n && Fed(files, s, fileId, pos, read, hash, h)
      invariant HashReadsOk(files, s, fileId, pos, bufLen, n)
           <==> HashReadsOk(files, s, fileId, pos + read, bufLen, n - read)
    {
      var chunk: nat := Min(bufLen, n - read);
      NextHashRead(files, s, fileId, pos, bufLen, n, read, read + chunk);
      ok, h := FeedBuffer(files, s, fileId, pos, read, chunk, hash, h);
      if !ok {
        return;
      }
      read := read + chunk;
    }
    ok := true;
  }

  /** Feed the hash, which has been fed `read` bytes, one bufferful more. */
  method FeedBuffer(files: seq<FileInfo>, s: Storage, fileId: nat, pos: nat, read: nat, chunk: nat,
      ghost hash: seq<Byte>, h: seq<Byte>)
    returns (ok: bool, h': seq<Byte>)
    requires fileId < |files| && pos + read + chunk <= files[fileId].len
    requires Fed(files, s, fileId, pos, read, hash, h)
    ensures ok <==> files[fileId].padding || s.CanRead(fileId, pos + read, chunk)
    ensures ok ==> Fed(files, s, fileId, pos, read + chunk, hash, h')
  {
    ok, h' := HashBuffer(files, s, fileId, pos + read, chunk, h);
    if ok {
      FedMore(files, s, fileId, pos, read, chunk, hash, h, h');
    }
  }

  /** What hashing `[a, a + |h|)` has found so far: the torrent's bytes, all of which exist. */
  ghost predicate Hashed(files: seq<FileInfo>, s: Storage, a: nat, h: seq<Byte>)
    reads s
  {
    h == TorrentBytes(files, s.data, a, |h|) && Backed(files, s.data, a, |h|)
  }

  lemma HashedMore(files: seq<FileInfo>, s: Storage, a: nat, h: seq<Byte>, k: nat, o: nat, m: nat)
    requires k < |files| && FileStart(files, k) + o == a + |h| && o + m <= files[k].len
    requires Hashed(files, s, a, h) && FileBacked(files, s.data, k, o, m)
    ensures Hashed(files, s, a, h + FileBytesAt(files, s.data, k, o, m))
  {
    Extend(files, s.data, a, |h|, k, o, m);
    BackedJoin(files, s.data, a, |h|, k, o, m);
  }

  /** The part of piece `p` in file `k` can be read. */
  ghost predicate PartReadable<D>(t: Torrent<D>, s: Storage, p: nat, k: nat)
    requires t.Valid() && k < |t.files|
    reads s
  {
    PieceLengthNat(t.lengths, p);
    SpanReadable(t.files, s, t.lengths.PieceStart(p), t.lengths.PieceLength(p), HASH_BUF, k)
  }

  ghost predicate PieceReadable<D>(t: Torrent<D>, s: Storage, p: nat)
    requires t.Valid()
    reads s
  {
    forall k :: 0 <= k < |t.files| ==> PartReadable(t, s, p, k)
  }

  /** A verdict is given exactly when each read made for the piece succeeds and it has a hash, and it
      is about the piece's actual bytes. */
  ghost predicate CheckAnswer<D>(t: Torrent<D>, s: Storage, p: nat, r: Result<bool>)
    requires t.Valid()
    reads s
  {
    && (r.Ok? <==> PieceReadable(t, s, p) && p < |t.hashes|)
    && (r.Ok? ==> t.PieceBacked(s.data, p) && (r.value <==> t.PieceMatches(s.data, p)))
  }

  lemma PieceBuffer<D>(t: Torrent<D>, s: Storage, p: nat)
    requires t.Valid() && p < t.lengths.TotalPieces()
    ensures t.lengths.PieceLength(p) > 0
    ensures var len := t.lengths.PieceLength(p);
      PieceReadable(t, s, p) <==> RangeReadable(t.files, s, t.lengths.PieceStart(p), len, Min(HASH_BUF, len))
  {
    PiecesTile(t.lengths, p);
    var a, len := t.lengths.PieceStart(p), t.lengths.PieceLength(p);
    forall k | 0 <= k < |t.files|
      ensures PartReadable(t, s, p, k) <==> SpanReadable(t.files, s, a, len, Min(HASH_BUF, len), k)
    {
      BufferSize(t.files, s, k, SpanStart(t.files, a, k), Min(HASH_BUF, len), HASH_BUF, SpanLen(t.files, a, len, k));
    }
  }

  /** Hash a piece read file by file. */
  method CheckPiece<D(==)>(t: Torrent<D>, s: Storage, p: nat) returns (r: Result<bool>)
    requires t.Valid() && p < t.lengths.TotalPieces()
    ensures CheckAnswer(t, s, p, r)
  {
    PiecesTile(t.lengths, p);
    PieceStartMono(t.lengths, p + 1, t.lengths.TotalPieces());
    PiecesTile(t.lengths, t.lengths.TotalPieces());
    PieceBuffer(t, s, p);
    var h := HashRange(t.files, s, t.lengths.PieceStart(p), t.lengths.PieceLength(p));
    if h.None? {
      return Err("error reading the file");
    }
    match t.CompareHash(p, t.sha1(h.value))
    case Some(same) => return Ok(same);
    case None => return Err("compare_hash() did not find the piece");
  }

  lemma RangeHashed(files: seq<FileInfo>, s: Storage, a: nat, h: seq<Byte>, h': seq<Byte>, k: nat, o: nat, m: nat,
      bufLen: nat)
    requires k < |files| && bufLen > 0 && FileStart(files, k) + o == a + |h| && o + m <= files[k].len
    requires (|h| > 0 ==> o == 0) && RangeReadable(files, s, a, |h|, bufLen) && Hashed(files, s, a, h)
    requires HashReadsOk(files, s, k, o, bufLen, m) && Fed(files, s, k, o, m, h, h')
    ensures |h'| == |h| + m && RangeReadable(files, s, a, |h'|, bufLen) && Hashed(files, s, a, h')
  {
    RangeGrows(files, s, a, |h|, k, o, m, bufLen);
    HashedMore(files, s, a, h, k, o, m);
  }

  /** The bytes of a range, read file by file. */
  method HashRange(files: seq<FileInfo>, s: Storage, start: nat, len: nat) returns (r: Option<seq<Byte>>)
    requires 0 < len && start + len <= FileStart(files, |files|)
    ensures r.Some? <==> RangeReadable(files, s, start, len, Min(HASH_BUF, len))
    ensures r.Some? ==> |r.value| == len && Hashed(files, s, start, r.value)
  {
    var h: seq<Byte> := [];
    var offset: nat, remaining := start, len;
    var buf := Min(HASH_BUF, len);
    NothingToRead(files, s, start, buf);
    var k := 0;
    while k < |files| && remaining > 0
      invariant 0 <= k <= |files|
      invariant 0 <= remaining <= len && |h| == len - remaining
      invariant remaining > 0 ==> FileStart(files, k) + offset == start + |h| && (|h| > 0 ==> offset == 0)
      invariant RangeReadable(files, s, start, |h|, buf) && Hashed(files, s, start, h)
    {
      if offset > files[k].len {
        offset := offset - files[k].len;
      } else {
        var toRead := Min(files[k].len - offset, remaining);
        SpanIs(files, start, len, |h|, k, offset);
        var ok, h' := UpdateHashFromFile(files, s, k, offset, h, buf, toRead);
        if !ok {
          assert !SpanReadable(files, s, start, len, buf, k);
          return None;
        }
        RangeHashed(files, s, start, h, h', k, offset, toRead, buf);
        h, remaining, offset := h', remaining - toRead, 0;
      }
      k := k + 1;
    }
    return Some(h);
  }

  lemma NothingToRead(files: seq<FileInfo>, s: Storage, a: nat, bufLen: nat)
    requires bufLen > 0
    ensures RangeReadable(files, s, a, 0, bufLen)
  {
    forall k | 0 <= k < |files|
      ensures SpanReadable(files, s, a, 0, bufLen, k)
    {
      assert SpanLen(files, a, 0, k) == 0;
    }
  }

  // ---- The initial check ------------------------------------------------------------

  datatype CurrentFile = CurrentFile(index: nat, processed: nat, isBroken: bool)

  ghost predicate CursorAt(files: seq<FileInfo>, c: CurrentFile, pos: nat) {
    && c.index < |files|
    && c.processed <= files[c.index].len
    && FileStart(files, c.index) + c.processed == pos
  }

  /** The cursor's file is known to be broken and part of the range lies in it. */
  ghost predicate Skips(files: seq<FileInfo>, pos: nat, n: nat, cur: CurrentFile)
    requires cur.index < |files|
  {
    cur.isBroken && SpanLen(files, pos, n, cur.index) > 0
  }

  /** A read of the range in file `k` is made and fails. */
  ghost predicate FailsIn(files: seq<FileInfo>, s: Storage, pos: nat, n: nat, cur: CurrentFile, k: nat)
    requires k < |files|
    reads s
  {
    !(k == cur.index && cur.isBroken) && !SpanReadable(files, s, pos, n, HASH_BUF, k)
  }

  ghost predicate FailsSomewhere(files: seq<FileInfo>, s: Storage, pos: nat, n: nat, cur: CurrentFile)
    reads s
  {
    exists k :: 0 <= k < |files| && FailsIn(files, s, pos, n, cur, k)
  }

  /** What hashing the first `n` bytes from `pos` has come to: the cursor, the bytes hashed, and whether
      a read failed. Bytes of a file already known to be broken are left out. */
  ghost predicate Scanned(files: seq<FileInfo>, s: Storage, cur: CurrentFile, pos: nat, n: nat,
      cur': CurrentFile, h: seq<Byte>, broken: bool)
    requires cur.index < |files|
    reads s
  {
    && CursorAt(files, cur', pos + n) && cur.index <= cur'.index
    && (broken <==> FailsSomewhere(files, s, pos, n, cur))
    && (cur'.isBroken <==>
          (cur'.index == cur.index && cur.isBroken) || !SpanReadable(files, s, pos, n, HASH_BUF, cur'.index))
    && (!broken && !Skips(files, pos, n, cur) ==> |h| == n && Hashed(files, s, pos, h))
    && (!broken && Skips(files, pos, n, cur) ==> |h| < n)
  }

  lemma NothingScanned(files: seq<FileInfo>, s: Storage, cur: CurrentFile, pos: nat)
    requires CursorAt(files, cur, pos)
    ensures Scanned(files, s, cur, pos, 0, cur, [], false)
  {
    NothingToRead(files, s, pos, HASH_BUF);
    assert forall k :: 0 <= k < |files| ==> SpanReadable(files, s, pos, 0, HASH_BUF, k);
  }

  /** The file after an exhausted one has not been read of the range. */
  lemma NextFile(files: seq<FileInfo>, s: Storage, cur: CurrentFile, pos: nat, n: nat, cur': CurrentFile,
      h: seq<Byte>, broken: bool)
    requires cur.index < |files| && Scanned(files, s, cur, pos, n, cur', h, broken)
    requires cur'.processed == files[cur'.index].len && cur'.index + 1 < |files|
    ensures Scanned(files, s, cur, pos, n, CurrentFile(cur'.index + 1, 0, false), h, broken)
  {
    var next := cur'.index + 1;
    assert FileStart(files, next) == pos + n;
    assert SpanLen(files, pos, n, next) == 0;
    assert SpanReadable(files, s, pos, n, HASH_BUF, next);
  }

  lemma FailsMore(files: seq<FileInfo>, s: Storage, cur: CurrentFile, pos: nat, n: nat, k: nat, o: nat, m: nat)
    requires k < |files| && FileStart(files, k) + o == pos + n && o + m <= files[k].len && (n > 0 ==> o == 0)
    ensures FailsSomewhere(files, s, pos, n + m, cur) <==>
      FailsSomewhere(files, s, pos, n, cur) ||
      (!(k == cur.index && cur.isBroken) && !HashReadsOk(files, s, k, o, HASH_BUF, m))
    ensures SpanReadable(files, s, pos, n + m, HASH_BUF, k) <==> HashReadsOk(files, s, k, o, HASH_BUF, m)
    ensures SpanReadable(files, s, pos, n, HASH_BUF, k)
  {
    SpanOfStretch(files, pos, n, k, o, m);
    var more := n + m;
    forall i | 0 <= i < |files| && i != k
      ensures FailsIn(files, s, pos, more, cur, i) <==> FailsIn(files, s, pos, n, cur, i)
    {
      SpansGrow(files, pos, n, k, o, m, i);
    }
    assert FailsIn(files, s, pos, more, cur, k) <==>
      !(k == cur.index && cur.isBroken) && !HashReadsOk(files, s, k, o, HASH_BUF, m);
    assert !FailsIn(files, s, pos, n, cur, k);
    if FailsSomewhere(files, s, pos, n, cur) {
      var i :| 0 <= i < |files| && FailsIn(files, s, pos, n, cur, i);
      assert FailsIn(files, s, pos, more, cur, i);
    }
    if FailsSomewhere(files, s, pos, more, cur) {
      var i :| 0 <= i < |files| && FailsIn(files, s, pos, more, cur, i);
      assert i != k ==> FailsIn(files, s, pos, n, cur, i);
    }
  }

  /** Move the cursor over one piece, hashing what can be read. */
  method HashNextPiece(files: seq<FileInfo>, s: Storage, cur: CurrentFile, ghost pos: nat, len: nat)
    returns (cur': CurrentFile, h: seq<Byte>, broken: bool)
    requires CursorAt(files, cur, pos) && pos + len <= FileStart(files, |files|)
    ensures Scanned(files, s, cur, pos, len, cur', h, broken)
  {
    var remaining := len;
    ghost var done := 0;
    cur', h, broken := cur, [], false;
    NothingScanned(files, s, cur, pos);
    while remaining > 0
      invariant 0 <= remaining == len - done
      invariant Scanned(files, s, cur, pos, done, cur', h, broken)
      invariant done > 0 && remaining > 0 ==> cur'.processed == files[cur'.index].len
    {
      var toRead;
      cur', h, broken, toRead := HashStretch(files, s, cur, pos, done, cur', h, broken, remaining);
      remaining, done := remaining - toRead, done + toRead;
    }
  }

  /** Hash what the next file with bytes left has of the piece. */
  method HashStretch(files: seq<FileInfo>, s: Storage, ghost cur: CurrentFile, ghost pos: nat, ghost done: nat,
      at: CurrentFile, hash: seq<Byte>, wasBroken: bool, remaining: nat)
    returns (cur': CurrentFile, h: seq<Byte>, broken: bool, m: nat)
    requires cur.index < |files| && Scanned(files, s, cur, pos, done, at, hash, wasBroken)
    requires 0 < remaining && pos + done + remaining <= FileStart(files, |files|)
    requires done > 0 ==> at.processed == files[at.index].len
    ensures 0 < m <= remaining && Scanned(files, s, cur, pos, done + m, cur', h, broken)
    ensures m < remaining ==> cur'.processed == files[cur'.index].len
  {
    cur' := SkipExhausted(files, s, cur, pos, done, at, hash, wasBroken);
    m := Min(files[cur'.index].len - cur'.processed, remaining);
    cur', h, broken := HashInFile(files, s, cur, pos, done, cur', hash, wasBroken, m);
  }

  /** Change to the next file until one has bytes left. */
  method SkipExhausted(files: seq<FileInfo>, s: Storage, ghost cur: CurrentFile, ghost pos: nat, ghost done: nat,
      at: CurrentFile, ghost h: seq<Byte>, ghost broken: bool)
    returns (cur': CurrentFile)
    requires cur.index < |files| && Scanned(files, s, cur, pos, done, at, h, broken)
    requires pos + done < FileStart(files, |files|)
    requires done > 0 ==> at.processed == files[at.index].len
    ensures Scanned(files, s, cur, pos, done, cur', h, broken)
    ensures cur'.processed < files[cur'.index].len && (done > 0 ==> cur'.processed == 0)
  {
    cur' := at;
    while cur'.processed == files[cur'.index].len
      invariant Scanned(files, s, cur, pos, done, cur', h, broken)
      invariant done > 0 ==> cur'.processed == 0 || cur'.processed == files[cur'.index].len
      decreases |files| - cur'.index
    {
      assert FileStart(files, cur'.index + 1) == pos + done;
      NextFile(files, s, cur, pos, done, cur', h, broken);
      cur' := CurrentFile(cur'.index + 1, 0, false);
    }
  }

  /** Hash the next `m` bytes, all in the cursor's file, unless that is known to be broken. */
  method HashInFile(files: seq<FileInfo>, s: Storage, ghost cur: CurrentFile, ghost pos: nat, ghost done: nat,
      at: CurrentFile, hash: seq<Byte>, wasBroken: bool, m: nat)
    returns (cur': CurrentFile, h: seq<Byte>, broken: bool)
    requires cur.index < |files| && Scanned(files, s, cur, pos, done, at, hash, wasBroken)
    requires 0 < m && at.processed + m <= files[at.index].len && (done > 0 ==> at.processed == 0)
    ensures Scanned(files, s, cur, pos, done + m, cur', h, broken)
    ensures cur'.index == at.index && cur'.processed == at.processed + m
  {
    h, broken := hash, wasBroken;
    cur' := at.(processed := at.processed + m);
    FailsMore(files, s, cur, pos, done, at.index, at.processed, m);
    if !cur'.isBroken {
      var ok;
      ok, h := UpdateHashFromFile(files, s, at.index, at.processed, h, HASH_BUF, m);
      if !ok {
        cur', broken := cur'.(isBroken := true), true;
      }
    }
    StretchScanned(files, s, cur, pos, done, at, hash, wasBroken, m, cur', h, broken);
  }

  lemma StretchScanned(files: seq<FileInfo>, s: Storage, cur: CurrentFile, pos: nat, done: nat, at: CurrentFile,
      hash: seq<Byte>, wasBroken: bool, m: nat, cur': CurrentFile, h: seq<Byte>, broken: bool)
    requires cur.index < |files| && Scanned(files, s, cur, pos, done, at, hash, wasBroken)
    requires 0 < m && at.processed + m <= files[at.index].len && (done > 0 ==> at.processed == 0)
    requires var ok := HashReadsOk(files, s, at.index, at.processed, HASH_BUF, m);
      if at.isBroken then h == hash && broken == wasBroken && cur' == at.(processed := at.processed + m)
      else
        && broken == (wasBroken || !ok) && cur' == CurrentFile(at.index, at.processed + m, !ok)
        && (ok ==> Fed(files, s, at.index, at.processed, m, hash, h))
    ensures Scanned(files, s, cur, pos, done + m, cur', h, broken)
  {
    var k, o := at.index, at.processed;
    FailsMore(files, s, cur, pos, done, k, o, m);
    SpanOfStretch(files, pos, done, k, o, m);
    if k != cur.index {
      SpansGrow(files, pos, done, k, o, m, cur.index);
    }
    if !broken && !Skips(files, pos, done + m, cur) {
      HashedMore(files, s, pos, hash, k, o, m);
    }
  }

  // ---- What the bit field says ------------------------------------------------------

  /** File `k` broke at a piece before `p`. */
  ghost predicate BrokenBefore<D>(t: Torrent<D>, s: Storage, p: nat, k: nat)
    requires t.Valid() && k < |t.files|
    reads s
  {
    exists q: nat :: q < p && !PartReadable(t, s, q, k)
  }

  /** Part of piece `p` lies in file `k`, which is known to be broken. */
  ghost predicate SkippedIn<D>(t: Torrent<D>, s: Storage, p: nat, k: nat)
    requires t.Valid() && k < |t.files|
    reads s
  {
    PieceLengthNat(t.lengths, p);
    BrokenBefore(t, s, p, k) && SpanLen(t.files, t.lengths.PieceStart(p), t.lengths.PieceLength(p), k) > 0
  }

  ghost predicate Skipped<D>(t: Torrent<D>, s: Storage, p: nat)
    requires t.Valid()
    reads s
  {
    exists k :: 0 <= k < |t.files| && SkippedIn(t, s, p, k)
  }

  /** A read is made for piece `p` and fails. */
  ghost predicate ReadFailsFor<D>(t: Torrent<D>, s: Storage, p: nat)
    requires t.Valid()
    reads s
  {
    exists k :: 0 <= k < |t.files| && !BrokenBefore(t, s, p, k) && !PartReadable(t, s, p, k)
  }

  /** The bit of piece `p`: it is not set if a read made for the piece fails; if none does and no file
      of the piece had broken before, it says exactly whether the piece matches; and if one had, it
      is set only if fewer bytes have the piece's hash. */
  ghost predicate BitSound<D>(t: Torrent<D>, s: Storage, bit: bool, p: nat)
    requires t.Valid()
    reads s
  {
    && (ReadFailsFor(t, s, p) ==> !bit)
    && (!ReadFailsFor(t, s, p) && !Skipped(t, s, p) ==>
          (bit <==> t.PieceMatches(s.data, p)) && t.PieceBacked(s.data, p))
    && (Skipped(t, s, p) && bit ==> t.ShorterMatch(p))
  }

  /** The cursor stands at the start of piece `p` and knows whether its file has broken. */
  ghost predicate CursorFor<D>(t: Torrent<D>, s: Storage, p: nat, cur: CurrentFile)
    requires t.Valid()
    reads s
  {
    CursorAt(t.files, cur, t.lengths.PieceStart(p)) && (cur.isBroken <==> BrokenBefore(t, s, p, cur.index))
  }

  /** At the start of a piece only the cursor's file can be broken and still to be read. */
  lemma OnlyCursorBroken<D>(t: Torrent<D>, s: Storage, p: nat, cur: CurrentFile, k: nat)
    requires t.Valid() && k < |t.files| && CursorAt(t.files, cur, t.lengths.PieceStart(p)) && k != cur.index
    ensures k > cur.index ==> !BrokenBefore(t, s, p, k)
    ensures k < cur.index ==> SpanLen(t.files, t.lengths.PieceStart(p), Max(0, t.lengths.PieceLength(p)), k) == 0
  {
    if k < cur.index {
      FileStartMono(t.files, k + 1, cur.index);
    } else {
      FileStartMono(t.files, cur.index + 1, k);
      forall q: nat | q < p
        ensures PartReadable(t, s, q, k)
      {
        PieceLengthNat(t.lengths, q);
        PieceStartMono(t.lengths, q + 1, p);
        assert SpanLen(t.files, t.lengths.PieceStart(q), t.lengths.PieceLength(q), k) == 0;
      }
    }
  }

  lemma ScanIsExact<D>(t: Torrent<D>, s: Storage, p: nat, cur: CurrentFile, cur': CurrentFile, h: seq<Byte>,
      broken: bool)
    requires t.Valid() && CursorAt(t.files, cur, t.lengths.PieceStart(p)) && t.lengths.PieceLength(p) >= 0
    requires cur.isBroken <==> BrokenBefore(t, s, p, cur.index)
    requires Scanned(t.files, s, cur, t.lengths.PieceStart(p), t.lengths.PieceLength(p), cur', h, broken)
    ensures broken <==> ReadFailsFor(t, s, p)
    ensures Skips(t.files, t.lengths.PieceStart(p), t.lengths.PieceLength(p), cur) <==> Skipped(t, s, p)
    ensures cur'.isBroken <==> BrokenBefore(t, s, p + 1, cur'.index)
  {
    var pos, len := t.lengths.PieceStart(p), t.lengths.PieceLength(p);
    forall k | 0 <= k < |t.files|
      ensures FailsIn(t.files, s, pos, len, cur, k) <==> !BrokenBefore(t, s, p, k) && !PartReadable(t, s, p, k)
      ensures SkippedIn(t, s, p, k) <==> k == cur.index && Skips(t.files, pos, len, cur)
    {
      if k != cur.index {
        OnlyCursorBroken(t, s, p, cur, k);
      }
    }
    if cur'.index != cur.index {
      OnlyCursorBroken(t, s, p, cur, cur'.index);
    }
    BrokenOneMore(t, s, p, cur'.index);
  }

  lemma BrokenOneMore<D>(t: Torrent<D>, s: Storage, p: nat, k: nat)
    requires t.Valid() && k < |t.files|
    ensures BrokenBefore(t, s, p + 1, k) <==> BrokenBefore(t, s, p, k) || !PartReadable(t, s, p, k)
  {
  }

  /** Hash the next piece and compare. */
  method CheckNextPiece<D(==)>(t: Torrent<D>, s: Storage, p: nat, cur: CurrentFile)
    returns (cur': CurrentFile, bit: Result<bool>)
    requires t.Valid() && p < t.lengths.TotalPieces() && CursorFor(t, s, p, cur)
    ensures CursorFor(t, s, p + 1, cur')
    ensures bit.Err? ==> p >= |t.hashes|
    ensures bit.Ok? ==> BitSound(t, s, bit.value, p)
  {
    PiecesTile(t.lengths, p);
    PieceStartMono(t.lengths, p + 1, t.lengths.TotalPieces());
    PiecesTile(t.lengths, t.lengths.TotalPieces());
    var h, broken;
    cur', h, broken := HashNextPiece(t.files, s, cur, t.lengths.PieceStart(p), t.lengths.PieceLength(p));
    ScanIsExact(t, s, p, cur, cur', h, broken);
    if broken {
      return cur', Ok(false);
    }
    match t.CompareHash(p, t.sha1(h))
    case None => return cur', Err("piece index invalid");
    case Some(same) => return cur', Ok(same);
  }

  /** One pass over all files, hashing every piece. */
  method InitialCheck<D(==)>(t: Torrent<D>, s: Storage, cancelled: nat -> bool) returns (r: Result<seq<bool>>)
    requires t.Valid()
    ensures r.Err? ==>
      || t.files == []
      || |t.hashes| < t.lengths.TotalPieces()
      || exists p: nat :: p < t.lengths.TotalPieces() && cancelled(p)
    ensures t.files == [] || (exists p: nat :: p < t.lengths.TotalPieces() && cancelled(p)) ==> r.Err?
    ensures r.Ok? ==> |r.value| == t.lengths.PieceBits() && t.lengths.TotalPieces() <= |r.value|
    ensures r.Ok? ==> forall p :: 0 <= p < |r.value| ==>
      if p < t.lengths.TotalPieces() then BitSound(t, s, r.value[p], p) else !r.value[p]
  {
    var files, n := t.files, t.lengths.TotalPieces();
    PieceBitsFit(t.lengths);
    PiecesTile(t.lengths, n);
    var have := seq(t.lengths.PieceBits(), _ => false);
    if files == [] {
      return Err("empty input file list");
    }
    var cur := CurrentFile(0, 0, false);
    for p := 0 to n
      invariant |have| == t.lengths.PieceBits()
      invariant CursorFor(t, s, p, cur)
      invariant forall q :: 0 <= q < p ==> !cancelled(q)
      invariant forall q :: p <= q < |have| ==> !have[q]
      invariant forall q :: 0 <= q < p ==> BitSound(t, s, have[q], q)
    {
      if cancelled(p) {
        return Err("initial check cancelled");
      }
      var bit;
      cur, bit := CheckNextPiece(t, s, p, cur);
      if bit.Err? {
        return Err(bit.error);
      }
      if bit.value {
        have := have[p := true];
      }
    }
    return Ok(have);
  }

  /** With honest hashes a shorter sequence never passes for a piece. */
  lemma NoShorterMatch<D>(t: Torrent<D>, p: nat)
    requires t.Valid() && t.Honest() && p < t.lengths.TotalPieces()
    ensures !t.ShorterMatch(p)
  {
    assert t.IsBlockHash(p);
  }

  /** If no read made for a piece failed and no file of it had broken, all of it can be read. */
  lemma CleanIsReadable<D>(t: Torrent<D>, s: Storage, p: nat)
    requires t.Valid() && !ReadFailsFor(t, s, p) && !Skipped(t, s, p)
    ensures PieceReadable(t, s, p)
  {
    PieceLengthNat(t.lengths, p);
    forall k | 0 <= k < |t.files|
      ensures PartReadable(t, s, p, k)
    {
      assert !SkippedIn(t, s, p, k);
    }
  }

  lemma ReadableIsClean<D>(t: Torrent<D>, s: Storage, p: nat)
    requires t.Valid() && Readable(t.files, s)
    ensures !ReadFailsFor(t, s, p) && !Skipped(t, s, p)
  {
    forall q: nat, k | 0 <= k < |t.files|
      ensures PartReadable(t, s, q, k)
    {
      PieceLengthNat(t.lengths, q);
      ReadableRange(t.files, s, t.lengths.PieceStart(q), t.lengths.PieceLength(q), HASH_BUF);
    }
  }

  /** With honest hashes a bit is set exactly when the piece matches, no read made for it failed, and
      no file of it had broken before. Then checking the piece alone agrees; whenever nothing failed
      or broke, both say the same. */
  lemma ScanAgreesWithRandomAccess<D>(t: Torrent<D>, s: Storage, bit: bool, p: nat, r: Result<bool>)
    requires t.Valid() && t.Honest() && p < t.lengths.TotalPieces()
    requires BitSound(t, s, bit, p) && CheckAnswer(t, s, p, r)
    ensures bit <==> t.PieceMatches(s.data, p) && !ReadFailsFor(t, s, p) && !Skipped(t, s, p)
    ensures bit ==> t.PieceBacked(s.data, p) && r == Ok(true)
    ensures !ReadFailsFor(t, s, p) && !Skipped(t, s, p) ==> r == Ok(bit)
    ensures Readable(t.files, s) ==> r == Ok(bit)
  {
    NoShorterMatch(t, p);
    if !ReadFailsFor(t, s, p) && !Skipped(t, s, p) {
      CleanIsReadable(t, s, p);
    }
    if Readable(t.files, s) {
      ReadableIsClean(t, s, p);
    }
  }
}
