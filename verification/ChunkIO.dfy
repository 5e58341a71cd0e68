/** Reading and writing one chunk across the files it spans. */
module ChunkIO {
  import opened Prelude
  import opened Lengths
  import opened Files
  import opened Storage
  import opened FileOps

  datatype ChunkInfo = ChunkInfo(piece: nat, chunk: nat, size: nat) {
    predicate Valid(l: Lengths)
    {
      l.Valid() && piece < l.TotalPieces() && chunk < l.ChunksOf(piece) && size == l.ChunkSize(piece, chunk)
    }

    function AbsoluteOffset(l: Lengths): nat {
      l.PieceStart(piece) + chunk * CHUNK_SIZE
    }
  }

  lemma ChunkInsideTorrent(l: Lengths, c: ChunkInfo)
    requires c.Valid(l)
    ensures c.size > 0 && c.AbsoluteOffset(l) + c.size <= l.totalLength
  {
    ChunksTilePiece(l, c.piece, c.chunk, c.chunk * CHUNK_SIZE, l.ChunkSize(c.piece, c.chunk));
    PieceStartMono(l, c.piece + 1, l.TotalPieces());
    PiecesTile(l, l.TotalPieces());
  }

  /** A block that is accepted goes to its own place: the bytes of the torrent that start `begin` bytes
      into its piece. */
  lemma BlockHasItsPlace(l: Lengths, p: nat, begin: nat, size: nat)
    requires l.Valid() && p < l.TotalPieces() && l.ChunkOfReceived(p, begin, size).Some?
    ensures var c := ChunkInfo(p, l.ChunkOfReceived(p, begin, size).value, size);
      && c.Valid(l) && c.AbsoluteOffset(l) == p * l.pieceLength + begin
    ensures begin + size <= l.PieceLength(p) && p * l.pieceLength + begin + size <= l.totalLength
  {
    AcceptedBlocks(l, p, begin, size);
    PiecesTile(l, p);
  }

  /** Where a chunk lies in the torrent. */
  lemma ChunkHasItsPlace(l: Lengths, c: ChunkInfo)
    requires c.Valid(l)
    ensures c.AbsoluteOffset(l) == c.piece * l.pieceLength + c.chunk * CHUNK_SIZE
    ensures c.chunk * CHUNK_SIZE + c.size == Min((c.chunk + 1) * CHUNK_SIZE, l.PieceLength(c.piece))
  {
    PiecesTile(l, c.piece);
    ChunksTilePiece(l, c.piece, c.chunk, 0, 0);
  }

  // ---- Reading ----------------------------------------------------------------------

  /** The read that a request for `[a, a + n)` makes in file `k`, if it gets that far: also an
      empty one when the range starts exactly where the file ends. */
  ghost predicate ReadInFileOk(files: seq<FileInfo>, s: Storage, a: nat, n: nat, k: nat)
    requires k < |files|
    reads s
  {
    var start, end := FileStart(files, k), FileStart(files, k) + files[k].len;
    files[k].padding || end < a || a + n <= start ||
    s.CanRead(k, Max(a, start) - start, Min(a + n, end) - Max(a, start))
  }

  ghost predicate ReadsOk(files: seq<FileInfo>, s: Storage, a: nat, n: nat)
    reads s
  {
    forall k :: 0 <= k < |files| ==> ReadInFileOk(files, s, a, n, k)
  }

  /** Read the chunk, and whatever follows it, into the whole of the caller's buffer. */
  method ReadChunk<D(==)>(t: Torrent<D>, s: Storage, c: ChunkInfo, buf: array<Byte>) returns (ok: bool)
    requires t.Valid() && c.Valid(t.lengths)
    modifies buf
    ensures ok <==> c.size <= buf.Length && ReadsOk(t.files, s, c.AbsoluteOffset(t.lengths), buf.Length)
    ensures ok ==>
      var a := c.AbsoluteOffset(t.lengths);
      var n := Min(buf.Length, t.lengths.totalLength - a);
      && c.size <= n <= buf.Length
      && HasRead(t.files, s, a, buf, n)
      && buf[n..] == old(buf[n..])
    ensures ok ==> forall j: nat :: j < c.size <= buf.Length ==>
      buf[j] == TorrentByte(t.files, s.data, c.piece * t.lengths.pieceLength + c.chunk * CHUNK_SIZE + j)
  {
    if buf.Length < c.size {
      return false;
    }
    ChunkInsideTorrent(t.lengths, c);
    ChunkHasItsPlace(t.lengths, c);
    ghost var a := c.AbsoluteOffset(t.lengths);
    ok := ReadRange(t.files, s, c.AbsoluteOffset(t.lengths), buf);
    if ok {
      forall j: nat | j < c.size
        ensures buf[j] == TorrentByte(t.files, s.data, a + j)
      {
        ghost var n := Min(buf.Length, t.lengths.totalLength - a);
        assert buf[..n][j] == TorrentBytes(t.files, s.data, a, n)[j];
      }
    }
  }

  method ReadRange(files: seq<FileInfo>, s: Storage, a: nat, buf: array<Byte>) returns (ok: bool)
    requires a < FileStart(files, |files|) && buf.Length > 0
    modifies buf
    ensures ok <==> ReadsOk(files, s, a, buf.Length)
    ensures ok ==>
      var n := Min(buf.Length, FileStart(files, |files|) - a);
      && HasRead(files, s, a, buf, n)
      && buf[n..] == old(buf[n..])
  {
    var offset: nat, filled: nat, k: nat := a, 0, 0;
    while k < |files| && filled < buf.Length
      invariant At(files, a, buf.Length, k, offset, filled)
      invariant HasRead(files, s, a, buf, filled)
      invariant buf[filled..] == old(buf[filled..])
      invariant forall i :: 0 <= i < k ==> ReadInFileOk(files, s, a, buf.Length, i)
    {
      if offset > files[k].len {
        offset := offset - files[k].len;
      } else {
        var toRead := Min(files[k].len - offset, buf.Length - filled);
        ghost var tail := buf[filled..];
        var fine := FillFromFile(files, s, a, k, offset, buf, filled, toRead);
        ReadIs(files, s, a, buf.Length, k, offset, filled, toRead);
        if !fine {
          return false;
        }
        assert tail[toRead..] == old(buf[filled..])[toRead..] == old(buf[filled + toRead..]);
        filled, offset := filled + toRead, 0;
      }
      k := k + 1;
    }
    LaterFilesNotRead(files, s, a, buf.Length, k, offset, filled);
    ok := true;
  }

  /** Where a walk over the files for the range `[a, a + n)` stands: the next byte wanted is at
      `offset` of file `k`, unless the range is complete. */
  ghost predicate At(files: seq<FileInfo>, a: nat, n: nat, k: nat, offset: nat, done: nat) {
    && k <= |files| && done <= n
    && (done < n ==> FileStart(files, k) + offset == a + done && (done > 0 ==> offset == 0))
    && (done == n ==> a + n <= FileStart(files, k))
  }

  ghost predicate HasRead(files: seq<FileInfo>, s: Storage, a: nat, buf: array<Byte>, filled: nat)
    requires filled <= buf.Length
    reads s, buf
  {
    buf[..filled] == TorrentBytes(files, s.data, a, filled) && Backed(files, s.data, a, filled)
  }

  /** Fill part of the buffer from one file: zeros for padding, otherwise an exact read. */
  method FillFromFile(files: seq<FileInfo>, s: Storage, ghost a: nat, k: nat, offset: nat, buf: array<Byte>,
      filled: nat, n: nat)
    returns (ok: bool)
    requires k < |files| && offset + n <= files[k].len && filled + n <= buf.Length
    requires FileStart(files, k) + offset == a + filled && HasRead(files, s, a, buf, filled)
    modifies buf
    ensures ok <==> files[k].padding || s.CanRead(k, offset, n)
    ensures ok ==> HasRead(files, s, a, buf, filled + n)
    ensures ok ==> buf[filled + n..] == old(buf[filled..])[n..]
  {
    var bytes := seq(n, _ => 0 as Byte);
    if !files[k].padding {
      var r := s.PreadExact(k, offset, n);
      if r.None? {
        return false;
      }
      bytes := r.value;
    }
    PieceOfFile(files, s.data, k, offset, n, bytes);
    Extend(files, s.data, a, filled, k, offset, n);
    BackedJoin(files, s.data, a, filled, k, offset, n);
    forall j | 0 <= j < n {
      buf[filled + j] := bytes[j];
    }
    assert buf[..filled + n] == old(buf[..filled]) + bytes;
    ok := true;
  }

  /** The read made in a file is the one the range asks for there. */
  lemma ReadIs(files: seq<FileInfo>, s: Storage, a: nat, n: nat, k: nat, offset: nat, filled: nat, toRead: nat)
    requires At(files, a, n, k, offset, filled) && k < |files| && filled < n && offset <= files[k].len
    requires toRead == Min(files[k].len - offset, n - filled)
    ensures ReadInFileOk(files, s, a, n, k) <==> files[k].padding || s.CanRead(k, offset, toRead)
  {
  }

  lemma LaterFilesNotRead(files: seq<FileInfo>, s: Storage, a: nat, n: nat, k: nat, offset: nat, filled: nat)
    requires At(files, a, n, k, offset, filled) && (k == |files| || filled == n) && a < FileStart(files, |files|)
    requires forall i :: 0 <= i < k ==> ReadInFileOk(files, s, a, n, i)
    ensures ReadsOk(files, s, a, n)
    ensures filled == Min(n, FileStart(files, |files|) - a)
  {
    FileStartMono(files, k, |files|);
    forall i | 0 <= i < |files|
      ensures ReadInFileOk(files, s, a, n, i)
    {
      if k <= i {
        FileStartMono(files, k, i);
      }
    }
  }

  // ---- Writing ----------------------------------------------------------------------

  /** Where in file `i` a write of `bytes` at torrent offset `a` lands, and which of them. */
  function PortionOffset(files: seq<FileInfo>, a: nat, i: nat): nat
    requires i < |files|
  {
    Max(a, FileStart(files, i)) - FileStart(files, i)
  }

  function Portion(files: seq<FileInfo>, a: nat, bytes: seq<Byte>, i: nat): seq<Byte>
    requires i < |files|
  {
    var lo := Max(a, FileStart(files, i));
    var hi := Min(a + |bytes|, FileStart(files, i) + files[i].len);
    if lo < hi then bytes[lo - a..hi - a] else []
  }

  /** File `i` after the first `k` files have received their portions. */
  function AfterPortion(files: seq<FileInfo>, file: seq<Byte>, a: nat, bytes: seq<Byte>, k: nat, i: nat): seq<Byte> {
    if i < k && i < |files| && !files[i].padding
    then Overlay(file, PortionOffset(files, a, i), Portion(files, a, bytes, i))
    else file
  }

  ghost predicate Written(files: seq<FileInfo>, data: seq<seq<Byte>>, data': seq<seq<Byte>>, a: nat, bytes: seq<Byte>,
      k: nat)
  {
    && |data'| == |data|
    && forall i :: 0 <= i < |data| ==> WrittenAt(files, data, data', a, bytes, k, i)
  }

  ghost predicate WrittenAt(files: seq<FileInfo>, data: seq<seq<Byte>>, data': seq<seq<Byte>>, a: nat, bytes: seq<Byte>,
      k: nat, i: nat)
    requires i < |data| == |data'|
  {
    data'[i] == AfterPortion(files, data[i], a, bytes, k, i)
  }

  /** Every byte of the torrent outside `[a, a + n)` is what it was. */
  ghost predicate OutsideUnchanged(files: seq<FileInfo>, data: seq<seq<Byte>>, data': seq<seq<Byte>>, a: nat, n: nat) {
    |data| == |data'| &&
    forall i, o {:trigger FileByte(files, data', i, o)} ::
      0 <= i < |files| && 0 <= o < files[i].len && !(a <= FileStart(files, i) + o < a + n) ==>
      FileByte(files, data', i, o) == FileByte(files, data, i, o)
  }

  lemma OverlayOutside(files: seq<FileInfo>, data: seq<seq<Byte>>, now: seq<seq<Byte>>, a: nat, n: nat, k: nat, o: nat,
      bytes: seq<Byte>)
    requires OutsideUnchanged(files, data, now, a, n)
    requires k < |files| && k < |now| && o + |bytes| <= files[k].len
    requires bytes == [] || (a <= FileStart(files, k) + o && FileStart(files, k) + o + |bytes| <= a + n)
    ensures OutsideUnchanged(files, data, now[k := Overlay(now[k], o, bytes)], a, n)
  {
    var then' := now[k := Overlay(now[k], o, bytes)];
    forall i, o' | 0 <= i < |files| && 0 <= o' < files[i].len && !(a <= FileStart(files, i) + o' < a + n)
      ensures FileByte(files, then', i, o') == FileByte(files, data, i, o')
    {
      assert FileByte(files, now, i, o') == FileByte(files, data, i, o');
    }
  }

  /** The writes that storing `first + second` at `a` makes in file `k`, if it gets that far, succeed:
      one for each slice, also when it has nothing for the file. */
  ghost predicate WriteInFileOk(files: seq<FileInfo>, data: seq<seq<Byte>>, s: Storage, a: nat, first: seq<Byte>,
      second: seq<Byte>, k: nat)
    requires k < |files|
  {
    var start, n := FileStart(files, k), |first| + |second|;
    var end := start + files[k].len;
    files[k].padding || end < a || a + n <= start ||
    var lo, hi := Max(a, start), Min(a + n, end);
    var n0 := SaturatingSub(Min(hi, a + |first|), lo);
    CanWrite(data, s, k, lo - start, n0) && CanWrite(data, s, k, lo - start + n0, hi - lo - n0)
  }

  ghost predicate WritesOk(files: seq<FileInfo>, data: seq<seq<Byte>>, s: Storage, a: nat, first: seq<Byte>,
      second: seq<Byte>)
  {
    WritesOkUpTo(files, data, s, a, first, second, |files|)
  }

  ghost predicate WritesOkUpTo(files: seq<FileInfo>, data: seq<seq<Byte>>, s: Storage, a: nat, first: seq<Byte>,
      second: seq<Byte>, k: nat)
    requires k <= |files|
  {
    forall i :: 0 <= i < k ==> WriteInFileOk(files, data, s, a, first, second, i)
  }

  predicate CanWrite(data: seq<seq<Byte>>, s: Storage, i: nat, o: nat, n: nat) {
    i < |data| && !s.writeFails(i, o, n)
  }

  /** Write a received block, given as two slices. */
  method WriteChunk<D(==)>(t: Torrent<D>, s: Storage, c: ChunkInfo, first: seq<Byte>, second: seq<Byte>)
    returns (ok: bool)
    requires t.Valid() && c.Valid(t.lengths) && |first + second| == c.size
    modifies s
    ensures ok ==> Written(t.files, old(s.data), s.data, c.AbsoluteOffset(t.lengths), first + second, |t.files|)
    ensures OutsideUnchanged(t.files, old(s.data), s.data, c.AbsoluteOffset(t.lengths), c.size)
    ensures ok <==> WritesOk(t.files, old(s.data), s, c.AbsoluteOffset(t.lengths), first, second)
    ensures ok ==> BlockStored(t, old(s.data), s.data, Block(c.piece, c.chunk * CHUNK_SIZE, first + second))
  {
    ChunkInsideTorrent(t.lengths, c);
    ChunkHasItsPlace(t.lengths, c);
    ghost var before := s.data;
    ok := WriteRange(t.files, s, c.AbsoluteOffset(t.lengths), first, second);
    if ok {
      forall b: nat | b < t.lengths.totalLength
        ensures TorrentByte(t.files, s.data, b)
             == ByteWanted(t.files, before, c.AbsoluteOffset(t.lengths), first + second, b)
      {
        ByteAfterGoodWrite(t.files, before, s.data, s, c.AbsoluteOffset(t.lengths), first, second, b);
      }
    }
  }

  method WriteRange(files: seq<FileInfo>, s: Storage, a: nat, first: seq<Byte>, second: seq<Byte>) returns (ok: bool)
    requires a + |first + second| <= FileStart(files, |files|) && |first + second| > 0
    modifies s
    ensures ok ==> Written(files, old(s.data), s.data, a, first + second, |files|)
    ensures OutsideUnchanged(files, old(s.data), s.data, a, |first + second|)
    ensures ok <==> WritesOk(files, old(s.data), s, a, first, second)
  {
    ghost var bytes, before, n := first + second, s.data, |first + second|;
    var offset: nat, rest0, rest1, k: nat := a, first, second, 0;
    ghost var done: nat := 0;
    while k < |files| && |rest0| + |rest1| > 0
      invariant At(files, a, n, k, offset, done)
      invariant rest0 + rest1 == bytes[done..] && |rest0| + |rest1| == n - done
      invariant |rest0| == SaturatingSub(|first|, done)
      invariant WritesOkUpTo(files, before, s, a, first, second, k)
      invariant Written(files, before, s.data, a, bytes, k)
      invariant OutsideUnchanged(files, before, s.data, a, n)
    {
      if offset > files[k].len {
        offset := offset - files[k].len;
        SkippedFile(files, before, s.data, a, bytes, k);
        OneMoreWrite(files, before, s, a, first, second, k);
      } else {
        var toWrite := Min(|rest0| + |rest1|, files[k].len - offset);
        var fine;
        fine, rest0, rest1 := WriteShare(files, s, k, offset, rest0, rest1, toWrite, before, a, first, second, done);
        if !fine {
          return false;
        }
        OneMoreWrite(files, before, s, a, first, second, k);
        offset, done := 0, done + toWrite;
      }
      k := k + 1;
    }
    LaterFilesNotWritten(files, before, s.data, a, bytes, k);
    NoLaterWrites(files, before, s, a, first, second, k);
    ok := true;
  }

  /** The writes made in a file are the ones the range asks for there. */
  lemma WriteIs(files: seq<FileInfo>, data: seq<seq<Byte>>, s: Storage, a: nat, first: seq<Byte>, second: seq<Byte>,
      k: nat, offset: nat, done: nat)
    requires At(files, a, |first| + |second|, k, offset, done) && k < |files|
    requires done < |first| + |second| && offset <= files[k].len
    ensures var m: nat := Min(|first| + |second| - done, files[k].len - offset);
      var n0: nat := Min(m, SaturatingSub(|first|, done));
      WriteInFileOk(files, data, s, a, first, second, k) <==>
        files[k].padding || (CanWrite(data, s, k, offset, n0) && CanWrite(data, s, k, offset + n0, m - n0))
  {
  }

  lemma OneMoreWrite(files: seq<FileInfo>, data: seq<seq<Byte>>, s: Storage, a: nat, first: seq<Byte>,
      second: seq<Byte>, k: nat)
    requires k < |files| && WritesOkUpTo(files, data, s, a, first, second, k)
    requires FileStart(files, k) + files[k].len < a || WriteInFileOk(files, data, s, a, first, second, k)
    ensures WritesOkUpTo(files, data, s, a, first, second, k + 1)
  {
  }

  lemma NoLaterWrites(files: seq<FileInfo>, data: seq<seq<Byte>>, s: Storage, a: nat, first: seq<Byte>,
      second: seq<Byte>, k: nat)
    requires k <= |files| && (k < |files| ==> a + |first| + |second| <= FileStart(files, k))
    requires WritesOkUpTo(files, data, s, a, first, second, k)
    ensures WritesOk(files, data, s, a, first, second)
  {
    forall i | k <= i < |files|
      ensures WriteInFileOk(files, data, s, a, first, second, i)
    {
      FileStartMono(files, k, i);
    }
  }

  /** The part of the data that falls into file `k` is the next `m` bytes. */
  lemma PortionIs(files: seq<FileInfo>, a: nat, bytes: seq<Byte>, k: nat, done: nat, m: nat)
    requires k < |files| && done < |bytes| && FileStart(files, k) <= a + done <= FileStart(files, k) + files[k].len
    requires done > 0 ==> a + done == FileStart(files, k)
    requires m == Min(|bytes| - done, FileStart(files, k) + files[k].len - a - done)
    ensures Portion(files, a, bytes, k) == bytes[done..][..m]
    ensures PortionOffset(files, a, k) == a + done - FileStart(files, k)
  {
  }

  lemma WrittenOneMore(files: seq<FileInfo>, data: seq<seq<Byte>>, now: seq<seq<Byte>>, then': seq<seq<Byte>>, a: nat,
      bytes: seq<Byte>, k: nat)
    requires k < |files| && Written(files, data, now, a, bytes, k)
    requires files[k].padding ==> then' == now
    requires !files[k].padding ==>
      k < |now| && then' == now[k := Overlay(now[k], PortionOffset(files, a, k), Portion(files, a, bytes, k))]
    ensures Written(files, data, then', a, bytes, k + 1)
  {
    var next := k + 1;
    forall i | 0 <= i < |data|
      ensures WrittenAt(files, data, then', a, bytes, next, i)
    {
      assert WrittenAt(files, data, now, a, bytes, k, i);
    }
  }

  lemma SkippedFile(files: seq<FileInfo>, data: seq<seq<Byte>>, data': seq<seq<Byte>>, a: nat, bytes: seq<Byte>, k: nat)
    requires k < |files| && FileStart(files, k) + files[k].len < a
    requires Written(files, data, data', a, bytes, k)
    ensures Written(files, data, data', a, bytes, k + 1)
  {
    assert Portion(files, a, bytes, k) == [];
    var next := k + 1;
    forall i | 0 <= i < |data|
      ensures WrittenAt(files, data, data', a, bytes, next, i)
    {
      assert WrittenAt(files, data, data', a, bytes, k, i);
    }
  }

  /** The first `m` bytes of the two slices, and what is left of them. */
  lemma SplitSlices(rest0: seq<Byte>, rest1: seq<Byte>, m: nat, bytes: seq<Byte>, done: nat)
    requires done <= |bytes| && rest0 + rest1 == bytes[done..] && m <= |rest0| + |rest1|
    ensures |rest0| + |rest1| == |bytes| - done
    ensures var n0: nat := Min(m, |rest0|);
      && rest0[..n0] + rest1[..m - n0] == bytes[done..][..m]
      && rest0[n0..] + rest1[m - n0..] == bytes[done + m..]
  {
    assert |rest0 + rest1| == |bytes| - done;
    SplitTwo(rest0, rest1, m);
    assert bytes[done..][m..] == bytes[done + m..];
  }

  lemma SplitTwo(a: seq<Byte>, b: seq<Byte>, m: nat)
    requires m <= |a| + |b|
    ensures var n: nat := Min(m, |a|);
      a[..n] + b[..m - n] == (a + b)[..m] && a[n..] + b[m - n..] == (a + b)[m..]
  {
  }

  /** Write the next `m` bytes of the two slices into one file (padding swallows them) and
      drop them from the slices. */
  method WriteToFile(files: seq<FileInfo>, s: Storage, k: nat, offset: nat, rest0: seq<Byte>, rest1: seq<Byte>, m: nat,
                     ghost before: seq<seq<Byte>>, ghost a: nat, ghost bytes: seq<Byte>, ghost done: nat)
    returns (ok: bool, rest0': seq<Byte>, rest1': seq<Byte>)
    requires k < |files| && offset <= files[k].len && m == Min(|rest0| + |rest1|, files[k].len - offset)
    requires done < |bytes| && rest0 + rest1 == bytes[done..]
    requires FileStart(files, k) + offset == a + done && (done > 0 ==> offset == 0)
    requires OutsideUnchanged(files, before, s.data, a, |bytes|) && Written(files, before, s.data, a, bytes, k)
    modifies s
    ensures rest0' + rest1' == bytes[done + m..] && |rest0'| + |rest1'| == |rest0| + |rest1| - m
    ensures ok ==> Written(files, before, s.data, a, bytes, k + 1)
    ensures OutsideUnchanged(files, before, s.data, a, |bytes|)
    ensures |rest0'| == |rest0| - Min(m, |rest0|)
    ensures var n0: nat := Min(m, |rest0|);
      ok <==> files[k].padding || (CanWrite(before, s, k, offset, n0) && CanWrite(before, s, k, offset + n0, m - n0))
  {
    var n0 := Min(m, |rest0|);
    SplitSlices(rest0, rest1, m, bytes, done);
    PortionIs(files, a, bytes, k, done, m);
    rest0', rest1', ok := rest0[n0..], rest1[m - n0..], true;
    ghost var now := s.data;
    if !files[k].padding {
      ok := s.PwriteAllVectored(k, offset, rest0[..n0], rest1[..m - n0]);
      if k < |now| {
        OverlayOutside(files, before, now, a, |bytes|, k, offset, rest0[..n0] + rest1[..m - n0]);
        OverlayOutside(files, before, now, a, |bytes|, k, offset, rest0[..n0]);
      }
    }
    if ok {
      WrittenOneMore(files, before, now, s.data, a, bytes, k);
    }
  }

  /** Write to file `k` its share of what is left of the block `first + second`. */
  method WriteShare(files: seq<FileInfo>, s: Storage, k: nat, offset: nat, rest0: seq<Byte>, rest1: seq<Byte>, m: nat,
      ghost before: seq<seq<Byte>>, ghost a: nat, ghost first: seq<Byte>, ghost second: seq<Byte>, ghost done: nat)
    returns (ok: bool, rest0': seq<Byte>, rest1': seq<Byte>)
    requires At(files, a, |first + second|, k, offset, done) && k < |files| && offset <= files[k].len
    requires done < |first + second| && rest0 + rest1 == (first + second)[done..]
    requires |rest0| == SaturatingSub(|first|, done) && m == Min(|rest0| + |rest1|, files[k].len - offset)
    requires OutsideUnchanged(files, before, s.data, a, |first + second|)
    requires Written(files, before, s.data, a, first + second, k)
    modifies s
    ensures rest0' + rest1' == (first + second)[done + m..] && |rest0'| + |rest1'| == |rest0| + |rest1| - m
    ensures |rest0'| == SaturatingSub(|first|, done + m)
    ensures ok ==> Written(files, before, s.data, a, first + second, k + 1)
    ensures OutsideUnchanged(files, before, s.data, a, |first + second|)
    ensures ok <==> WriteInFileOk(files, before, s, a, first, second, k)
  {
    WriteIs(files, before, s, a, first, second, k, offset, done);
    assert |rest0 + rest1| == |first + second| - done;
    ok, rest0', rest1' := WriteToFile(files, s, k, offset, rest0, rest1, m, before, a, first + second, done);
  }

  lemma LaterFilesNotWritten(files: seq<FileInfo>, data: seq<seq<Byte>>, data': seq<seq<Byte>>, a: nat,
      bytes: seq<Byte>, k: nat)
    requires k <= |files| && (k < |files| ==> a + |bytes| <= FileStart(files, k))
    requires Written(files, data, data', a, bytes, k)
    ensures Written(files, data, data', a, bytes, |files|)
  {
    var all := |files|;
    forall i | 0 <= i < |data|
      ensures WrittenAt(files, data, data', a, bytes, all, i)
    {
      assert WrittenAt(files, data, data', a, bytes, k, i);
      if k <= i < all {
        FileStartMono(files, k, i);
        assert Portion(files, a, bytes, i) == [];
      }
    }
  }

  // ---- Round trip -------------------------------------------------------------------

  predicate PaddingAt(files: seq<FileInfo>, b: nat) {
    exists i :: 0 <= i < |files| && PaddedBy(files, b, i)
  }

  predicate PaddedBy(files: seq<FileInfo>, b: nat, i: nat)
    requires i < |files|
  {
    files[i].padding && FileStart(files, i) <= b < FileStart(files, i) + files[i].len
  }

  function Masked(files: seq<FileInfo>, a: nat, bytes: seq<Byte>): seq<Byte> {
    seq(|bytes|, j requires 0 <= j < |bytes| => if PaddingAt(files, a + j) then 0 else bytes[j])
  }

  /** A successful write changes exactly the bytes of its range that lie in real files: the
      range then reads as the data with zeros at padding, and the rest as before. */
  lemma WriteThenRead(l: Lengths, files: seq<FileInfo>, data: seq<seq<Byte>>, data': seq<seq<Byte>>, a: nat,
      bytes: seq<Byte>)
    requires Tiles(l, files) && |files| <= |data| && a + |bytes| <= l.totalLength
    requires Written(files, data, data', a, bytes, |files|)
    ensures TorrentBytes(files, data', a, |bytes|) == Masked(files, a, bytes)
    ensures Backed(files, data', a, |bytes|)
    ensures forall b :: 0 <= b < l.totalLength && !(a <= b < a + |bytes|) ==>
      TorrentByte(files, data', b) == TorrentByte(files, data, b)
  {
    forall b: nat | b < l.totalLength
      ensures TorrentByte(files, data', b) == ByteWanted(files, data, a, bytes, b)
    {
      ByteAfterWrite(files, data, data', a, bytes, b);
    }
    var read, wanted := TorrentBytes(files, data', a, |bytes|), Masked(files, a, bytes);
    forall j | 0 <= j < |bytes|
      ensures read[j] == wanted[j]
    {
      assert read[j] == TorrentByte(files, data', a + j);
    }
    forall i, o | 0 <= i < |files| && 0 <= o < files[i].len && !files[i].padding &&
                  a <= FileStart(files, i) + o < a + |bytes|
      ensures InData(data', i, o)
    {
      PortionCovers(files, a, bytes, i, o);
      assert WrittenAt(files, data, data', a, bytes, |files|, i);
    }
  }

  /** What torrent byte `b` should be after the write. */
  ghost function ByteWanted(files: seq<FileInfo>, data: seq<seq<Byte>>, a: nat, bytes: seq<Byte>, b: nat): Byte {
    if !(a <= b < a + |bytes|) then TorrentByte(files, data, b) else if PaddingAt(files, b) then 0 else bytes[b - a]
  }

  lemma PaddingOfFile(files: seq<FileInfo>, i: nat, o: nat)
    requires i < |files| && o < files[i].len
    ensures PaddingAt(files, FileStart(files, i) + o) <==> files[i].padding
  {
    var b := FileStart(files, i) + o;
    if PaddingAt(files, b) {
      var k :| 0 <= k < |files| && PaddedBy(files, b, k);
      assert FileStart(files, k + 1) == FileStart(files, k) + files[k].len;
      SamePlace(files, i, o, k);
    }
    if files[i].padding {
      assert PaddedBy(files, b, i);
    }
  }

  /** A file's portion covers exactly the places of the file inside the written range. */
  lemma PortionCovers(files: seq<FileInfo>, a: nat, bytes: seq<Byte>, i: nat, o: nat)
    requires i < |files| && o < files[i].len
    ensures var b, p, off := FileStart(files, i) + o, Portion(files, a, bytes, i), PortionOffset(files, a, i);
      && (off <= o < off + |p| <==> a <= b < a + |bytes|)
      && (a <= b < a + |bytes| ==> p[o - off] == bytes[b - a])
  {
  }

  lemma FileByteAfterWrite(files: seq<FileInfo>, data: seq<seq<Byte>>, data': seq<seq<Byte>>, a: nat, bytes: seq<Byte>,
      i: nat, o: nat)
    requires i < |files| && i < |data| == |data'| && o < files[i].len
    requires data'[i] == AfterPortion(files, data[i], a, bytes, |files|, i)
    ensures var b := FileStart(files, i) + o;
      FileByte(files, data', i, o) ==
      if !(a <= b < a + |bytes|) then FileByte(files, data, i, o) else if files[i].padding then 0 else bytes[b - a]
  {
    PortionCovers(files, a, bytes, i, o);
  }

  lemma PlaceOf(files: seq<FileInfo>, b: nat) returns (i: nat, o: nat)
    requires b < FileStart(files, |files|)
    ensures i < |files| && o < files[i].len && b == FileStart(files, i) + o
    ensures PaddingAt(files, b) <==> files[i].padding
  {
    i := FileOfByte(files, b, |files|);
    o := b - FileStart(files, i);
    PaddingOfFile(files, i, o);
  }

  /** If the place of byte `b` in its file is written so, the byte is. */
  lemma ByteAtPlace(files: seq<FileInfo>, data: seq<seq<Byte>>, data': seq<seq<Byte>>, a: nat, bytes: seq<Byte>, b: nat,
      i: nat, o: nat)
    requires i < |files| && o < files[i].len && b == FileStart(files, i) + o
    requires PaddingAt(files, b) <==> files[i].padding
    requires FileByte(files, data', i, o) ==
      if !(a <= b < a + |bytes|) then FileByte(files, data, i, o) else if files[i].padding then 0 else bytes[b - a]
    ensures TorrentByte(files, data', b) == ByteWanted(files, data, a, bytes, b)
  {
    ByteInFile(files, data, i, o, |files|);
    ByteInFile(files, data', i, o, |files|);
  }

  lemma ByteAfterWrite(files: seq<FileInfo>, data: seq<seq<Byte>>, data': seq<seq<Byte>>, a: nat, bytes: seq<Byte>,
      b: nat)
    requires |files| <= |data| && b < FileStart(files, |files|)
    requires Written(files, data, data', a, bytes, |files|)
    ensures TorrentByte(files, data', b) == ByteWanted(files, data, a, bytes, b)
  {
    var i, o := PlaceOf(files, b);
    PlaceAfterWrite(files, data, data', a, bytes, i, o);
    ByteAtPlace(files, data, data', a, bytes, b, i, o);
  }

  lemma PlaceAfterWrite(files: seq<FileInfo>, data: seq<seq<Byte>>, data': seq<seq<Byte>>, a: nat, bytes: seq<Byte>,
      i: nat, o: nat)
    requires i < |files| && i < |data| && o < files[i].len && Written(files, data, data', a, bytes, |files|)
    ensures var b := FileStart(files, i) + o;
      FileByte(files, data', i, o) ==
      if !(a <= b < a + |bytes|) then FileByte(files, data, i, o) else if files[i].padding then 0 else bytes[b - a]
  {
    assert WrittenAt(files, data, data', a, bytes, |files|, i);
    FileByteAfterWrite(files, data, data', a, bytes, i, o);
  }

  /** A write that succeeds needs no file to exist beyond those it goes to. */
  lemma ByteAfterGoodWrite(files: seq<FileInfo>, data: seq<seq<Byte>>, data': seq<seq<Byte>>, s: Storage, a: nat,
      first: seq<Byte>, second: seq<Byte>, b: nat)
    requires b < FileStart(files, |files|)
    requires Written(files, data, data', a, first + second, |files|) && WritesOk(files, data, s, a, first, second)
    ensures TorrentByte(files, data', b) == ByteWanted(files, data, a, first + second, b)
  {
    var i, o := PlaceOf(files, b);
    PlaceAfterGoodWrite(files, data, data', s, a, first, second, i, o);
    ByteAtPlace(files, data, data', a, first + second, b, i, o);
  }

  lemma PlaceAfterGoodWrite(files: seq<FileInfo>, data: seq<seq<Byte>>, data': seq<seq<Byte>>, s: Storage, a: nat,
      first: seq<Byte>, second: seq<Byte>, i: nat, o: nat)
    requires i < |files| && o < files[i].len
    requires Written(files, data, data', a, first + second, |files|) && WritesOk(files, data, s, a, first, second)
    ensures var b, bytes := FileStart(files, i) + o, first + second;
      FileByte(files, data', i, o) ==
      if !(a <= b < a + |bytes|) then FileByte(files, data, i, o) else if files[i].padding then 0 else bytes[b - a]
  {
    if i < |data| {
      PlaceAfterWrite(files, data, data', a, first + second, i, o);
    } else {
      MissingFileNotWritten(files, data, s, a, first, second, i, o);
    }
  }

  lemma MissingFileNotWritten(files: seq<FileInfo>, data: seq<seq<Byte>>, s: Storage, a: nat, first: seq<Byte>,
      second: seq<Byte>, i: nat, o: nat)
    requires |data| <= i < |files| && o < files[i].len && WritesOk(files, data, s, a, first, second)
    ensures files[i].padding || !(a <= FileStart(files, i) + o < a + |first + second|)
  {
    assert WriteInFileOk(files, data, s, a, first, second, i);
  }

  // ---- Blocks of a piece, in any order ------------------------------------------------

  /** A received block: a piece, where in the piece it begins, and its bytes. */
  datatype Block = Block(piece: nat, begin: nat, bytes: seq<Byte>)

  ghost predicate Covers(l: Lengths, w: Block, b: nat) {
    w.piece * l.pieceLength + w.begin <= b < w.piece * l.pieceLength + w.begin + |w.bytes|
  }

  /** Byte `b` of the torrent once the block is stored: the block's own byte where the block lies, but
      zero in padding; elsewhere what it was. */
  ghost function Stored(l: Lengths, files: seq<FileInfo>, w: Block, b: nat, was: Byte): Byte {
    if !Covers(l, w, b) then was
    else if PaddingAt(files, b) then 0
    else w.bytes[b - w.piece * l.pieceLength - w.begin]
  }

  /** Storing the block changed the torrent's bytes so and no other. */
  ghost predicate BlockStored<D>(t: Torrent<D>, data: seq<seq<Byte>>, data': seq<seq<Byte>>, w: Block) {
    forall b: nat :: b < t.lengths.totalLength ==>
      TorrentByte(t.files, data', b) == Stored(t.lengths, t.files, w, b, TorrentByte(t.files, data, b))
  }

  /** Byte `b` after the blocks have been stored one after another. */
  ghost function AfterBlocks(l: Lengths, files: seq<FileInfo>, ws: seq<Block>, b: nat, was: Byte): Byte {
    if ws == [] then was
    else Stored(l, files, ws[|ws| - 1], b, AfterBlocks(l, files, ws[..|ws| - 1], b, was))
  }

  predicate Acceptable(l: Lengths, w: Block)
    requires l.Valid()
  {
    w.piece < l.TotalPieces() && l.ChunkOfReceived(w.piece, w.begin, |w.bytes|).Some?
  }

  /** Store received blocks as they come, whatever their pieces and order; a block that is not a chunk,
      or a failed write, ends it. */
  method WriteBlocks<D(==)>(t: Torrent<D>, s: Storage, ws: seq<Block>) returns (done: nat)
    requires t.Valid()
    modifies s
    ensures done <= |ws|
    ensures forall k :: 0 <= k < done ==> BlockGoesIn(t, s, |old(s.data)|, ws[k])
    ensures done < |ws| ==> !BlockGoesIn(t, s, |old(s.data)|, ws[done])
    ensures done == |ws| ==> forall b: nat :: b < t.lengths.totalLength ==>
      TorrentByte(t.files, s.data, b) ==
      AfterBlocks(t.lengths, t.files, ws, b, old(TorrentByte(t.files, s.data, b)))
  {
    done := 0;
    ghost var before := s.data;
    while done < |ws|
      invariant done <= |ws| && |s.data| == |before|
      invariant forall k :: 0 <= k < done ==> BlockGoesIn(t, s, |before|, ws[k])
      invariant StoredSoFar(t, before, s.data, ws[..done])
    {
      ghost var now := s.data;
      var ok := WriteBlock(t, s, ws[done]);
      if !ok {
        return;
      }
      OneMoreBlock(t, before, now, s.data, ws[..done], ws[done]);
      assert ws[..done + 1] == ws[..done] + [ws[done]];
      done := done + 1;
    }
    assert ws[..|ws|] == ws;
  }

  /** Store a received block if it is a chunk. */
  method WriteBlock<D(==)>(t: Torrent<D>, s: Storage, w: Block) returns (ok: bool)
    requires t.Valid()
    modifies s
    ensures ok <==> BlockGoesIn(t, s, |old(s.data)|, w)
    ensures |s.data| == |old(s.data)|
    ensures ok ==> BlockStored(t, old(s.data), s.data, w)
    ensures !Acceptable(t.lengths, w) ==> s.data == old(s.data)
  {
    if w.piece >= t.lengths.TotalPieces() {
      return false;
    }
    var chunk := t.lengths.ChunkOfReceived(w.piece, w.begin, |w.bytes|);
    if chunk.None? {
      return false;
    }
    BlockHasItsPlace(t.lengths, w.piece, w.begin, |w.bytes|);
    AcceptedBlocks(t.lengths, w.piece, w.begin, |w.bytes|);
    OnlyCountMatters(t.files, s.data, s, w.piece * t.lengths.pieceLength + w.begin, w.bytes);
    assert w.bytes + [] == w.bytes;
    ok := WriteChunk(t, s, ChunkInfo(w.piece, chunk.value, |w.bytes|), w.bytes, []);
  }

  ghost function EmptyFiles(count: nat): seq<seq<Byte>> {
    seq(count, _ => [])
  }

  /** The block is a chunk and the writes that storing it makes succeed, in a store of that many files. */
  ghost predicate BlockGoesIn<D>(t: Torrent<D>, s: Storage, count: nat, w: Block)
    requires t.lengths.Valid()
  {
    && Acceptable(t.lengths, w)
    && WritesOk(t.files, EmptyFiles(count), s, w.piece * t.lengths.pieceLength + w.begin, w.bytes, [])
  }

  /** Of the files' contents only their number decides whether writes succeed. */
  lemma OnlyCountMatters(files: seq<FileInfo>, data: seq<seq<Byte>>, s: Storage, a: nat, bytes: seq<Byte>)
    ensures WritesOk(files, data, s, a, bytes, []) <==> WritesOk(files, EmptyFiles(|data|), s, a, bytes, [])
  {
    forall i | 0 <= i < |files|
      ensures WriteInFileOk(files, data, s, a, bytes, [], i)
         <==> WriteInFileOk(files, EmptyFiles(|data|), s, a, bytes, [], i)
    {
    }
  }

  ghost predicate StoredSoFar<D>(t: Torrent<D>, data: seq<seq<Byte>>, data': seq<seq<Byte>>, ws: seq<Block>) {
    forall b: nat :: b < t.lengths.totalLength ==>
      TorrentByte(t.files, data', b) == AfterBlocks(t.lengths, t.files, ws, b, TorrentByte(t.files, data, b))
  }

  lemma OneMoreBlock<D>(t: Torrent<D>, data: seq<seq<Byte>>, now: seq<seq<Byte>>, then': seq<seq<Byte>>,
      ws: seq<Block>, w: Block)
    requires StoredSoFar(t, data, now, ws) && BlockStored(t, now, then', w)
    ensures StoredSoFar(t, data, then', ws + [w])
  {
    assert (ws + [w])[..|ws|] == ws;
  }

  /** Some block of `p` holds the byte `o` bytes into it. */
  ghost predicate InSomeBlock(ws: seq<Block>, p: nat, o: nat) {
    exists k :: 0 <= k < |ws| && InBlock(ws[k], p, o)
  }

  predicate InBlock(w: Block, p: nat, o: nat) {
    w.piece == p && w.begin <= o < w.begin + |w.bytes|
  }

  /** The block is a stretch of `content`, if it is one of `p` at all. */
  predicate Genuine(w: Block, p: nat, content: seq<Byte>) {
    w.piece == p ==>
      w.begin + |w.bytes| <= |content| && w.bytes == content[w.begin..w.begin + |w.bytes|]
  }

  /** A block covers bytes of its own piece only. */
  lemma CoversOwnPiece(l: Lengths, w: Block, p: nat, o: nat)
    requires l.Valid() && Acceptable(l, w) && p < l.TotalPieces() && o < l.PieceLength(p)
    ensures Covers(l, w, p * l.pieceLength + o) <==> InBlock(w, p, o)
  {
    BlockHasItsPlace(l, w.piece, w.begin, |w.bytes|);
    PiecesTile(l, p);
    PiecesTile(l, w.piece);
    var b := p * l.pieceLength + o;
    if Covers(l, w, b) {
      PieceOfByte(l, b, p);
      PieceOfByte(l, b, w.piece);
    }
  }

  /** The order does not matter, nor do blocks of other pieces in between: where blocks of `p` that are
      all stretches of `content` have been stored the piece holds `content`, zeros in padding; elsewhere
      what it held. */
  lemma {:induction false} BlocksAssemble(l: Lengths, files: seq<FileInfo>, ws: seq<Block>, p: nat,
      content: seq<Byte>, o: nat, was: Byte)
    requires l.Valid() && p < l.TotalPieces() && o < l.PieceLength(p) == |content|
    requires forall k :: 0 <= k < |ws| ==> Acceptable(l, ws[k]) && Genuine(ws[k], p, content)
    ensures AfterBlocks(l, files, ws, p * l.pieceLength + o, was)
         == if !InSomeBlock(ws, p, o) then was
            else if PaddingAt(files, p * l.pieceLength + o) then 0 else content[o]
    decreases |ws|
  {
    if ws != [] {
      var last := |ws| - 1;
      var before, w := ws[..last], ws[last];
      BlocksAssemble(l, files, before, p, content, o, was);
      CoversOwnPiece(l, w, p, o);
      InSomeBlockMore(before, w, p, o);
      assert ws == before + [w];
      assert Genuine(w, p, content);
      PlaceInBlock(l, files, w, p, content, o, AfterBlocks(l, files, before, p * l.pieceLength + o, was));
    }
  }

  /** What one block of `content` does to the byte `o` bytes into `p`. */
  lemma PlaceInBlock(l: Lengths, files: seq<FileInfo>, w: Block, p: nat, content: seq<Byte>, o: nat, was: Byte)
    requires l.Valid() && o < |content| && Genuine(w, p, content)
    requires Covers(l, w, p * l.pieceLength + o) <==> InBlock(w, p, o)
    ensures Stored(l, files, w, p * l.pieceLength + o, was)
         == if !InBlock(w, p, o) then was else if PaddingAt(files, p * l.pieceLength + o) then 0 else content[o]
  {
  }

  lemma InSomeBlockMore(ws: seq<Block>, w: Block, p: nat, o: nat)
    ensures InSomeBlock(ws + [w], p, o) <==> InSomeBlock(ws, p, o) || InBlock(w, p, o)
  {
    var more := ws + [w];
    if k :| 0 <= k < |ws| && InBlock(ws[k], p, o) {
      assert InBlock(more[k], p, o);
    }
    if InBlock(w, p, o) {
      assert InBlock(more[|ws|], p, o);
    }
  }

  lemma PieceLiesInside(l: Lengths, p: nat)
    requires l.Valid() && p < l.TotalPieces()
    ensures l.PieceStart(p) == p * l.pieceLength && l.PieceLength(p) > 0
    ensures p * l.pieceLength + l.PieceLength(p) <= l.totalLength
  {
    PiecesTile(l, p);
    PieceStartMono(l, p + 1, l.TotalPieces());
    PiecesTile(l, l.TotalPieces());
  }

  /** So once blocks holding all bytes of a piece have been stored, in whatever order, the check of the
      piece is about exactly that content, with zeros in padding. */
  lemma StoredPieceIsContent<D>(t: Torrent<D>, data: seq<seq<Byte>>, data': seq<seq<Byte>>, ws: seq<Block>, p: nat,
      content: seq<Byte>)
    requires t.Valid() && p < t.lengths.TotalPieces() && |content| == t.lengths.PieceLength(p)
    requires forall k :: 0 <= k < |ws| ==> Acceptable(t.lengths, ws[k]) && Genuine(ws[k], p, content)
    requires forall o: nat :: o < |content| ==> InSomeBlock(ws, p, o)
    requires StoredSoFar(t, data, data', ws)
    ensures t.PieceContent(data', p) == Masked(t.files, p * t.lengths.pieceLength, content)
    ensures t.PieceMatches(data', p) <==>
      p < |t.hashes| && t.sha1(Masked(t.files, p * t.lengths.pieceLength, content)) == t.hashes[p]
  {
    var l, a := t.lengths, p * t.lengths.pieceLength;
    PieceLiesInside(l, p);
    var held, wanted := t.PieceContent(data', p), Masked(t.files, a, content);
    assert |held| == |wanted|;
    forall o: nat | o < |content|
      ensures held[o] == wanted[o]
    {
      BlocksAssemble(l, t.files, ws, p, content, o, TorrentByte(t.files, data, a + o));
      assert InSomeBlock(ws, p, o);
      assert held[o] == TorrentByte(t.files, data', a + o);
    }
    assert held == wanted;
  }

  /** Writing a chunk and reading it back gives the block, with zeros where it lies in padding. */
  method WriteThenReadChunk<D(==)>(t: Torrent<D>, s: Storage, c: ChunkInfo, first: seq<Byte>, second: seq<Byte>,
      buf: array<Byte>)
    returns (ok: bool)
    requires t.Valid() && c.Valid(t.lengths) && |first + second| == c.size && |t.files| <= |s.data|
    modifies s, buf
    ensures ok ==> c.size <= buf.Length && buf[..c.size] == Masked(t.files, c.AbsoluteOffset(t.lengths), first + second)
    ensures ok <==>
      && c.size <= buf.Length
      && WritesOk(t.files, old(s.data), s, c.AbsoluteOffset(t.lengths), first, second)
      && ReadsOk(t.files, s, c.AbsoluteOffset(t.lengths), buf.Length)
    ensures ok ==> BlockStored(t, old(s.data), s.data, Block(c.piece, c.chunk * CHUNK_SIZE, first + second))
    ensures ok ==> forall j: nat :: j < c.size <= buf.Length ==>
      buf[j] == if PaddingAt(t.files, c.piece * t.lengths.pieceLength + c.chunk * CHUNK_SIZE + j) then 0
                else (first + second)[j]
  {
    ghost var a, bytes, before := c.AbsoluteOffset(t.lengths), first + second, s.data;
    ok := WriteChunk(t, s, c, first, second);
    if ok {
      ChunkInsideTorrent(t.lengths, c);
      ChunkHasItsPlace(t.lengths, c);
      WriteThenRead(t.lengths, t.files, before, s.data, a, bytes);
      ok := ReadChunk(t, s, c, buf);
      if ok {
        ghost var n := Min(buf.Length, t.lengths.totalLength - a);
        assert buf[..c.size] == buf[..n][..c.size];
        assert TorrentBytes(t.files, s.data, a, n)[..c.size] == TorrentBytes(t.files, s.data, a, c.size);
      }
    }
  }
}
