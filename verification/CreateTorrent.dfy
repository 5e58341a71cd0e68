/** Creating a torrent: stream the files, one after another, into piece hashes. */
module CreateTorrent {
  import opened Prelude
  import opened Lengths
  import opened Files
  import opened Storage
  import opened FileOps

  const READ_SIZE: nat := 8192

  /** The first `k` files' contents, end to end. */
  function Joined(contents: seq<seq<Byte>>, k: nat): seq<Byte>
    requires k <= |contents|
  {
    if k == 0 then [] else Joined(contents, k - 1) + contents[k - 1]
  }

  /** Hashes of the successive full blocks of `size` bytes. */
  function HashBlocks<D>(sha1: seq<Byte> -> D, s: seq<Byte>, size: nat): seq<D>
    requires size > 0
  {
    if |s| < size then [] else [sha1(s[..size])] + HashBlocks(sha1, s[size..], size)
  }

  /** What is left after the last full block. */
  function Residue(s: seq<Byte>, size: nat): (r: seq<Byte>)
    requires size > 0
    ensures |r| < size
  {
    if |s| < size then s else Residue(s[size..], size)
  }

  /** Feeding more bytes either grows the residue or completes one block. */
  lemma {:induction false} Feed<D>(sha1: seq<Byte> -> D, s: seq<Byte>, x: seq<Byte>, size: nat)
    requires size > 0 && |Residue(s, size)| + |x| <= size
    ensures var r := Residue(s, size) + x;
      if |r| < size
      then HashBlocks(sha1, s + x, size) == HashBlocks(sha1, s, size) && Residue(s + x, size) == r
      else HashBlocks(sha1, s + x, size) == HashBlocks(sha1, s, size) + [sha1(r)] && Residue(s + x, size) == []
    decreases |s|
  {
    if |s| < size {
      if |s| + |x| == size {
        assert (s + x)[..size] == s + x && (s + x)[size..] == [];
      }
    } else {
      assert (s + x)[..size] == s[..size] && (s + x)[size..] == s[size..] + x;
      Feed(sha1, s[size..], x, size);
    }
  }

  /** A read returns at least one byte unless the file or the request is exhausted. */
  method Read(content: seq<Byte>, pos: nat, max: nat) returns (n: nat)
    requires pos <= |content|
    ensures n <= max && pos + n <= |content|
    ensures n == 0 <==> max == 0 || pos == |content|
  {
    var left := Min(max, |content| - pos);
    assert 0 <= left <= left;
    n :| 0 <= n <= left && (n == 0 <==> left == 0);
  }

  datatype RawTorrent<D> = RawTorrent(pieceHashes: seq<D>, fileLengths: seq<nat>)

  /** Opening file `k`, or reading it at some position, fails. */
  ghost predicate FileFails(contents: seq<seq<Byte>>, openFails: nat -> bool, readFails: (nat, nat) -> bool, k: nat)
    requires k < |contents|
  {
    openFails(k) || exists pos: nat :: pos <= |contents[k]| && readFails(k, pos)
  }

  /** The read/hash loop. Whatever sizes the reads return, the hashes are those of successive
      blocks of all the contents, and one more of the residue if the last file is not empty.
      There is no result only if some file cannot be opened or read. */
  method CreateTorrentRaw<D(==)>(contents: seq<seq<Byte>>, pieceLength: nat, sha1: seq<Byte> -> D,
      openFails: nat -> bool, readFails: (nat, nat) -> bool)
    returns (r: Result<RawTorrent<D>>)
    ensures r.Err? ==> exists k :: 0 <= k < |contents| && FileFails(contents, openFails, readFails, k)
    ensures r.Ok? ==> forall k :: 0 <= k < |contents| ==> !openFails(k)
    ensures r.Ok? ==> |r.value.fileLengths| == |contents|
    ensures r.Ok? ==> forall i :: 0 <= i < |contents| ==>
      r.value.fileLengths[i] == if pieceLength > 0 then |contents[i]| else 0
    ensures r.Ok? && pieceLength > 0 ==> r.value.pieceHashes == ExpectedHashes(contents, pieceLength, sha1)
    ensures r.Ok? && pieceLength == 0 ==> r.value.pieceHashes == []
  {
    var pieceHashes: seq<D>, fileLengths: seq<nat> := [], [];
    var length, remaining := 0, pieceLength;
    var checksum: seq<Byte> := [];
    for k := 0 to |contents|
      invariant Streamed(contents, k, 0, pieceLength, sha1, pieceHashes, checksum)
      invariant remaining == pieceLength - |checksum|
      invariant length == if k > 0 && pieceLength > 0 then |contents[k - 1]| else 0
      invariant |fileLengths| == k
      invariant forall i :: 0 <= i < k ==> fileLengths[i] == if pieceLength > 0 then |contents[i]| else 0
      invariant forall i :: 0 <= i < k ==> !openFails(i)
    {
      if openFails(k) {
        assert FileFails(contents, openFails, readFails, k);
        return Err("error opening file");
      }
      var ok: bool;
      ok, length, remaining, checksum, pieceHashes :=
        HashFile(contents, k, pieceLength, sha1, readFails, remaining, checksum, pieceHashes);
      if !ok {
        assert FileFails(contents, openFails, readFails, k);
        return Err("error reading file");
      }
      fileLengths := fileLengths + [length];
      assert pieceLength > 0 ==> Prefix(contents, k, length) == Joined(contents, k + 1);
      assert Prefix(contents, k + 1, 0) == Joined(contents, k + 1);
    }
    assert Prefix(contents, |contents|, 0) == Joined(contents, |contents|);
    if remaining > 0 && length > 0 {
      pieceHashes := pieceHashes + [sha1(checksum)];
    }
    return Ok(RawTorrent(pieceHashes, fileLengths));
  }

  /** Read file `k` to its end, continuing the block the previous files left unfinished. */
  method HashFile<D(==)>(contents: seq<seq<Byte>>, k: nat, pieceLength: nat, sha1: seq<Byte> -> D,
      readFails: (nat, nat) -> bool, remaining0: nat, checksum0: seq<Byte>, hashes0: seq<D>)
    returns (ok: bool, length: nat, remaining: nat, checksum: seq<Byte>, hashes: seq<D>)
    requires k < |contents| && Streamed(contents, k, 0, pieceLength, sha1, hashes0, checksum0)
    requires remaining0 == pieceLength - |checksum0|
    ensures length <= |contents[k]| && (!ok ==> readFails(k, length))
    ensures ok ==> length == if pieceLength > 0 then |contents[k]| else 0
    ensures Streamed(contents, k, length, pieceLength, sha1, hashes, checksum)
    ensures remaining == pieceLength - |checksum|
  {
    length, remaining, checksum, hashes := 0, remaining0, checksum0, hashes0;
    while true
      invariant length <= |contents[k]| && (pieceLength == 0 ==> length == 0)
      invariant Streamed(contents, k, length, pieceLength, sha1, hashes, checksum)
      invariant remaining == pieceLength - |checksum|
      decreases |contents[k]| - length
    {
      if readFails(k, length) {
        ok := false;
        return;
      }
      var size := Read(contents[k], length, Min(remaining, READ_SIZE));
      if size == 0 {
        ok := true;
        return;
      }
      var bytes := contents[k][length..length + size];
      StreamedMore(contents, k, length, size, pieceLength, sha1, hashes, checksum);
      length := length + size;
      checksum := checksum + bytes;
      remaining := remaining - size;
      if remaining == 0 {
        remaining := pieceLength;
        hashes := hashes + [sha1(checksum)];
        checksum := [];
      }
    }
  }

  /** The bytes read when `pos` bytes of file `k` have been. */
  ghost function Prefix(contents: seq<seq<Byte>>, k: nat, pos: nat): seq<Byte>
    requires k <= |contents| && if k < |contents| then pos <= |contents[k]| else pos == 0
  {
    Joined(contents, k) + if k < |contents| then contents[k][..pos] else []
  }

  ghost predicate Streamed<D>(contents: seq<seq<Byte>>, k: nat, pos: nat, size: nat, sha1: seq<Byte> -> D,
      hashes: seq<D>, checksum: seq<Byte>)
    requires k <= |contents| && if k < |contents| then pos <= |contents[k]| else pos == 0
  {
    if size == 0 then hashes == [] && checksum == []
    else
      && hashes == HashBlocks(sha1, Prefix(contents, k, pos), size)
      && checksum == Residue(Prefix(contents, k, pos), size)
  }

  /** Reading `n` more bytes extends the unfinished block or finishes it. */
  lemma StreamedMore<D>(contents: seq<seq<Byte>>, k: nat, pos: nat, n: nat, size: nat, sha1: seq<Byte> -> D,
      hashes: seq<D>, checksum: seq<Byte>)
    requires k < |contents| && pos + n <= |contents[k]| && 0 < n
    requires Streamed(contents, k, pos, size, sha1, hashes, checksum) && |checksum| + n <= size
    ensures var c := checksum + contents[k][pos..pos + n];
      if |c| < size then Streamed(contents, k, pos + n, size, sha1, hashes, c)
      else Streamed(contents, k, pos + n, size, sha1, hashes + [sha1(c)], [])
  {
    var bytes := contents[k][pos..pos + n];
    Feed(sha1, Prefix(contents, k, pos), bytes, size);
    assert Prefix(contents, k, pos + n) == Prefix(contents, k, pos) + bytes;
  }

  predicate LastFileNonEmpty(contents: seq<seq<Byte>>) {
    contents != [] && contents[|contents| - 1] != []
  }

  function ExpectedHashes<D>(contents: seq<seq<Byte>>, size: nat, sha1: seq<Byte> -> D): seq<D>
    requires size > 0
  {
    var all := Joined(contents, |contents|);
    HashBlocks(sha1, all, size) + if LastFileNonEmpty(contents) then [sha1(Residue(all, size))] else []
  }

  // ---- Creating, then checking ------------------------------------------------------

  lemma QuotientStep(n: nat, size: nat)
    requires size > 0
    ensures (n / size) * size <= n
    ensures n < size ==> n / size == 0
    ensures n >= size ==> n / size == (n - size) / size + 1 && (n / size) * size == ((n - size) / size) * size + size
  {
    DivSpec(n, size, n / size);
    DivSpec(n, size, 1);
    if n >= size {
      var q := (n - size) / size;
      MulStep(q, size);
      MulStep(q + 1, size);
      DivSpec(n - size, size, q);
      DivSpec(n - size, size, q + 1);
      DivSpec(n, size, q + 1);
      DivSpec(n, size, q + 2);
    }
  }

  lemma {:induction false} BlocksByIndex<D>(sha1: seq<Byte> -> D, s: seq<Byte>, size: nat)
    requires size > 0
    ensures |HashBlocks(sha1, s, size)| == |s| / size
    ensures (|s| / size) * size <= |s|
    ensures Residue(s, size) == s[(|s| / size) * size..]
    decreases |s|
  {
    QuotientStep(|s|, size);
    if |s| >= size {
      BlocksByIndex(sha1, s[size..], size);
      var q := (|s| - size) / size;
      assert s[size..][q * size..] == s[(q + 1) * size..];
    }
  }

  lemma {:induction false} BlockAt<D>(sha1: seq<Byte> -> D, s: seq<Byte>, size: nat, p: nat)
    requires size > 0 && p < |HashBlocks(sha1, s, size)|
    ensures (p + 1) * size <= |s| && p * size <= (p + 1) * size
    ensures HashBlocks(sha1, s, size)[p] == sha1(s[p * size..(p + 1) * size])
    decreases p
  {
    MulStep(p, size);
    if p > 0 {
      BlockAt(sha1, s[size..], size, p - 1);
      MulStep(p - 1, size);
      assert s[size..][(p - 1) * size..p * size] == s[p * size..(p + 1) * size];
    }
  }

  /** `files` is the file list of a torrent made from `contents`. */
  ghost predicate Describes(files: seq<FileInfo>, contents: seq<seq<Byte>>) {
    |files| == |contents| && forall i :: 0 <= i < |files| ==> FileDescribes(files[i], contents[i])
  }

  predicate FileDescribes(f: FileInfo, content: seq<Byte>) {
    f.len == |content| && !f.padding
  }

  lemma {:induction false} JoinedIsTorrent(files: seq<FileInfo>, contents: seq<seq<Byte>>, k: nat)
    requires Describes(files, contents) && k <= |files|
    ensures |Joined(contents, k)| == FileStart(files, k)
    ensures forall b :: 0 <= b < FileStart(files, k) ==> ByteAmong(files, contents, b, k) == Joined(contents, k)[b]
  {
    if k > 0 {
      JoinedIsTorrent(files, contents, k - 1);
      assert FileDescribes(files[k - 1], contents[k - 1]);
    }
  }

  lemma PieceOfJoined<D>(t: Torrent<D>, contents: seq<seq<Byte>>, p: nat)
    requires t.Valid() && Describes(t.files, contents)
    ensures var all := Joined(contents, |contents|);
      && 0 <= t.lengths.PieceStart(p) <= t.lengths.PieceStart(p + 1) <= |all| == t.lengths.totalLength
      && t.PieceContent(contents, p) == all[t.lengths.PieceStart(p)..t.lengths.PieceStart(p + 1)]
  {
    JoinedIsTorrent(t.files, contents, |contents|);
    PieceStartMono(t.lengths, p, p + 1);
    var all, start := Joined(contents, |contents|), t.lengths.PieceStart(p);
    var piece := t.PieceContent(contents, p);
    forall j | 0 <= j < |piece|
      ensures piece[j] == all[start + j]
    {
      assert piece[j] == TorrentByte(t.files, contents, start + j);
    }
  }

  /** Checking a freshly created torrent against its own files succeeds on every piece if and
      only if the last file is not empty or the total is a multiple of the piece length. */
  lemma CreateThenCheck<D>(t: Torrent<D>, contents: seq<seq<Byte>>)
    requires t.Valid() && Describes(t.files, contents)
    requires t.hashes == ExpectedHashes(contents, t.lengths.pieceLength, t.sha1)
    ensures (forall p :: 0 <= p < t.lengths.TotalPieces() ==> t.PieceMatches(contents, p))
       <==> LastFileNonEmpty(contents) || t.lengths.totalLength % t.lengths.pieceLength == 0
  {
    var size, n := t.lengths.pieceLength, t.lengths.TotalPieces();
    var all := Joined(contents, |contents|);
    JoinedIsTorrent(t.files, contents, |contents|);
    BlocksByIndex(t.sha1, all, size);
    var q := |all| / size;
    WholeAndPart(|all|, size);
    forall p | 0 <= p < q
      ensures t.PieceMatches(contents, p)
    {
      FullPieceMatches(t, contents, p);
    }
    if n == q + 1 {
      LastPieceMatches(t, contents);
    }
  }

  lemma WholeAndPart(total: nat, size: nat)
    requires size > 0
    ensures CeilDiv(total, size) == total / size + if total % size == 0 then 0 else 1
  {
    var q := total / size;
    assert total == q * size + total % size;
    CeilDivSpec(total, size, q);
    MulStep(q, size);
    CeilDivSpec(total, size, q + 1);
    DivSpec(total, size, q);
  }

  lemma FullPieceMatches<D>(t: Torrent<D>, contents: seq<seq<Byte>>, p: nat)
    requires t.Valid() && Describes(t.files, contents)
    requires t.hashes == ExpectedHashes(contents, t.lengths.pieceLength, t.sha1)
    requires p < t.lengths.totalLength / t.lengths.pieceLength
    ensures t.PieceMatches(contents, p)
  {
    var all, size := Joined(contents, |contents|), t.lengths.pieceLength;
    PieceOfJoined(t, contents, p);
    BlocksByIndex(t.sha1, all, size);
    BlockAt(t.sha1, all, size, p);
  }

  lemma LastPieceMatches<D>(t: Torrent<D>, contents: seq<seq<Byte>>)
    requires t.Valid() && Describes(t.files, contents)
    requires t.hashes == ExpectedHashes(contents, t.lengths.pieceLength, t.sha1)
    requires t.lengths.TotalPieces() == t.lengths.totalLength / t.lengths.pieceLength + 1
    ensures t.PieceMatches(contents, t.lengths.TotalPieces() - 1) <==> LastFileNonEmpty(contents)
  {
    var all, size, p := Joined(contents, |contents|), t.lengths.pieceLength, t.lengths.TotalPieces() - 1;
    PieceOfJoined(t, contents, p);
    PiecesTile(t.lengths, p);
    PiecesTile(t.lengths, p + 1);
    BlocksByIndex(t.sha1, all, size);
    assert t.PieceContent(contents, p) == Residue(all, size);
  }

  /** The number of hashes is right exactly when the last file is non-empty and bytes are left
      over, or it is empty and none are. */
  lemma HashCount<D>(contents: seq<seq<Byte>>, size: nat, sha1: seq<Byte> -> D)
    requires size > 0
    ensures var total := |Joined(contents, |contents|)|;
      |ExpectedHashes(contents, size, sha1)| == CeilDiv(total, size) <==>
        (LastFileNonEmpty(contents) <==> total % size != 0)
  {
    var all := Joined(contents, |contents|);
    BlocksByIndex(sha1, all, size);
    WholeAndPart(|all|, size);
  }

  /** Both exceptions are real. With a last file that is empty and a byte left over, the only piece has
      no hash ... */
  lemma LastHashMissing<D>(sha1: seq<Byte> -> D)
    ensures var contents: seq<seq<Byte>> := [[1], []];
      var files := [FileInfo(0, 1, 0, 1, false), FileInfo(1, 0, 0, 0, false)];
      var t := Torrent(Lengths(1, 2), files, ExpectedHashes(contents, 2, sha1), sha1);
      && t.Valid() && Describes(files, contents) && t.lengths.TotalPieces() == 1
      && t.hashes == [] && !t.PieceMatches(contents, 0)
  {
    var contents: seq<seq<Byte>> := [[1], []];
    var files := [FileInfo(0, 1, 0, 1, false), FileInfo(1, 0, 0, 0, false)];
    assert FileStart(files, 0) == 0 && FileStart(files, 1) == 1 && FileStart(files, 2) == 1;
    assert InPlace(Lengths(1, 2), files, 0) && InPlace(Lengths(1, 2), files, 1);
    assert FileDescribes(files[0], contents[0]) && FileDescribes(files[1], contents[1]);
    assert Joined(contents, 0) == [] && Joined(contents, 1) == [1] && Joined(contents, 2) == [1];
  }

  /** ... and with a whole piece in a last file that is not empty, the only piece has two. */
  lemma OneHashTooMany<D>(sha1: seq<Byte> -> D)
    ensures var contents: seq<seq<Byte>> := [[1, 2]];
      CeilDiv(|Joined(contents, 1)|, 2) == 1 && ExpectedHashes(contents, 2, sha1) == [sha1([1, 2]), sha1([])]
  {
    var contents: seq<seq<Byte>> := [[1, 2]];
    assert Joined(contents, 0) == [] && Joined(contents, 1) == [1, 2];
    var all: seq<Byte> := [1, 2];
    assert all[..2] == all && all[2..] == [];
    assert HashBlocks(sha1, [], 2) == [];
    assert Residue(all[2..], 2) == [];
  }
}
