/** The files of a torrent, laid end to end, and the order in which a file's pieces are
    requested. */
module Files {
  import opened Prelude
  import opened Lengths

  datatype FileInfo = FileInfo(offset: nat, len: nat, firstPiece: nat, endPiece: nat, padding: bool)

  predicate ContainsPiece(f: FileInfo, p: nat) {
    f.firstPiece <= p < f.endPiece
  }

  /** Total length of the first `i` files. */
  function FileStart(files: seq<FileInfo>, i: nat): nat
    requires i <= |files|
  {
    if i == 0 then 0 else FileStart(files, i - 1) + files[i - 1].len
  }

  /** File `f` lies inside the torrent and its piece range is the range it touches. */
  predicate Placed(l: Lengths, f: FileInfo) {
    && l.Valid()
    && f.offset + f.len <= l.totalLength
    && f.firstPiece == l.FirstPieceOf(f.offset)
    && f.endPiece == l.EndPieceOf(f.offset, f.len)
  }

  predicate InPlace(l: Lengths, files: seq<FileInfo>, i: nat)
    requires i < |files|
  {
    Placed(l, files[i]) && files[i].offset == FileStart(files, i)
  }

  /** The files tile the torrent in list order. */
  ghost predicate Tiles(l: Lengths, files: seq<FileInfo>) {
    && l.Valid()
    && FileStart(files, |files|) == l.totalLength
    && forall i :: 0 <= i < |files| ==> InPlace(l, files, i)
  }

  lemma {:induction false} FileStartMono(files: seq<FileInfo>, i: nat, j: nat)
    requires i <= j <= |files|
    ensures FileStart(files, i) <= FileStart(files, j)
    decreases j
  {
    if i < j {
      FileStartMono(files, i, j - 1);
    }
  }

  /** Every byte before the end of the first `k` files lies in one of them. */
  lemma {:induction false} FileOfByte(files: seq<FileInfo>, b: nat, k: nat) returns (i: nat)
    requires k <= |files| && b < FileStart(files, k)
    ensures i < k && FileStart(files, i) <= b < FileStart(files, i + 1)
  {
    if b < FileStart(files, k - 1) {
      i := FileOfByte(files, b, k - 1);
    } else {
      i := k - 1;
    }
  }

  /** Every piece is listed by some file. */
  lemma PieceHasFile(l: Lengths, files: seq<FileInfo>, p: nat) returns (i: nat)
    requires Tiles(l, files) && p < l.TotalPieces()
    ensures i < |files| && ContainsPiece(files[i], p)
  {
    PiecesTile(l, p);
    i := FileOfByte(files, l.PieceStart(p), |files|);
    assert InPlace(l, files, i);
    PieceInFileRange(l, p, files[i].offset, files[i].len);
  }

  // ---- Request order inside one file ------------------------------------------------

  /** First piece, last piece, then the rest from start to end. */
  function PiecePriorities(lo: nat, hi: nat): seq<nat>
    requires lo <= hi
  {
    var len := hi - lo;
    if len == 0 then []
    else ([lo] + [lo + len - 1] + seq(SaturatingSub(len, 2), i requires 0 <= i => lo + 1 + i))[..len]
  }

  /** Every piece of the range is listed exactly once, and nothing else is. */
  lemma PiecePrioritiesPermutation(lo: nat, hi: nat)
    requires lo <= hi
    ensures |PiecePriorities(lo, hi)| == hi - lo
    ensures forall p :: p in PiecePriorities(lo, hi) <==> lo <= p < hi
    ensures forall i, j :: 0 <= i < j < hi - lo ==> PiecePriorities(lo, hi)[i] != PiecePriorities(lo, hi)[j]
    ensures lo < hi ==> PiecePriorities(lo, hi)[0] == lo
    ensures lo + 1 < hi ==> PiecePriorities(lo, hi)[1] == hi - 1
    ensures forall i :: 2 <= i < hi - lo ==> PiecePriorities(lo, hi)[i] == lo + i - 1
  {
    var r := PiecePriorities(lo, hi);
    forall p | lo <= p < hi ensures p in r {
      var k := if p == lo then 0 else if p == hi - 1 then 1 else p - lo + 1;
      assert r[k] == p;
    }
  }

  // ---- Bytes a set of pieces contributes to a file ----------------------------------

  function FileWeight(l: Lengths, f: FileInfo): nat -> nat {
    p => l.SizeOfPieceInFile(p, f.offset, f.len)
  }

  /** How many bytes of `f` the pieces in `s` hold. */
  function FileBytes(l: Lengths, f: FileInfo, s: set<nat>): nat
    requires f.firstPiece <= f.endPiece
  {
    WSum(FileWeight(l, f), s, f.firstPiece, f.endPiece)
  }

  /** The bytes of `f` before torrent position `x`. */
  function BytesBefore(f: FileInfo, x: nat): nat {
    if x <= f.offset then 0 else if x >= f.offset + f.len then f.len else x - f.offset
  }

  lemma OverlapTelescopes(f: FileInfo, start: nat, end: nat)
    requires start <= end
    ensures Max(0, Min(end, f.offset + f.len) - Max(start, f.offset)) == BytesBefore(f, end) - BytesBefore(f, start)
  {
  }

  lemma {:induction false} AllPiecesSum(l: Lengths, f: FileInfo, s: set<nat>, hi: nat)
    requires Placed(l, f) && f.firstPiece <= hi
    requires forall p :: f.firstPiece <= p < hi ==> p in s
    ensures WSum(FileWeight(l, f), s, f.firstPiece, hi)
         == BytesBefore(f, l.PieceStart(hi)) - BytesBefore(f, l.PieceStart(f.firstPiece))
    decreases hi
  {
    if f.firstPiece < hi {
      AllPiecesSum(l, f, s, hi - 1);
      PieceStartMono(l, hi - 1, hi);
      OverlapTelescopes(f, l.PieceStart(hi - 1), l.PieceStart(hi));
      assert FileWeight(l, f)(hi - 1) == l.SizeOfPieceInFile(hi - 1, f.offset, f.len);
    }
  }

  /** A file is complete exactly when all its pieces are held: the byte count tells. */
  lemma FileComplete(l: Lengths, f: FileInfo, s: set<nat>)
    requires Placed(l, f)
    ensures f.firstPiece <= f.endPiece <= l.TotalPieces()
    ensures FileBytes(l, f, s) <= f.len
    ensures FileBytes(l, f, s) == f.len <==> forall p :: ContainsPiece(f, p) ==> p in s
  {
    PieceInFileRange(l, f.firstPiece, f.offset, f.len);
    var all := Ones(seq(f.endPiece, _ => true));
    AllPiecesSum(l, f, all, f.endPiece);
    WSumMono(FileWeight(l, f), s, all, f.firstPiece, f.endPiece);
    DivSpec(f.offset, l.pieceLength, f.firstPiece);
    if f.len > 0 {
      CeilDivSpec(f.offset + f.len, l.pieceLength, f.endPiece);
    }
    if forall p :: ContainsPiece(f, p) ==> p in s {
      forall p | f.firstPiece <= p < f.endPiece ensures p in s {
        assert ContainsPiece(f, p);
      }
      WSumMono(FileWeight(l, f), all, s, f.firstPiece, f.endPiece);
    } else {
      var p :| ContainsPiece(f, p) && p !in s;
      PieceInFileRange(l, p, f.offset, f.len);
      WSumStrict(FileWeight(l, f), s, all, p, f.firstPiece, f.endPiece);
    }
  }

  /** What a set of pieces holds of a file is the number of the file's bytes that lie in one of them. */
  lemma FileBytesAreCounted(l: Lengths, f: FileInfo, s: set<nat>, bytes: set<nat>)
    requires Placed(l, f)
    requires forall b: nat :: b in bytes <==> f.offset <= b < f.offset + f.len && b / l.pieceLength in s
    ensures f.firstPiece <= f.endPiece && FileBytes(l, f, s) == |bytes|
  {
    PieceInFileRange(l, 0, f.offset, f.len);
    var counted := BytesOfRange(l, f, s, f.endPiece);
    forall b: nat | f.offset <= b < f.offset + f.len
      ensures f.firstPiece <= b / l.pieceLength < f.endPiece
    {
      DivSpec(f.offset, l.pieceLength, f.firstPiece);
      DivSpec(b, l.pieceLength, f.firstPiece);
      DivSpec(b, l.pieceLength, b / l.pieceLength);
      CeilDivSpec(f.offset + f.len, l.pieceLength, b / l.pieceLength);
    }
    assert bytes == counted;
  }

  /** The bytes of a file that lie in pieces of `s` before piece `hi`. */
  lemma {:induction false} BytesOfRange(l: Lengths, f: FileInfo, s: set<nat>, hi: nat) returns (bytes: set<nat>)
    requires Placed(l, f) && f.firstPiece <= hi
    ensures forall b: nat :: b in bytes <==>
      f.offset <= b < f.offset + f.len && f.firstPiece <= b / l.pieceLength < hi && b / l.pieceLength in s
    ensures WSum(FileWeight(l, f), s, f.firstPiece, hi) == |bytes|
    decreases hi
  {
    bytes := {};
    if f.firstPiece < hi {
      bytes := BytesOfRange(l, f, s, hi - 1);
      if hi - 1 in s {
        var more := SharedBytes(l, f, hi - 1);
        assert bytes !! more;
        bytes := bytes + more;
      }
    }
  }

  lemma SharedBytes(l: Lengths, f: FileInfo, p: nat) returns (bytes: set<nat>)
    requires Placed(l, f)
    ensures forall b: nat :: b in bytes <==> f.offset <= b < f.offset + f.len && b / l.pieceLength == p
    ensures FileWeight(l, f)(p) == |bytes|
  {
    PieceStartMono(l, p, p + 1);
    bytes := Interval(Max(l.PieceStart(p), f.offset), Min(l.PieceStart(p + 1), f.offset + f.len));
    forall b: nat | b < l.totalLength
      ensures b / l.pieceLength == p <==> l.PieceStart(p) <= b < l.PieceStart(p + 1)
    {
      PieceOfByte(l, b, p);
    }
  }
}
