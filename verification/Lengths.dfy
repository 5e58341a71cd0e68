/** How a torrent of `totalLength` bytes is cut into pieces, and pieces into chunks.
    Pieces tile `[0, totalLength)`; every piece but the last is `pieceLength` long; the chunk
    bits of piece `p` start at bit `ChunksPerFullPiece() * p`. */
module Lengths {
  import opened Prelude

  const CHUNK_SIZE: nat := 16384

  datatype Lengths = Lengths(totalLength: nat, pieceLength: nat) {

    predicate Valid() {
      pieceLength > 0
    }

    function TotalPieces(): nat
      requires Valid()
    {
      CeilDiv(totalLength, pieceLength)
    }

    /** First byte of piece `p`; past the last piece, the end of the torrent. */
    function PieceStart(p: nat): nat {
      Min(p * pieceLength, totalLength)
    }

    function PieceLength(p: nat): (len: int) {
      PieceStart(p + 1) - PieceStart(p)
    }

    function ChunksPerFullPiece(): nat {
      CeilDiv(pieceLength, CHUNK_SIZE)
    }

    function ChunksOf(p: nat): nat {
      CeilDiv(Max(PieceLength(p), 0), CHUNK_SIZE)
    }

    function ChunkStart(p: nat): nat {
      ChunksPerFullPiece() * p
    }

    function ChunkEnd(p: nat): nat {
      ChunkStart(p) + ChunksOf(p)
    }

    function TotalChunks(): nat
      requires Valid()
    {
      if TotalPieces() == 0 then 0 else ChunkEnd(TotalPieces() - 1)
    }

    /** Bit fields are stored in whole bytes. */
    function PieceBits(): nat
      requires Valid()
    {
      8 * CeilDiv(TotalPieces(), 8)
    }

    function ChunkBits(): nat
      requires Valid()
    {
      8 * CeilDiv(TotalChunks(), 8)
    }

    function ChunkSize(p: nat, c: nat): nat {
      Max(0, Min(CHUNK_SIZE, PieceLength(p) - c * CHUNK_SIZE))
    }

    /** The chunk a received block denotes: it must start on a chunk boundary inside the piece
        and have exactly that chunk's size. */
    function ChunkOfReceived(p: nat, begin: nat, size: nat): Option<nat> {
      var c := begin / CHUNK_SIZE;
      if c < ChunksOf(p) && begin == c * CHUNK_SIZE && size == ChunkSize(p, c) then Some(c) else None
    }

    /** Bytes of piece `p` that lie inside the file `[offset, offset + len)`. */
    function SizeOfPieceInFile(p: nat, offset: nat, len: nat): nat {
      Max(0, Min(PieceStart(p + 1), offset + len) - Max(PieceStart(p), offset))
    }

    /** The pieces a file touches; empty for an empty file. */
    function FirstPieceOf(offset: nat): nat
      requires Valid()
    {
      offset / pieceLength
    }

    function EndPieceOf(offset: nat, len: nat): nat
      requires Valid()
    {
      if len == 0 then FirstPieceOf(offset) else CeilDiv(offset + len, pieceLength)
    }
  }

  lemma PieceStartMono(l: Lengths, p: nat, q: nat)
    requires l.Valid() && p <= q
    ensures l.PieceStart(p) <= l.PieceStart(q)
  {
    MulMono(p, q, l.pieceLength);
  }

  /** Pieces tile the torrent: they are non-empty, adjacent, and end at `totalLength`. */
  lemma PiecesTile(l: Lengths, p: nat)
    requires l.Valid()
    ensures l.PieceStart(0) == 0 && l.PieceStart(l.TotalPieces()) == l.totalLength
    ensures p < l.TotalPieces() ==> 0 < l.PieceLength(p) <= l.pieceLength
    ensures p < l.TotalPieces() ==> l.PieceStart(p) == p * l.pieceLength
    ensures p + 1 < l.TotalPieces() ==> l.PieceLength(p) == l.pieceLength
    ensures p >= l.TotalPieces() ==> l.PieceStart(p) == l.totalLength
  {
    var n := l.TotalPieces();
    CeilDivSpec(l.totalLength, l.pieceLength, n);
    CeilDivSpec(l.totalLength, l.pieceLength, p);
    CeilDivSpec(l.totalLength, l.pieceLength, p + 1);
    MulStep(p, l.pieceLength);
  }

  lemma PieceLengthNat(l: Lengths, p: nat)
    requires l.Valid()
    ensures l.PieceLength(p) >= 0
  {
    PieceStartMono(l, p, p + 1);
  }

  lemma ChunkCounts(l: Lengths, p: nat)
    requires l.Valid() && p < l.TotalPieces()
    ensures 0 < l.ChunksOf(p) <= l.ChunksPerFullPiece()
  {
    PiecesTile(l, p);
    CeilDivSpec(l.PieceLength(p), CHUNK_SIZE, 0);
    CeilDivSpec(l.pieceLength, CHUNK_SIZE, l.ChunksPerFullPiece());
    CeilDivSpec(l.PieceLength(p), CHUNK_SIZE, l.ChunksPerFullPiece());
  }

  /** The chunk bits of different pieces never overlap. */
  lemma ChunkRangesDisjoint(l: Lengths, p: nat, q: nat)
    requires l.Valid() && p < q < l.TotalPieces()
    ensures l.ChunkEnd(p) <= l.ChunkStart(q)
  {
    ChunkCounts(l, p);
    var d := l.ChunksPerFullPiece();
    MulMono(p + 1, q, d);
    MulStep(p, d);
  }

  /** ... and all of them fit the chunk bit field. */
  lemma ChunkRangeFits(l: Lengths, p: nat)
    requires l.Valid() && p < l.TotalPieces()
    ensures l.ChunkEnd(p) <= l.TotalChunks() <= l.ChunkBits()
  {
    CeilDivSpec(l.TotalChunks(), 8, CeilDiv(l.TotalChunks(), 8));
    var last := l.TotalPieces() - 1;
    if p < last {
      ChunkRangesDisjoint(l, p, last);
    }
  }

  lemma PieceBitsFit(l: Lengths)
    requires l.Valid()
    ensures l.TotalPieces() <= l.PieceBits()
  {
    CeilDivSpec(l.TotalPieces(), 8, CeilDiv(l.TotalPieces(), 8));
  }

  /** Chunks tile their piece: a received block is accepted exactly when it is one of them. */
  lemma ChunksTilePiece(l: Lengths, p: nat, c: nat, begin: nat, size: nat)
    requires l.Valid() && p < l.TotalPieces() && c < l.ChunksOf(p)
    ensures c * CHUNK_SIZE + l.ChunkSize(p, c) == Min((c + 1) * CHUNK_SIZE, l.PieceLength(p))
    ensures l.ChunkSize(p, c) > 0
    ensures l.ChunkOfReceived(p, begin, size) == Some(c) <==> begin == c * CHUNK_SIZE && size == l.ChunkSize(p, c)
  {
    PiecesTile(l, p);
    CeilDivSpec(l.PieceLength(p), CHUNK_SIZE, c);
  }

  /** Every byte of a piece lies in exactly one of its chunks, the one its offset says, and no chunk
      reaches beyond the piece. */
  lemma ChunksCoverPiece(l: Lengths, p: nat, o: nat, c: nat)
    requires l.Valid() && p < l.TotalPieces()
    ensures c < l.ChunksOf(p) && c * CHUNK_SIZE <= o < c * CHUNK_SIZE + l.ChunkSize(p, c) <==>
      o < l.PieceLength(p) && c == o / CHUNK_SIZE
  {
    PiecesTile(l, p);
    CeilDivSpec(l.PieceLength(p), CHUNK_SIZE, c);
    if c < l.ChunksOf(p) {
      ChunksTilePiece(l, p, c, 0, 0);
    }
  }

  /** The blocks that are accepted: they start on a chunk boundary inside the piece and reach to the
      next one, or to the end of the piece. */
  lemma AcceptedBlocks(l: Lengths, p: nat, begin: nat, size: nat)
    requires l.Valid() && p < l.TotalPieces()
    ensures l.ChunkOfReceived(p, begin, size).Some? <==>
      begin % CHUNK_SIZE == 0 && begin < l.PieceLength(p) && size == Min(CHUNK_SIZE, l.PieceLength(p) - begin)
    ensures l.ChunkOfReceived(p, begin, size).Some? ==>
      l.ChunkOfReceived(p, begin, size).value * CHUNK_SIZE == begin
  {
    PiecesTile(l, p);
    ChunksCoverPiece(l, p, begin, begin / CHUNK_SIZE);
  }

  /** The chunk bits of successive pieces are adjacent, so their number is that of all chunks. */
  lemma ChunkBitsAdjacent(l: Lengths, p: nat)
    requires l.Valid()
    ensures l.ChunkStart(0) == 0
    ensures p + 1 < l.TotalPieces() ==> l.ChunkEnd(p) == l.ChunkStart(p + 1)
    ensures p + 1 == l.TotalPieces() ==> l.ChunkEnd(p) == l.TotalChunks()
    ensures l.TotalPieces() == 0 ==> l.TotalChunks() == 0
  {
    if p + 1 < l.TotalPieces() {
      PiecesTile(l, p);
      MulStep(p, l.ChunksPerFullPiece());
    }
  }

  /** The bit fields are the least whole numbers of bytes that hold a bit for each. */
  lemma BitFieldsAreBytes(l: Lengths)
    requires l.Valid()
    ensures l.PieceBits() % 8 == 0 && l.TotalPieces() <= l.PieceBits() < l.TotalPieces() + 8
    ensures l.ChunkBits() % 8 == 0 && l.TotalChunks() <= l.ChunkBits() < l.TotalChunks() + 8
  {
    WholeBytes(l.TotalPieces());
    WholeBytes(l.TotalChunks());
  }

  lemma WholeBytes(n: nat)
    ensures 8 * CeilDiv(n, 8) % 8 == 0 && n <= 8 * CeilDiv(n, 8) < n + 8
  {
  }

  /** Byte `b` of the torrent lies in piece `p`. */
  predicate InPiece(l: Lengths, p: nat, b: nat) {
    p * l.pieceLength <= b < (p + 1) * l.pieceLength && b < l.totalLength
  }

  /** Every byte lies in exactly one piece, a real one. */
  lemma PieceOfByte(l: Lengths, b: nat, p: nat)
    requires l.Valid() && b < l.totalLength
    ensures InPiece(l, p, b) <==> p == b / l.pieceLength
    ensures InPiece(l, p, b) <==> l.PieceStart(p) <= b < l.PieceStart(p + 1)
    ensures b / l.pieceLength < l.TotalPieces()
  {
    DivSpec(b, l.pieceLength, p);
    DivSpec(b, l.pieceLength, p + 1);
    DivSpec(b, l.pieceLength, b / l.pieceLength);
    CeilDivSpec(l.totalLength, l.pieceLength, b / l.pieceLength);
  }

  /** The bytes from `lo` up to `hi`. */
  function Interval(lo: nat, hi: nat): (r: set<nat>)
    ensures forall b: nat :: b in r <==> lo <= b < hi
    ensures |r| == SaturatingSub(hi, lo)
  {
    if lo >= hi then {} else Interval(lo, hi - 1) + {hi - 1}
  }

  /** The size of a piece in a file is the number of bytes that lie in both. */
  lemma SizeIsOverlap(l: Lengths, p: nat, offset: nat, len: nat, both: set<nat>)
    requires l.Valid() && offset + len <= l.totalLength
    requires forall b: nat :: b in both <==> InPiece(l, p, b) && offset <= b < offset + len
    ensures l.SizeOfPieceInFile(p, offset, len) == |both|
  {
    PieceStartMono(l, p, p + 1);
    var lo, hi := Max(l.PieceStart(p), offset), Min(l.PieceStart(p + 1), offset + len);
    forall b: nat
      ensures b in both <==> b in Interval(lo, hi)
    {
      if b < l.totalLength {
        PieceOfByte(l, b, p);
      }
    }
    assert both == Interval(lo, hi);
  }

  /** A piece is listed in a file's piece range exactly when the two share a byte. */
  lemma PieceInFileRange(l: Lengths, p: nat, offset: nat, len: nat)
    requires l.Valid() && offset + len <= l.totalLength
    ensures l.FirstPieceOf(offset) <= l.EndPieceOf(offset, len) <= l.TotalPieces()
    ensures l.FirstPieceOf(offset) <= p < l.EndPieceOf(offset, len) <==> l.SizeOfPieceInFile(p, offset, len) > 0
  {
    var first, end := l.FirstPieceOf(offset), l.EndPieceOf(offset, len);
    var n := l.TotalPieces();
    CeilDivSpec(l.totalLength, l.pieceLength, n);
    DivSpec(offset, l.pieceLength, first);
    MulStep(p, l.pieceLength);
    if len == 0 {
      if first > n {
        MulMono(n + 1, first, l.pieceLength);
        MulStep(n, l.pieceLength);
      }
    } else {
      CeilDivSpec(offset + len, l.pieceLength, n);
      CeilDivSpec(offset + len, l.pieceLength, first);
      CeilDivSpec(offset + len, l.pieceLength, p);
      DivSpec(offset, l.pieceLength, p);
      DivSpec(offset, l.pieceLength, p + 1);
    }
  }
}
