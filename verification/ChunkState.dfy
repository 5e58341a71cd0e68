/** What the bit fields of a chunk tracker mean, as values: which pieces are queued, had and
    selected, which chunks have been written, and how many bytes of each file are counted. */
module ChunkState {
  import opened Prelude
  import opened Lengths
  import opened Files

  datatype ChunkState = ChunkState(
    queue: set<nat>,
    chunkStatus: seq<bool>,
    have: set<nat>,
    selected: set<nat>,
    perFile: seq<nat>)

  datatype HaveNeededSelected = HaveNeededSelected(haveBytes: nat, neededBytes: nat, selectedBytes: nat) {
    predicate Finished() {
      neededBytes == 0
    }
  }

  datatype ChunkMarkingResult = PreviouslyCompleted | NotCompleted | Completed

  // ---- Statistics from scratch ------------------------------------------------------

  function PieceWeight(l: Lengths): nat -> nat {
    p => Max(0, l.PieceLength(p))
  }

  function PieceBytes(l: Lengths, s: set<nat>): nat
    requires l.Valid()
  {
    WSum(PieceWeight(l), s, 0, l.TotalPieces())
  }

  function HnsOf(l: Lengths, have: set<nat>, selected: set<nat>): HaveNeededSelected
    requires l.Valid()
  {
    HaveNeededSelected(PieceBytes(l, have), PieceBytes(l, selected - have), PieceBytes(l, selected))
  }

  /** Progress never goes negative, and a torrent is finished exactly when every selected
      piece is had. */
  lemma FinishedMeansAllHad(l: Lengths, have: set<nat>, selected: set<nat>)
    requires l.Valid()
    ensures var h := HnsOf(l, have, selected);
      && h.neededBytes <= h.selectedBytes
      && h.selectedBytes - h.neededBytes <= h.haveBytes
      && (h.Finished() <==> forall p :: p < l.TotalPieces() && p in selected ==> p in have)
  {
    var n, w := l.TotalPieces(), PieceWeight(l);
    WSumMono(w, selected - have, selected, 0, n);
    WSumSplit(w, selected, have, 0, n);
    WSumMono(w, selected * have, have, 0, n);
    if p :| p < n && p in selected && p !in have {
      PiecesTile(l, p);
      WSumStrict(w, {}, selected - have, p, 0, n);
    } else {
      WSumSame(w, selected - have, {}, 0, n);
      WSumEmpty(w, 0, n);
    }
  }

  /** All pieces together weigh as much as the torrent. */
  lemma AllPiecesWeigh(l: Lengths, s: set<nat>)
    requires l.Valid() && forall p :: 0 <= p < l.TotalPieces() ==> p in s
    ensures PieceBytes(l, s) == l.totalLength
  {
    PiecesTile(l, 0);
    WeightUpTo(l, s, l.TotalPieces());
  }

  lemma {:induction false} WeightUpTo(l: Lengths, s: set<nat>, n: nat)
    requires l.Valid() && forall p :: 0 <= p < n ==> p in s
    ensures WSum(PieceWeight(l), s, 0, n) == l.PieceStart(n)
  {
    if n > 0 {
      WeightUpTo(l, s, n - 1);
      PieceLengthNat(l, n - 1);
    }
  }

  /** What a set of pieces weighs is the number of bytes that lie in one of them. */
  lemma BytesAreCounted(l: Lengths, s: set<nat>, bytes: set<nat>)
    requires l.Valid()
    requires forall b: nat :: b in bytes <==> b < l.totalLength && b / l.pieceLength in s
    ensures PieceBytes(l, s) == |bytes|
  {
    PiecesTile(l, 0);
    var counted := BytesOfFirst(l, s, l.TotalPieces());
    forall b: nat | b < l.totalLength
      ensures b in counted <==> b / l.pieceLength in s
    {
      PieceOfByte(l, b, b / l.pieceLength);
    }
    assert bytes == counted;
  }

  /** The three statistics count bytes: those of pieces had, of pieces selected and not had, and of
      pieces selected. */
  lemma StatisticsCountBytes(l: Lengths, have: set<nat>, selected: set<nat>, h: set<nat>, n: set<nat>, s: set<nat>)
    requires l.Valid()
    requires forall b: nat :: b in h <==> b < l.totalLength && b / l.pieceLength in have
    requires forall b: nat :: b in s <==> b < l.totalLength && b / l.pieceLength in selected
    requires n == s - h
    ensures HnsOf(l, have, selected) == HaveNeededSelected(|h|, |n|, |s|)
  {
    BytesAreCounted(l, have, h);
    BytesAreCounted(l, selected - have, n);
    BytesAreCounted(l, selected, s);
  }

  /** The bytes of the first `n` pieces that lie in a piece of `s`. */
  lemma {:induction false} BytesOfFirst(l: Lengths, s: set<nat>, n: nat) returns (bytes: set<nat>)
    requires l.Valid()
    ensures forall b: nat :: b in bytes <==> b < l.PieceStart(n) && b / l.pieceLength in s
    ensures WSum(PieceWeight(l), s, 0, n) == |bytes|
  {
    bytes := {};
    if n > 0 {
      bytes := BytesOfFirst(l, s, n - 1);
      PieceLengthNat(l, n - 1);
      var more := Interval(l.PieceStart(n - 1), l.PieceStart(n));
      forall b: nat | l.PieceStart(n - 1) <= b < l.PieceStart(n)
        ensures b / l.pieceLength == n - 1
      {
        PieceOfByte(l, b, n - 1);
      }
      if n - 1 in s {
        bytes := bytes + more;
      }
    }
  }

  lemma {:induction false} WSumSplit(w: nat -> nat, s: set<nat>, t: set<nat>, lo: nat, hi: nat)
    requires lo <= hi
    ensures WSum(w, s, lo, hi) == WSum(w, s - t, lo, hi) + WSum(w, s * t, lo, hi)
    decreases hi - lo
  {
    if lo < hi {
      WSumSplit(w, s, t, lo, hi - 1);
    }
  }

  lemma {:induction false} WSumEmpty(w: nat -> nat, lo: nat, hi: nat)
    requires lo <= hi
    ensures WSum(w, {}, lo, hi) == 0
    decreases hi - lo
  {
    if lo < hi {
      WSumEmpty(w, lo, hi - 1);
    }
  }

  // ---- Chunk bits -------------------------------------------------------------------

  predicate AllSet(bits: seq<bool>, lo: nat, hi: nat)
    requires lo <= hi <= |bits|
  {
    forall i :: lo <= i < hi ==> bits[i]
  }

  /** Bit `i` belongs to a chunk of a piece in `s`. */
  ghost predicate InChunksOf(l: Lengths, s: set<nat>, i: nat) {
    exists p :: p in s && l.ChunkStart(p) <= i < l.ChunkEnd(p)
  }

  /** All chunk bits of the pieces in `s` cleared. */
  ghost function ClearChunks(l: Lengths, bits: seq<bool>, s: set<nat>): seq<bool> {
    seq(|bits|, i requires 0 <= i < |bits| => bits[i] && !InChunksOf(l, s, i))
  }

  lemma ClearNothing(l: Lengths, bits: seq<bool>)
    ensures ClearChunks(l, bits, {}) == bits
  {
  }

  lemma ClearOneMore(l: Lengths, bits: seq<bool>, s: set<nat>, p: nat)
    requires l.ChunkEnd(p) <= |bits|
    ensures Fill(ClearChunks(l, bits, s), l.ChunkStart(p), l.ChunkEnd(p), false) == ClearChunks(l, bits, s + {p})
  {
    var t := s + {p};
    forall i | 0 <= i < |bits|
      ensures InChunksOf(l, t, i) <==> InChunksOf(l, s, i) || l.ChunkStart(p) <= i < l.ChunkEnd(p)
    {
      if InChunksOf(l, s, i) {
        var q :| q in s && l.ChunkStart(q) <= i < l.ChunkEnd(q);
        assert q in t;
      }
      if l.ChunkStart(p) <= i < l.ChunkEnd(p) {
        assert p in t;
      }
    }
  }

  /** The chunk bits of `p` say whether `p` is had. */
  ghost predicate ChunksFollow(l: Lengths, c: ChunkState, p: nat) {
    && l.ChunkEnd(p) <= |c.chunkStatus|
    && forall i :: l.ChunkStart(p) <= i < l.ChunkEnd(p) ==> (c.chunkStatus[i] <==> p in c.have)
  }

  /** As a new tracker leaves them: exactly the chunks of the pieces had are marked. */
  ghost predicate ChunksFollowHave(l: Lengths, c: ChunkState)
    requires l.Valid()
  {
    |c.chunkStatus| == l.ChunkBits() && forall p :: 0 <= p < l.TotalPieces() ==> ChunksFollow(l, c, p)
  }

  // ---- State changes ----------------------------------------------------------------

  /** Every piece of `s` that is not had goes back to the queue with its chunks cleared. */
  ghost function Requeue(l: Lengths, c: ChunkState, s: set<nat>): ChunkState {
    c.(queue := c.queue + (s - c.have), chunkStatus := ClearChunks(l, c.chunkStatus, s - c.have))
  }

  /** One of the first `k` files is chosen and lists `p` (padding files never count). */
  ghost predicate WantedBefore(files: seq<FileInfo>, only: set<nat>, k: nat, p: nat)
    requires k <= |files|
  {
    k > 0 &&
    (WantedBefore(files, only, k - 1, p) ||
     (k - 1 in only && !files[k - 1].padding && ContainsPiece(files[k - 1], p)))
  }

  lemma {:induction false} WantedIsPiece(l: Lengths, files: seq<FileInfo>, only: set<nat>, k: nat, p: nat)
    requires Tiles(l, files) && k <= |files|
    ensures WantedBefore(files, only, k, p) ==> p < l.TotalPieces()
  {
    if k > 0 {
      WantedIsPiece(l, files, only, k - 1, p);
      assert InPlace(l, files, k - 1);
      PieceInFileRange(l, p, files[k - 1].offset, files[k - 1].len);
    }
  }

  /** The pieces of the chosen files. */
  ghost function SelectedBy(l: Lengths, files: seq<FileInfo>, only: set<nat>): set<nat>
    requires l.Valid()
  {
    set p: nat | p < l.TotalPieces() && WantedBefore(files, only, |files|, p)
  }

  /** File `f` and piece `p` share byte `b` of the torrent. */
  predicate SharedByte(l: Lengths, f: FileInfo, p: nat, b: nat) {
    f.offset <= b < f.offset + f.len && InPiece(l, p, b)
  }

  /** File `i` is chosen, is not padding, and shares a byte with `p`. */
  ghost predicate ChosenFor(l: Lengths, files: seq<FileInfo>, only: set<nat>, p: nat, i: nat) {
    i in only && i < |files| && !files[i].padding && exists b: nat :: SharedByte(l, files[i], p, b)
  }

  lemma SharesByteIff(l: Lengths, f: FileInfo, p: nat)
    requires Placed(l, f)
    ensures ContainsPiece(f, p) <==> exists b: nat :: SharedByte(l, f, p, b)
  {
    PieceInFileRange(l, p, f.offset, f.len);
    if ContainsPiece(f, p) {
      var b: nat := Max(l.PieceStart(p), f.offset);
      PieceOfByte(l, b, p);
      assert SharedByte(l, f, p, b);
    }
    if b: nat :| SharedByte(l, f, p, b) {
      PieceOfByte(l, b, p);
    }
  }

  lemma {:induction false} WantedExactly(l: Lengths, files: seq<FileInfo>, only: set<nat>, k: nat, p: nat)
    requires Tiles(l, files) && k <= |files|
    ensures WantedBefore(files, only, k, p) <==> exists i: nat :: i < k && ChosenFor(l, files, only, p, i)
  {
    if k > 0 {
      WantedExactly(l, files, only, k - 1, p);
      assert InPlace(l, files, k - 1);
      SharesByteIff(l, files[k - 1], p);
      assert WantedBefore(files, only, k, p) <==>
        WantedBefore(files, only, k - 1, p) || ChosenFor(l, files, only, p, k - 1);
      if WantedBefore(files, only, k - 1, p) {
        var i: nat :| i < k - 1 && ChosenFor(l, files, only, p, i);
        assert i < k && ChosenFor(l, files, only, p, i);
      }
    }
  }

  /** A piece is selected exactly when some chosen file that is not padding shares a byte with it. */
  lemma SelectedExactly(l: Lengths, files: seq<FileInfo>, only: set<nat>, p: nat)
    requires Tiles(l, files)
    ensures p in SelectedBy(l, files, only) <==> exists i: nat :: ChosenFor(l, files, only, p, i)
  {
    WantedIsPiece(l, files, only, |files|, p);
    WantedExactly(l, files, only, |files|, p);
  }

  /** Change the selection: newly selected missing pieces are requeued, and whatever is
      neither had nor selected any more leaves the queue. */
  ghost function Select(l: Lengths, c: ChunkState, selected: set<nat>): ChunkState {
    var r := Requeue(l, c, selected - c.selected);
    r.(selected := selected, queue := r.queue * (selected + c.have))
  }

  /** Mark chunk `i` of piece `p` as written. */
  ghost function Deliver(l: Lengths, c: ChunkState, p: nat, i: nat): (ChunkState, ChunkMarkingResult)
    requires i < l.ChunksOf(p) && l.ChunkEnd(p) <= |c.chunkStatus|
  {
    var lo, hi := l.ChunkStart(p), l.ChunkEnd(p);
    if AllSet(c.chunkStatus, lo, hi) then (c, PreviouslyCompleted)
    else
      var bits := c.chunkStatus[lo + i := true];
      (c.(chunkStatus := bits), if AllSet(bits, lo, hi) then Completed else NotCompleted)
  }

  // ---- The order in which queued pieces are offered ---------------------------------

  function Filter(s: seq<nat>, keep: set<nat>, n: nat): (r: seq<nat>)
    ensures forall p :: p in r <==> p in s && p in keep && p < n
  {
    if s == [] then []
    else (if s[0] in keep && s[0] < n then [s[0]] else []) + Filter(s[1..], keep, n)
  }

  /** Queued pieces file by file in priority order; files whose byte count says "complete" are
      passed over without looking at their pieces. */
  function QueuedOrder(n: nat, queue: set<nat>, perFile: seq<nat>, priorities: seq<nat>, files: seq<FileInfo>): seq<nat>
    requires |perFile| == |files|
    requires forall i :: 0 <= i < |files| ==> files[i].firstPiece <= files[i].endPiece
  {
    if priorities == [] then []
    else
      var id := priorities[0];
      (if id < |files| && perFile[id] != files[id].len
       then Filter(PiecePriorities(files[id].firstPiece, files[id].endPiece), queue, n)
       else [])
      + QueuedOrder(n, queue, perFile, priorities[1..], files)
  }

  /** The per-file byte counts never overstate what the pieces in `s` hold. */
  ghost predicate CountsWithin(l: Lengths, files: seq<FileInfo>, perFile: seq<nat>, s: set<nat>)
    requires Tiles(l, files) && |perFile| == |files|
  {
    forall i :: 0 <= i < |files| ==> files[i].firstPiece <= files[i].endPiece && perFile[i] <= FileBytes(l, files[i], s)
  }

  /** File `id` is listed, contains `p` and does not count as complete. */
  predicate OffersThrough(perFile: seq<nat>, priorities: seq<nat>, files: seq<FileInfo>, id: nat, p: nat)
    requires |perFile| == |files|
  {
    id in priorities && id < |files| && perFile[id] != files[id].len && ContainsPiece(files[id], p)
  }

  lemma {:induction false} OfferedIsQueued(n: nat, queue: set<nat>, perFile: seq<nat>,
      priorities: seq<nat>, files: seq<FileInfo>, p: nat)
    requires |perFile| == |files|
    requires forall i :: 0 <= i < |files| ==> files[i].firstPiece <= files[i].endPiece
    requires p in QueuedOrder(n, queue, perFile, priorities, files)
    ensures p in queue && p < n
    ensures exists id: nat :: OffersThrough(perFile, priorities, files, id, p)
  {
    if p in QueuedOrder(n, queue, perFile, priorities[1..], files) {
      OfferedIsQueued(n, queue, perFile, priorities[1..], files, p);
      var id: nat :| OffersThrough(perFile, priorities[1..], files, id, p);
      assert OffersThrough(perFile, priorities, files, id, p);
    } else {
      var id := priorities[0];
      PiecePrioritiesPermutation(files[id].firstPiece, files[id].endPiece);
      assert OffersThrough(perFile, priorities, files, id, p);
    }
  }

  /** A queued piece is hidden exactly when every listed file that contains it counts as
      complete. */
  lemma OfferedExactly(n: nat, queue: set<nat>, perFile: seq<nat>, priorities: seq<nat>, files: seq<FileInfo>, p: nat)
    requires |perFile| == |files|
    requires forall i :: 0 <= i < |files| ==> files[i].firstPiece <= files[i].endPiece
    ensures p in QueuedOrder(n, queue, perFile, priorities, files) <==>
      p in queue && p < n && exists id: nat :: OffersThrough(perFile, priorities, files, id, p)
  {
    if p in QueuedOrder(n, queue, perFile, priorities, files) {
      OfferedIsQueued(n, queue, perFile, priorities, files, p);
    } else if p in queue && p < n {
      if id: nat :| OffersThrough(perFile, priorities, files, id, p) {
        OfferedThroughFile(n, queue, perFile, priorities, files, id, p);
      }
    }
  }

  lemma {:induction false} OfferedThroughFile(n: nat, queue: set<nat>, perFile: seq<nat>,
      priorities: seq<nat>, files: seq<FileInfo>, id: nat, p: nat)
    requires |perFile| == |files|
    requires forall i :: 0 <= i < |files| ==> files[i].firstPiece <= files[i].endPiece
    requires p in queue && p < n && OffersThrough(perFile, priorities, files, id, p)
    ensures p in QueuedOrder(n, queue, perFile, priorities, files)
  {
    if priorities[0] == id {
      PiecePrioritiesPermutation(files[id].firstPiece, files[id].endPiece);
      assert p in PiecePriorities(files[id].firstPiece, files[id].endPiece);
    } else {
      OfferedThroughFile(n, queue, perFile, priorities[1..], files, id, p);
    }
  }

  /** Skipping "complete" files never hides a needed piece, as long as the byte counts do not
      overstate: every queued piece that is not had is offered. */
  lemma EveryQueuedPieceOffered(l: Lengths, files: seq<FileInfo>, c: ChunkState, priorities: seq<nat>, p: nat)
    requires Tiles(l, files) && |c.perFile| == |files|
    requires CountsWithin(l, files, c.perFile, c.have)
    requires forall i :: 0 <= i < |files| ==> i in priorities
    requires p < l.TotalPieces() && p in c.queue && p !in c.have
    ensures p in QueuedOrder(l.TotalPieces(), c.queue, c.perFile, priorities, files)
  {
    var id := PieceHasFile(l, files, p);
    assert InPlace(l, files, id);
    FileComplete(l, files[id], c.have);
    OfferedThroughFile(l.TotalPieces(), c.queue, c.perFile, priorities, files, id, p);
  }
}
