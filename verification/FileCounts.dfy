/** The per-file byte counters over whole runs, against recounting from the bit field. */
module FileCounts {
  import opened Prelude
  import opened Lengths
  import opened Files
  import opened ChunkState
  import opened TrackerState

  // ---- Announcing each completion once ----------------------------------------------

  /** Every announcement is of a completion that was still to be announced. Nothing is asked of
      the other steps. */
  ghost predicate AnnouncedOnce(l: Lengths, files: seq<FileInfo>, s: State, steps: seq<Step>)
    requires l.Valid()
  {
    forall k :: 0 <= k < |steps| && steps[k].Notify? ==> steps[k].piece in Run(l, files, s, steps[..k]).unnotified
  }

  lemma AnnouncedOncePrefix(l: Lengths, files: seq<FileInfo>, s: State, steps: seq<Step>)
    requires l.Valid() && steps != [] && AnnouncedOnce(l, files, s, steps)
    ensures AnnouncedOnce(l, files, s, steps[..|steps| - 1])
  {
    var before := steps[..|steps| - 1];
    assert forall k :: 0 <= k < |before| ==> before[..k] == steps[..k];
  }

  /** The pieces a run announces. */
  function Announced(steps: seq<Step>): set<nat> {
    if steps == [] then {}
    else Announced(steps[..|steps| - 1]) + match steps[|steps| - 1] case Notify(p) => {p} case _ => {}
  }

  /** The pieces counted towards file `i`: those had from the start, and those announced whose
      scan over the file list reaches the file. */
  function Counted(files: seq<FileInfo>, base: set<nat>, announced: set<nat>, i: nat): set<nat> {
    base + set p | p in announced && Scanned(files, p, i)
  }

  ghost predicate CountExact(l: Lengths, files: seq<FileInfo>, perFile: seq<nat>, counted: set<nat>, i: nat)
    requires i < |files| == |perFile|
  {
    files[i].firstPiece <= files[i].endPiece && perFile[i] == FileBytes(l, files[i], counted)
  }

  /** The counters tell exactly the pieces had from the start (`base`) and those announced since;
      no piece is both, and none of them is still to be announced. */
  ghost predicate CountsFollow(l: Lengths, files: seq<FileInfo>, base: set<nat>, announced: set<nat>, s: State)
    requires Tiles(l, files)
  {
    && |s.chunks.perFile| == |files|
    && base + announced + s.unnotified <= s.chunks.have
    && base !! announced !! s.unnotified
    && forall i :: 0 <= i < |files| ==> CountExact(l, files, s.chunks.perFile, Counted(files, base, announced, i), i)
  }

  lemma ScannedContains(files: seq<FileInfo>, p: nat, i: nat)
    requires i < |files| && Scanned(files, p, i)
    ensures ContainsPiece(files[i], p)
  {
  }

  /** Counting a new piece adds its share of each file the scan reaches. */
  lemma CountOneMore(l: Lengths, files: seq<FileInfo>, base: set<nat>, announced: set<nat>, perFile: seq<nat>, p: nat,
      i: nat)
    requires i < |files| == |perFile| && p !in base + announced
    requires CountExact(l, files, perFile, Counted(files, base, announced, i), i)
    ensures CountExact(l, files, CountPiece(l, files, perFile, p), Counted(files, base, announced + {p}, i), i)
  {
    var f := files[i];
    var before, after := Counted(files, base, announced, i), Counted(files, base, announced + {p}, i);
    if Scanned(files, p, i) {
      ScannedContains(files, p, i);
      assert after == before + {p};
      WSumInsert(FileWeight(l, f), before, p, f.firstPiece, f.endPiece);
    } else {
      assert after == before;
    }
  }

  lemma StepKeepsCounts(l: Lengths, files: seq<FileInfo>, base: set<nat>, announced: set<nat>, s: State, step: Step)
    requires Tiles(l, files) && CountsFollow(l, files, base, announced, s)
    requires step.Notify? ==> step.piece in s.unnotified
    ensures var now := match step case Notify(p) => {p} case _ => {};
      CountsFollow(l, files, base, announced + now, Apply(l, files, s, step))
  {
    match step
    case Notify(p) =>
      var after := CountPiece(l, files, s.chunks.perFile, p);
      forall i | 0 <= i < |files|
        ensures CountExact(l, files, after, Counted(files, base, announced + {p}, i), i)
      {
        assert CountExact(l, files, s.chunks.perFile, Counted(files, base, announced, i), i);
        CountOneMore(l, files, base, announced, s.chunks.perFile, p, i);
      }
    case _ =>
      assert announced + {} == announced;
      assert Apply(l, files, s, step).chunks.perFile == s.chunks.perFile;
  }

  lemma {:induction false} RunKeepsCounts(l: Lengths, files: seq<FileInfo>, s: State, steps: seq<Step>)
    requires Tiles(l, files) && Fresh(l, files, s) && AnnouncedOnce(l, files, s, steps)
    ensures CountsFollow(l, files, s.chunks.have, Announced(steps), Run(l, files, s, steps))
    decreases |steps|
  {
    if steps == [] {
      forall i | 0 <= i < |files|
        ensures CountExact(l, files, s.chunks.perFile, Counted(files, s.chunks.have, {}, i), i)
      {
        assert Counted(files, s.chunks.have, {}, i) == s.chunks.have;
      }
    } else {
      var last := |steps| - 1;
      AnnouncedOncePrefix(l, files, s, steps);
      RunKeepsCounts(l, files, s, steps[..last]);
      StepKeepsCounts(l, files, s.chunks.have, Announced(steps[..last]), Run(l, files, s, steps[..last]), steps[last]);
    }
  }

  lemma FollowingIsWithin(l: Lengths, files: seq<FileInfo>, base: set<nat>, announced: set<nat>, s: State)
    requires Tiles(l, files) && CountsFollow(l, files, base, announced, s)
    ensures CountsWithin(l, files, s.chunks.perFile, s.chunks.have - s.unnotified)
    ensures CountsWithin(l, files, s.chunks.perFile, s.chunks.have)
  {
    var have, done := s.chunks.have, s.chunks.have - s.unnotified;
    forall i | 0 <= i < |files|
      ensures files[i].firstPiece <= files[i].endPiece
      ensures s.chunks.perFile[i] <= FileBytes(l, files[i], done) <= FileBytes(l, files[i], have)
    {
      var f := files[i];
      assert CountExact(l, files, s.chunks.perFile, Counted(files, base, announced, i), i);
      WSumMono(FileWeight(l, f), Counted(files, base, announced, i), done, f.firstPiece, f.endPiece);
      WSumMono(FileWeight(l, f), done, have, f.firstPiece, f.endPiece);
    }
  }

  /** In every run that announces each completion once, the counters never overstate: not even
      what is had and already announced. */
  lemma CountsNeverOverstate(l: Lengths, files: seq<FileInfo>, s: State, steps: seq<Step>)
    requires Tiles(l, files) && Fresh(l, files, s) && AnnouncedOnce(l, files, s, steps)
    ensures var t := Run(l, files, s, steps);
      && |t.chunks.perFile| == |files|
      && CountsWithin(l, files, t.chunks.perFile, t.chunks.have)
      && CountsWithin(l, files, t.chunks.perFile, t.chunks.have - t.unnotified)
  {
    RunKeepsCounts(l, files, s, steps);
    FollowingIsWithin(l, files, s.chunks.have, Announced(steps), Run(l, files, s, steps));
  }

  /** So the "this file is complete" shortcut hides no work: in every such run a missing piece is
      offered exactly when it is queued. */
  lemma ShortcutHidesNothing(l: Lengths, files: seq<FileInfo>, s: State, steps: seq<Step>, priorities: seq<nat>, p: nat)
    requires Tiles(l, files) && Fresh(l, files, s) && AnnouncedOnce(l, files, s, steps)
    requires forall i :: 0 <= i < |files| ==> i in priorities
    requires p < l.TotalPieces() && p !in Run(l, files, s, steps).chunks.have
    ensures var c := Run(l, files, s, steps).chunks;
      && |c.perFile| == |files|
      && (forall i :: 0 <= i < |files| ==> files[i].firstPiece <= files[i].endPiece)
      && (p in QueuedOrder(l.TotalPieces(), c.queue, c.perFile, priorities, files) <==> p in c.queue)
  {
    CountsNeverOverstate(l, files, s, steps);
    var c := Run(l, files, s, steps).chunks;
    if p in c.queue {
      EveryQueuedPieceOffered(l, files, c, priorities, p);
    }
    if p in QueuedOrder(l.TotalPieces(), c.queue, c.perFile, priorities, files) {
      OfferedIsQueued(l.TotalPieces(), c.queue, c.perFile, priorities, files, p);
    }
  }

  // ---- Announcing twice -------------------------------------------------------------

  /** Every counter equals what the pieces had and announced hold. */
  ghost predicate CountsUpToDate(l: Lengths, files: seq<FileInfo>, s: State) {
    && |s.chunks.perFile| == |files| && s.unnotified <= s.chunks.have
    && forall i :: 0 <= i < |files| ==> CountExact(l, files, s.chunks.perFile, s.chunks.have - s.unnotified, i)
  }

  /** The condition is exact: from counters that are up to date, one more announcement keeps them
      from overstating if and only if it is of a completion that was still to be announced. */
  lemma AnnouncementExactly(l: Lengths, files: seq<FileInfo>, s: State, p: nat)
    requires Tiles(l, files) && CountsUpToDate(l, files, s) && p < l.TotalPieces()
    ensures var t := Apply(l, files, s, Notify(p));
      && |t.chunks.perFile| == |files|
      && (CountsWithin(l, files, t.chunks.perFile, t.chunks.have - t.unnotified) <==> p in s.unnotified)
      && (s.unnotified <= {p} ==> (CountsWithin(l, files, t.chunks.perFile, t.chunks.have) <==> p in s.unnotified))
  {
    var t := Apply(l, files, s, Notify(p));
    var done := s.chunks.have - s.unnotified;
    if p in s.unnotified {
      assert t.chunks.have - t.unnotified == done + {p};
      forall i | 0 <= i < |files|
        ensures files[i].firstPiece <= files[i].endPiece && t.chunks.perFile[i] <= FileBytes(l, files[i], done + {p})
      {
        AnnouncementCounts(l, files, s, p, i);
      }
    } else {
      assert t.chunks.have - t.unnotified == done;
      var i := FirstScanned(l, files, p);
      AnnouncementCounts(l, files, s, p, i);
      assert t.chunks.perFile[i] > FileBytes(l, files[i], done);
    }
    if s.unnotified <= {p} {
      assert t.chunks.have - t.unnotified == t.chunks.have;
    }
  }

  lemma AnnouncementCounts(l: Lengths, files: seq<FileInfo>, s: State, p: nat, i: nat)
    requires Tiles(l, files) && CountsUpToDate(l, files, s) && i < |files|
    ensures var t, f, done := Apply(l, files, s, Notify(p)), files[i], s.chunks.have - s.unnotified;
      && f.firstPiece <= f.endPiece && |t.chunks.perFile| == |files|
      && t.chunks.perFile[i] == FileBytes(l, f, done) +
           (if Scanned(files, p, i) then l.SizeOfPieceInFile(p, f.offset, f.len) else 0)
      && (p in s.unnotified ==> t.chunks.perFile[i] <= FileBytes(l, f, done + {p}))
  {
    assert CountExact(l, files, s.chunks.perFile, s.chunks.have - s.unnotified, i);
    var f, done := files[i], s.chunks.have - s.unnotified;
    if p in s.unnotified {
      if Scanned(files, p, i) {
        ScannedContains(files, p, i);
      }
      WSumInsert(FileWeight(l, f), done, p, f.firstPiece, f.endPiece);
    }
  }

  /** The scan for a piece starts with a file that shares bytes with it. */
  lemma FirstScanned(l: Lengths, files: seq<FileInfo>, p: nat) returns (i: nat)
    requires Tiles(l, files) && p < l.TotalPieces()
    ensures i < |files| && Scanned(files, p, i) && l.SizeOfPieceInFile(p, files[i].offset, files[i].len) > 0
  {
    var found := PieceHasFile(l, files, p);
    i := SkipTo(files, p, 0);
    assert InPlace(l, files, i);
    PieceInFileRange(l, p, files[i].offset, files[i].len);
  }

  /** One file of two pieces, both selected, nothing had yet. */
  const TWO_PIECES: Lengths := Lengths(32768, 16384)
  const ONE_FILE: seq<FileInfo> := [FileInfo(0, 32768, 0, 2, false)]

  function AtStart(bits: seq<bool>): State {
    State(ChunkState({0, 1}, bits, {}, {0, 1}, [0]), map[], {}, {})
  }

  lemma OneFileTiles(bits: seq<bool>)
    ensures TWO_PIECES.TotalPieces() == 2 && Tiles(TWO_PIECES, ONE_FILE) && Fresh(TWO_PIECES, ONE_FILE, AtStart(bits))
    ensures forall i :: Scanned(ONE_FILE, 0, i) <==> i == 0
    ensures SelectedBy(TWO_PIECES, ONE_FILE, {}) == {} && SelectedBy(TWO_PIECES, ONE_FILE, {0}) == {0, 1}
  {
    assert FileStart(ONE_FILE, 0) == 0;
    assert InPlace(TWO_PIECES, ONE_FILE, 0);
    WSumEmpty(FileWeight(TWO_PIECES, ONE_FILE[0]), 0, 2);
    assert SkipTo(ONE_FILE, 0, 0) == 0 && TakeTo(ONE_FILE, 0, 0) == 1;
    forall p: nat
      ensures !WantedBefore(ONE_FILE, {}, 1, p) && (WantedBefore(ONE_FILE, {0}, 1, p) <==> p < 2)
    {
      assert !WantedBefore(ONE_FILE, {}, 0, p) && !WantedBefore(ONE_FILE, {0}, 0, p);
    }
  }

  /** Piece 0 is deselected and reselected while it is being checked, then announced. */
  lemma FirstAnnouncement(bits: seq<bool>) returns (t: State)
    ensures t == Run(TWO_PIECES, ONE_FILE, AtStart(bits),
      [Reserve(0, 0, 0), Take(0)] + [SelectFiles({}), SelectFiles({0}), HashOk(0), Notify(0)])
    ensures t == State(ChunkState({0, 1}, t.chunks.chunkStatus, {0}, {0, 1}, [16384]), map[], {}, {})
  {
    var l, files, s := TWO_PIECES, ONE_FILE, AtStart(bits);
    OneFileTiles(bits);
    var taken := Apply(l, files, Apply(l, files, s, Reserve(0, 0, 0)), Take(0));
    assert taken == State(ChunkState({1}, bits, {}, {0, 1}, [0]), map[], {0}, {});
    RunTwo(l, files, s, Reserve(0, 0, 0), Take(0));
    RunInParts(l, files, s, [Reserve(0, 0, 0), Take(0)], [SelectFiles({}), SelectFiles({0}), HashOk(0), Notify(0)]);
    RunFour(l, files, taken, SelectFiles({}), SelectFiles({0}), HashOk(0), Notify(0));
    var none := Apply(l, files, taken, SelectFiles({}));
    assert none.chunks.queue == {};
    t := Apply(l, files, Apply(l, files, Apply(l, files, none, SelectFiles({0})), HashOk(0)), Notify(0));
    assert t.chunks.queue == {0, 1};
    assert t.chunks.perFile == [16384];
  }

  /** The queue still holds piece 0, so it is downloaded, checked and announced again. */
  lemma SecondAnnouncement(bits: seq<bool>, t: State) returns (u: State)
    requires t == State(ChunkState({0, 1}, t.chunks.chunkStatus, {0}, {0, 1}, [16384]), map[], {}, {})
    ensures u == Run(TWO_PIECES, ONE_FILE, t, [Reserve(0, 0, 0), Take(0), HashOk(0), Notify(0)])
    ensures u == State(ChunkState({1}, t.chunks.chunkStatus, {0}, {0, 1}, [32768]), map[], {}, {})
  {
    var l, files := TWO_PIECES, ONE_FILE;
    OneFileTiles(bits);
    RunFour(l, files, t, Reserve(0, 0, 0), Take(0), HashOk(0), Notify(0));
    u := Run(l, files, t, [Reserve(0, 0, 0), Take(0), HashOk(0), Notify(0)]);
    assert u.chunks.queue == {1};
    assert u.chunks.perFile == [32768];
  }

  /** The program can announce a completion twice: reselecting a file while a piece of it is being
      checked requeues the piece, so it is downloaded and announced a second time. The file then
      counts as complete with a piece missing, and that piece, though queued and selected, is
      never offered. */
  lemma DoubleAnnouncementHidesPiece(bits: seq<bool>)
    ensures var l, files, s := TWO_PIECES, ONE_FILE, AtStart(bits);
      var steps := [Reserve(0, 0, 0), Take(0)] + [SelectFiles({}), SelectFiles({0}), HashOk(0), Notify(0)] +
                   [Reserve(0, 0, 0), Take(0), HashOk(0), Notify(0)];
      && Tiles(l, files) && Fresh(l, files, s)
      && var t := Run(l, files, s, steps);
      && 1 < l.TotalPieces() && Needed(t, 1) && 1 in t.chunks.queue
      && t.chunks.perFile == [files[0].len]
      && QueuedOrder(l.TotalPieces(), t.chunks.queue, t.chunks.perFile, [0], files) == []
  {
    var l, files, s := TWO_PIECES, ONE_FILE, AtStart(bits);
    OneFileTiles(bits);
    var again := [Reserve(0, 0, 0), Take(0), HashOk(0), Notify(0)];
    var once := [Reserve(0, 0, 0), Take(0)] + [SelectFiles({}), SelectFiles({0}), HashOk(0), Notify(0)];
    var mid := FirstAnnouncement(bits);
    var end := SecondAnnouncement(bits, mid);
    RunInParts(l, files, s, once, again);
    assert [0][1..] == [];
    assert QueuedOrder(2, end.chunks.queue, end.chunks.perFile, [0][1..], files) == [];
  }

  // ---- When the scan reaches every file of a piece ----------------------------------

  predicate EmptyBetween(files: seq<FileInfo>, p: nat, a: nat, e: nat, b: nat)
    requires a < e < b < |files|
  {
    ContainsPiece(files[a], p) && files[e].len == 0 && ContainsPiece(files[b], p)
  }

  /** An empty file stands between two files that list `p`. */
  predicate Interrupted(files: seq<FileInfo>, p: nat) {
    exists a, e, b :: 0 <= a < e < b < |files| && EmptyBetween(files, p, a, e, b)
  }

  /** Of the files between two that list `p`, exactly the non-empty ones list it too. */
  lemma BetweenContains(l: Lengths, files: seq<FileInfo>, p: nat, a: nat, e: nat, b: nat)
    requires Tiles(l, files) && a < e < b < |files|
    requires ContainsPiece(files[a], p) && ContainsPiece(files[b], p)
    ensures ContainsPiece(files[e], p) <==> files[e].len > 0
  {
    assert InPlace(l, files, a) && InPlace(l, files, e) && InPlace(l, files, b);
    PieceInFileRange(l, p, files[a].offset, files[a].len);
    PieceInFileRange(l, p, files[e].offset, files[e].len);
    PieceInFileRange(l, p, files[b].offset, files[b].len);
    FileStartMono(files, a + 1, e);
    FileStartMono(files, e + 1, b);
  }

  /** The scan reaches every file that lists the piece exactly when no empty file stands
      between two of them. */
  lemma ScanReachesAll(l: Lengths, files: seq<FileInfo>, p: nat)
    requires Tiles(l, files)
    ensures (forall i :: 0 <= i < |files| ==> (Scanned(files, p, i) <==> ContainsPiece(files[i], p)))
       <==> !Interrupted(files, p)
  {
    var k := SkipTo(files, p, 0);
    var m := TakeTo(files, p, k);
    if Interrupted(files, p) {
      var a, e, b :| 0 <= a < e < b < |files| && EmptyBetween(files, p, a, e, b);
      BetweenContains(l, files, p, a, e, b);
      assert m <= e;
      assert !Scanned(files, p, b);
    } else {
      forall i | 0 <= i < |files|
        ensures Scanned(files, p, i) <==> ContainsPiece(files[i], p)
      {
        if ContainsPiece(files[i], p) && m <= i {
          assert k < m < i;
          BetweenContains(l, files, p, k, m, i);
          assert EmptyBetween(files, p, k, m, i);
          assert false;
        }
      }
    }
  }

  // ---- When the counters are exact ------------------------------------------------------

  /** After a run that announces each completion once, the counter of file `i` is exact if and
      only if every piece of the file that the run completed was announced and is reached by
      the scan. */
  lemma CountedExactlyWhenReached(l: Lengths, files: seq<FileInfo>, s: State, steps: seq<Step>, i: nat)
    requires Tiles(l, files) && Fresh(l, files, s) && AnnouncedOnce(l, files, s, steps)
    requires i < |files|
    ensures var c := Run(l, files, s, steps).chunks;
      && |c.perFile| == |files| && files[i].firstPiece <= files[i].endPiece
      && (c.perFile[i] == FileBytes(l, files[i], c.have) <==>
          forall p :: p in c.have - s.chunks.have && ContainsPiece(files[i], p) ==>
            p in Announced(steps) && Scanned(files, p, i))
  {
    RunKeepsCounts(l, files, s, steps);
    var c, f := Run(l, files, s, steps).chunks, files[i];
    var counted := Counted(files, s.chunks.have, Announced(steps), i);
    assert CountExact(l, files, c.perFile, counted, i) && InPlace(l, files, i);
    if p :| p in c.have - s.chunks.have && ContainsPiece(f, p) && !(p in Announced(steps) && Scanned(files, p, i)) {
      PieceInFileRange(l, p, f.offset, f.len);
      WSumStrict(FileWeight(l, f), counted, c.have, p, f.firstPiece, f.endPiece);
    } else {
      forall p | f.firstPiece <= p < f.endPiece
        ensures p in counted <==> p in c.have
      {
        assert ContainsPiece(f, p);
      }
      WSumSame(FileWeight(l, f), counted, c.have, f.firstPiece, f.endPiece);
    }
  }

  /** After such a run all counters agree with recounting if and only if every piece the run
      completed was announced and is not interrupted by an empty file. */
  lemma CountersExactIff(l: Lengths, files: seq<FileInfo>, s: State, steps: seq<Step>)
    requires Tiles(l, files) && Fresh(l, files, s) && AnnouncedOnce(l, files, s, steps)
    ensures var c := Run(l, files, s, steps).chunks;
      && |c.perFile| == |files|
      && (forall i :: 0 <= i < |files| ==> files[i].firstPiece <= files[i].endPiece)
      && ((forall i :: 0 <= i < |files| ==> c.perFile[i] == FileBytes(l, files[i], c.have)) <==>
          (forall p :: p in c.have - s.chunks.have && p < l.TotalPieces() ==>
             p in Announced(steps) && !Interrupted(files, p)))
  {
    var c := Run(l, files, s, steps).chunks;
    RunKeepsCounts(l, files, s, steps);
    forall i | 0 <= i < |files|
      ensures files[i].firstPiece <= files[i].endPiece
      ensures c.perFile[i] == FileBytes(l, files[i], c.have) <==>
        forall p :: p in c.have - s.chunks.have ==> CountsFor(files, Announced(steps), p, i)
    {
      CountedExactlyWhenReached(l, files, s, steps, i);
    }
    forall p: nat
      ensures (forall i :: 0 <= i < |files| ==> CountsFor(files, Announced(steps), p, i)) <==>
        (p < l.TotalPieces() ==> p in Announced(steps) && !Interrupted(files, p))
    {
      CountedEverywhere(l, files, Announced(steps), p);
    }
  }

  /** If file `i` lists `p`, then `p` is announced and the scan reaches the file. */
  predicate CountsFor(files: seq<FileInfo>, announced: set<nat>, p: nat, i: nat)
    requires i < |files|
  {
    ContainsPiece(files[i], p) ==> p in announced && Scanned(files, p, i)
  }

  lemma CountedEverywhere(l: Lengths, files: seq<FileInfo>, announced: set<nat>, p: nat)
    requires Tiles(l, files)
    ensures (forall i :: 0 <= i < |files| ==> CountsFor(files, announced, p, i)) <==>
      (p < l.TotalPieces() ==> p in announced && !Interrupted(files, p))
  {
    if p < l.TotalPieces() {
      var i := PieceHasFile(l, files, p);
      ScanReachesAll(l, files, p);
      assert CountsFor(files, announced, p, i) ==> p in announced;
      if !Interrupted(files, p) && p in announced {
        forall i | 0 <= i < |files|
          ensures CountsFor(files, announced, p, i)
        {
        }
      }
      if forall i :: 0 <= i < |files| ==> CountsFor(files, announced, p, i) {
        forall i | 0 <= i < |files|
          ensures Scanned(files, p, i) <==> ContainsPiece(files[i], p)
        {
          assert CountsFor(files, announced, p, i);
        }
      }
    } else {
      forall i | 0 <= i < |files|
        ensures CountsFor(files, announced, p, i)
      {
        assert InPlace(l, files, i);
        PieceInFileRange(l, p, files[i].offset, files[i].len);
      }
    }
  }

  /** One piece, three files, the middle one empty. */
  const ONE_PIECE: Lengths := Lengths(2, 4)
  const THREE_FILES: seq<FileInfo> :=
    [FileInfo(0, 1, 0, 1, false), FileInfo(1, 0, 0, 0, false), FileInfo(1, 1, 0, 1, false)]

  lemma ThreeFilesTile()
    ensures Tiles(ONE_PIECE, THREE_FILES) && Interrupted(THREE_FILES, 0)
    ensures forall i :: Scanned(THREE_FILES, 0, i) <==> i == 0
  {
    var files := THREE_FILES;
    assert FileStart(files, 0) == 0 && FileStart(files, 1) == 1 && FileStart(files, 2) == 1 && FileStart(files, 3) == 2;
    assert InPlace(ONE_PIECE, files, 0) && InPlace(ONE_PIECE, files, 1) && InPlace(ONE_PIECE, files, 2);
    assert EmptyBetween(files, 0, 0, 1, 2);
    assert SkipTo(files, 0, 0) == 0 && TakeTo(files, 0, 1) == 1;
  }

  lemma ThreeFilesBytes(i: nat)
    requires i < 3
    ensures THREE_FILES[i].firstPiece <= THREE_FILES[i].endPiece
    ensures FileBytes(ONE_PIECE, THREE_FILES[i], {}) == 0
    ensures FileBytes(ONE_PIECE, THREE_FILES[i], {0}) == if i == 1 then 0 else 1
  {
    var f := THREE_FILES[i];
    WSumEmpty(FileWeight(ONE_PIECE, f), f.firstPiece, f.endPiece);
    assert WSum(FileWeight(ONE_PIECE, f), {0}, 0, 0) == 0;
  }

  function OnePieceQueued(bits: seq<bool>): State {
    State(ChunkState({0}, bits, {}, {0}, [0, 0, 0]), map[], {}, {})
  }

  lemma DownloadTheOnePiece(bits: seq<bool>)
    ensures Run(ONE_PIECE, THREE_FILES, OnePieceQueued(bits), [Reserve(0, 0, 0), Take(0), HashOk(0), Notify(0)])
         == State(ChunkState({}, bits, {0}, {0}, [1, 0, 0]), map[], {}, {})
  {
    var l, files, s := ONE_PIECE, THREE_FILES, OnePieceQueued(bits);
    RunFour(l, files, s, Reserve(0, 0, 0), Take(0), HashOk(0), Notify(0));
    var taken := Apply(l, files, Apply(l, files, s, Reserve(0, 0, 0)), Take(0));
    assert taken == State(ChunkState({}, bits, {}, {0}, [0, 0, 0]), map[], {0}, {});
    ThreeFilesTile();
    assert CountPiece(l, files, [0, 0, 0], 0) == [1, 0, 0];
  }

  lemma OnePieceFresh(bits: seq<bool>)
    ensures Tiles(ONE_PIECE, THREE_FILES) && Fresh(ONE_PIECE, THREE_FILES, OnePieceQueued(bits))
  {
    ThreeFilesTile();
    forall i | 0 <= i < |THREE_FILES|
      ensures THREE_FILES[i].firstPiece <= THREE_FILES[i].endPiece
      ensures [0, 0, 0][i] == FileBytes(ONE_PIECE, THREE_FILES[i], {})
    {
      ThreeFilesBytes(i);
    }
  }

  /** The exception is real: after the only piece is downloaded, checked and announced, the last
      of the three files still counts as having nothing. */
  lemma InterruptedCountStaysBehind(bits: seq<bool>)
    ensures var l, files, s := ONE_PIECE, THREE_FILES, OnePieceQueued(bits);
      var t := Run(l, files, s, [Reserve(0, 0, 0), Take(0), HashOk(0), Notify(0)]);
      && Tiles(l, files) && Fresh(l, files, s)
      && t.chunks.have == {0} && t.unnotified == {} && t.chunks.perFile == [1, 0, 0]
      && files[2].firstPiece <= files[2].endPiece && FileBytes(l, files[2], t.chunks.have) == 1
  {
    OnePieceFresh(bits);
    ThreeFilesBytes(2);
    DownloadTheOnePiece(bits);
  }
}
