/** What a request for a piece may answer, and what each answer guarantees. */
module Acquire {
  import opened Prelude
  import opened Lengths
  import opened Files
  import opened ChunkState
  import opened TrackerState
  import opened FileCounts
  import opened Offers

  datatype AcquireRequest = AcquireRequest(
    peer: nat,
    peerAvgTime: Option<nat>,
    priorityPieces: seq<nat>,
    filePriorities: seq<nat>,
    peerHasPiece: nat -> bool,
    canSteal: nat -> bool)

  datatype AcquireResult =
    | Reserved(piece: nat)
    | Stolen(piece: nat, fromPeer: nat)
    | NoneAvailable

  /** How long the piece has been in flight. */
  function Elapsed(s: State, p: nat, now: nat): nat
    requires p in s.inflight
  {
    SaturatingSub(now, s.inflight[p].started)
  }

  /** Another peer has been downloading `p` for `threshold` times the asking peer's average,
      and the asking peer has `p`. */
  predicate Stealable(s: State, req: AcquireRequest, now: nat, threshold: nat, p: nat) {
    && p in s.inflight
    && s.inflight[p].peer != req.peer
    && req.peerHasPiece(p)
    && req.peerAvgTime.Some?
    && Elapsed(s, p, now) >= req.peerAvgTime.value * threshold
  }

  ghost predicate LongestStealable(s: State, req: AcquireRequest, now: nat, threshold: nat, p: nat) {
    && Stealable(s, req, now, threshold, p)
    && forall q :: Stealable(s, req, now, threshold, q) ==> Elapsed(s, q, now) <= Elapsed(s, p, now)
  }

  /** Stealing fails only when nothing is stealable or the longest-running piece is locked. */
  ghost predicate StealRefused(s: State, req: AcquireRequest, now: nat, threshold: nat) {
    || (forall p :: !Stealable(s, req, now, threshold, p))
    || (exists p :: LongestStealable(s, req, now, threshold, p) && !req.canSteal(p))
  }

  /** A priority piece the peer can fetch: not had and not in flight (queued or not). */
  predicate FreePriority(s: State, req: AcquireRequest, p: nat) {
    p !in s.chunks.have && p !in s.inflight && req.peerHasPiece(p)
  }

  ghost predicate Askable(files: seq<FileInfo>, s: State) {
    && |s.chunks.perFile| == |files|
    && forall i :: 0 <= i < |files| ==> files[i].firstPiece <= files[i].endPiece
  }

  ghost function Offered(l: Lengths, files: seq<FileInfo>, s: State, req: AcquireRequest): seq<nat>
    requires l.Valid() && Askable(files, s)
  {
    QueuedOrder(l.TotalPieces(), s.chunks.queue, s.chunks.perFile, req.filePriorities, files)
  }

  ghost predicate NoPriorityFree(s: State, req: AcquireRequest) {
    forall k :: 0 <= k < |req.priorityPieces| ==> !FreePriority(s, req, req.priorityPieces[k])
  }

  ghost predicate NothingToReserve(l: Lengths, files: seq<FileInfo>, s: State, req: AcquireRequest)
    requires l.Valid() && Askable(files, s)
  {
    && NoPriorityFree(s, req)
    && forall q :: q in Offered(l, files, s, req) ==> !req.peerHasPiece(q)
  }

  /** `p` is the first free priority piece, or, if there is none, the first offered piece the
      peer has. */
  ghost predicate FirstToReserve(l: Lengths, files: seq<FileInfo>, s: State, req: AcquireRequest, p: nat)
    requires l.Valid() && Askable(files, s)
  {
    || (exists k: nat :: FirstFreePriority(s, req, k) && req.priorityPieces[k] == p)
    || (NoPriorityFree(s, req) &&
        exists k: nat :: FirstOffered(Offered(l, files, s, req), req, k) && Offered(l, files, s, req)[k] == p)
  }

  lemma FirstByPriority(l: Lengths, files: seq<FileInfo>, s: State, req: AcquireRequest, k: nat)
    requires l.Valid() && Askable(files, s) && FirstFreePriority(s, req, k)
    ensures FirstToReserve(l, files, s, req, req.priorityPieces[k])
  {
  }

  lemma FirstByOffer(l: Lengths, files: seq<FileInfo>, s: State, req: AcquireRequest, k: nat)
    requires l.Valid() && Askable(files, s) && NoPriorityFree(s, req)
    requires FirstOffered(Offered(l, files, s, req), req, k)
    ensures FirstToReserve(l, files, s, req, Offered(l, files, s, req)[k])
  {
  }

  ghost predicate FirstFreePriority(s: State, req: AcquireRequest, k: nat) {
    && k < |req.priorityPieces|
    && FreePriority(s, req, req.priorityPieces[k])
    && forall j :: 0 <= j < k ==> !FreePriority(s, req, req.priorityPieces[j])
  }

  ghost predicate FirstOffered(offered: seq<nat>, req: AcquireRequest, k: nat) {
    && k < |offered|
    && req.peerHasPiece(offered[k])
    && forall j :: 0 <= j < k ==> !req.peerHasPiece(offered[j])
  }

  /** The peer has the queued piece `q`, and the open file at place `j` of the priorities lists it. */
  predicate FetchableAt(l: Lengths, files: seq<FileInfo>, s: State, req: AcquireRequest, q: nat, j: nat)
    requires l.Valid() && |s.chunks.perFile| == |files|
  {
    && q in s.chunks.queue && q < l.TotalPieces() && req.peerHasPiece(q)
    && OpenAt(s.chunks.perFile, req.filePriorities, files, j, q)
  }

  /** `p` is listed before place `j`, or by the file at place `j` and goes before `q` there. */
  predicate NotAfter(files: seq<FileInfo>, s: State, req: AcquireRequest, p: nat, q: nat, j: nat)
    requires |s.chunks.perFile| == |files|
  {
    exists i: nat :: i <= j && OpenAt(s.chunks.perFile, req.filePriorities, files, i, p) &&
      (i == j ==> GoesBefore(files[req.filePriorities[j]], p, q))
  }

  /** `p` is fetchable, and no fetchable piece comes before it in the order of the files and inside
      them. */
  ghost predicate Earliest(l: Lengths, files: seq<FileInfo>, s: State, req: AcquireRequest, p: nat)
    requires l.Valid() && |s.chunks.perFile| == |files|
  {
    && (exists i: nat :: FetchableAt(l, files, s, req, p, i))
    && forall q: nat, j: nat :: FetchableAt(l, files, s, req, q, j) && q != p ==> NotAfter(files, s, req, p, q, j)
  }

  /** The first offered piece that the peer has is the earliest of those it could fetch. */
  lemma FirstOfferedIsEarliest(l: Lengths, files: seq<FileInfo>, s: State, req: AcquireRequest, k: nat)
    requires l.Valid() && Askable(files, s) && FirstOffered(Offered(l, files, s, req), req, k)
    ensures Earliest(l, files, s, req, Offered(l, files, s, req)[k])
  {
    var n, order, c := l.TotalPieces(), Offered(l, files, s, req), s.chunks;
    var p := order[k];
    OfferedIsQueued(n, c.queue, c.perFile, req.filePriorities, files, p);
    var id: nat :| OffersThrough(c.perFile, req.filePriorities, files, id, p);
    var i: nat :| i < |req.filePriorities| && req.filePriorities[i] == id;
    assert FetchableAt(l, files, s, req, p, i);
    forall q: nat, j: nat | FetchableAt(l, files, s, req, q, j) && q != p
      ensures NotAfter(files, s, req, p, q, j)
    {
      if !NotAfter(files, s, req, p, q, j) {
        OfferOrder(n, c.queue, c.perFile, req.filePriorities, files, q, j, k);
        assert false;
      }
    }
  }

  /** None of the first `k` priority pieces can be reserved: each is had, in flight, or missing at the
      peer. The piece is the next one, or, if there is none, comes from the queue. */
  predicate ChosenAt(s: State, req: AcquireRequest, p: nat, k: nat) {
    && k <= |req.priorityPieces|
    && (if k < |req.priorityPieces| then req.priorityPieces[k] == p else p in s.chunks.queue)
    && forall j :: 0 <= j < k ==>
         req.priorityPieces[j] in s.chunks.have || req.priorityPieces[j] in s.inflight ||
         !req.peerHasPiece(req.priorityPieces[j])
  }

  /** Priority pieces come first, in their order. */
  lemma PriorityFirst(l: Lengths, files: seq<FileInfo>, s: State, req: AcquireRequest, now: nat, r: AcquireResult)
    requires l.Valid() && Askable(files, s) && AcquireAnswer(l, files, s, req, now, r) && r.Reserved?
    ensures exists k: nat :: ChosenAt(s, req, r.piece, k)
  {
    if k: nat :| FirstFreePriority(s, req, k) && req.priorityPieces[k] == r.piece {
      assert ChosenAt(s, req, r.piece, k);
    } else {
      OfferedIsQueued(l.TotalPieces(), s.chunks.queue, s.chunks.perFile, req.filePriorities, files, r.piece);
      assert ChosenAt(s, req, r.piece, |req.priorityPieces|);
    }
  }

  /** A piece that has been in flight at least as long as `p` is locked. */
  ghost predicate LockedOut(s: State, req: AcquireRequest, now: nat, p: nat)
    requires p in s.inflight
  {
    exists q :: q in s.inflight && !req.canSteal(q) &&
      SaturatingSub(now, s.inflight[q].started) >= SaturatingSub(now, s.inflight[p].started)
  }

  /** A piece that another peer has had for ten times the average is stolen, or three times if there is
      nothing to reserve, unless one in flight at least as long is locked; what is stolen has been in
      flight for longest. */
  lemma SlowPiecesAreStolen(l: Lengths, files: seq<FileInfo>, s: State, req: AcquireRequest, now: nat,
      r: AcquireResult, p: nat)
    requires l.Valid() && Askable(files, s) && AcquireAnswer(l, files, s, req, now, r)
    requires p in s.inflight && s.inflight[p].peer != req.peer && req.peerHasPiece(p) && req.peerAvgTime.Some?
    ensures SaturatingSub(now, s.inflight[p].started) >= 10 * req.peerAvgTime.value ==>
      r.Stolen? || LockedOut(s, req, now, p)
    ensures SaturatingSub(now, s.inflight[p].started) >= 3 * req.peerAvgTime.value ==>
      !r.NoneAvailable? || LockedOut(s, req, now, p)
    ensures r.Stolen? ==>
      r.piece in s.inflight &&
      SaturatingSub(now, s.inflight[r.piece].started) >= SaturatingSub(now, s.inflight[p].started)
  {
    assert Stealable(s, req, now, 10, p) <==>
      SaturatingSub(now, s.inflight[p].started) >= 10 * req.peerAvgTime.value;
    assert Stealable(s, req, now, 3, p) <==>
      SaturatingSub(now, s.inflight[p].started) >= 3 * req.peerAvgTime.value;
  }

  /** A piece is reserved, when no priority piece is free, only if no fetchable piece comes before it;
      nothing is, only if none is fetchable. */
  lemma ReservedIsEarliest(l: Lengths, files: seq<FileInfo>, s: State, req: AcquireRequest, now: nat, r: AcquireResult)
    requires l.Valid() && Askable(files, s) && AcquireAnswer(l, files, s, req, now, r)
    ensures r.Reserved? && NoPriorityFree(s, req) ==> Earliest(l, files, s, req, r.piece)
    ensures r.NoneAvailable? ==> forall q: nat, j: nat :: !FetchableAt(l, files, s, req, q, j)
  {
    if r.Reserved? && NoPriorityFree(s, req) {
      var k: nat :| FirstOffered(Offered(l, files, s, req), req, k) && Offered(l, files, s, req)[k] == r.piece;
      FirstOfferedIsEarliest(l, files, s, req, k);
    }
    if r.NoneAvailable? {
      forall q: nat, j: nat
        ensures !FetchableAt(l, files, s, req, q, j)
      {
        if FetchableAt(l, files, s, req, q, j) {
          assert OffersThrough(s.chunks.perFile, req.filePriorities, files, req.filePriorities[j], q);
          OfferedThroughFile(l.TotalPieces(), s.chunks.queue, s.chunks.perFile, req.filePriorities, files,
            req.filePriorities[j], q);
        }
      }
    }
  }

  /** Steal at ten times the average, else reserve, else steal at three times. */
  ghost predicate AcquireAnswer(l: Lengths, files: seq<FileInfo>, s: State, req: AcquireRequest, now: nat,
      r: AcquireResult)
    requires l.Valid() && Askable(files, s)
  {
    match r
    case Stolen(p, from) =>
      && p in s.inflight && from == s.inflight[p].peer && req.canSteal(p)
      && (LongestStealable(s, req, now, 10, p) ||
          (StealRefused(s, req, now, 10) && NothingToReserve(l, files, s, req) && LongestStealable(s, req, now, 3, p)))
    case Reserved(p) =>
      StealRefused(s, req, now, 10) && FirstToReserve(l, files, s, req, p)
    case NoneAvailable =>
      StealRefused(s, req, now, 10) && NothingToReserve(l, files, s, req) && StealRefused(s, req, now, 3)
  }

  /** The step an answer makes. */
  function StepOf(req: AcquireRequest, now: nat, r: AcquireResult): Option<Step> {
    match r
    case Reserved(p) => Some(Reserve(p, req.peer, now))
    case Stolen(p, _) => Some(Steal(p, req.peer, now))
    case NoneAvailable => None
  }

  /** "None available" is complete: in every run that announces each completion once, with
      priorities that list every file, the peer then has no missing piece that is queued, and no
      free priority piece. */
  lemma NoneAvailableIsComplete(l: Lengths, files: seq<FileInfo>, s: State, steps: seq<Step>, req: AcquireRequest,
      p: nat)
    requires Tiles(l, files) && Fresh(l, files, s) && AnnouncedOnce(l, files, s, steps)
    requires forall i :: 0 <= i < |files| ==> i in req.filePriorities
    requires Askable(files, Run(l, files, s, steps)) && NothingToReserve(l, files, Run(l, files, s, steps), req)
    requires p < l.TotalPieces() && req.peerHasPiece(p) && p !in Run(l, files, s, steps).chunks.have
    ensures var t := Run(l, files, s, steps);
      p !in t.chunks.queue && (p in req.priorityPieces ==> p in t.inflight)
  {
    ShortcutHidesNothing(l, files, s, steps, req.filePriorities, p);
  }

  /** What is acquired can be downloaded by the peer, is missing, and leaves the four states
      apart unless it is a priority piece whose verdict is still pending. */
  lemma AcquiredIsSound(l: Lengths, files: seq<FileInfo>, s: State, req: AcquireRequest, now: nat, r: AcquireResult)
    requires Tiles(l, files) && Askable(files, s) && Disjoint(s)
    requires AcquireAnswer(l, files, s, req, now, r) && !r.NoneAvailable?
    ensures req.peerHasPiece(r.piece) && r.piece !in s.chunks.have
    ensures var t := Apply(l, files, s, StepOf(req, now, r).value);
      && t.inflight == s.inflight[r.piece := InflightPiece(req.peer, now)]
      && t.chunks.queue == s.chunks.queue - {r.piece}
      && (r.Stolen? ==> r.piece in s.inflight && r.fromPeer != req.peer)
      && (r.Reserved? ==> r.piece !in s.inflight)
      && (Disjoint(t) <==> r.piece !in s.verifying)
  {
    var step := StepOf(req, now, r).value;
    ApartExactly(l, files, s, step);
    match r
    case Stolen(p, _) =>
      assert p in s.inflight.Keys;
    case Reserved(p) =>
      if !(exists k: nat :: FirstFreePriority(s, req, k) && req.priorityPieces[k] == p) {
        OfferedIsQueued(l.TotalPieces(), s.chunks.queue, s.chunks.perFile, req.filePriorities, files, p);
        assert p !in s.inflight.Keys;
      }
  }

  // ---- Whose a piece is, and since when -----------------------------------------------

  /** Step `k` of the run assigns `p` to the peer at that time. */
  ghost predicate AssignsAt(l: Lengths, files: seq<FileInfo>, s: State, steps: seq<Step>, p: nat, owner: InflightPiece,
      k: nat)
    requires l.Valid() && k < |steps|
  {
    || steps[k] == Reserve(p, owner.peer, owner.started)
    || (steps[k] == Steal(p, owner.peer, owner.started) && p in Run(l, files, s, steps[..k]).inflight)
  }

  /** The step ends the assignment of `p` to the peer: it goes to somebody else, or starts anew, or
      nobody has it. */
  predicate EndsAssignment(step: Step, p: nat, peer: nat) {
    match step
    case Reserve(q, _, _) => p == q
    case Steal(q, _, _) => p == q
    case Take(q) => p == q
    case Release(q) => peer == q
    case Pause => true
    case _ => false
  }

  ghost predicate AssignedSince(l: Lengths, files: seq<FileInfo>, s: State, steps: seq<Step>, p: nat,
      owner: InflightPiece, k: nat)
    requires l.Valid()
  {
    && k < |steps| && AssignsAt(l, files, s, steps, p, owner, k)
    && forall j :: k < j < |steps| ==> !EndsAssignment(steps[j], p, owner.peer)
  }

  /** The in-flight map tells, in every run, exactly who was last assigned each piece, and when. */
  lemma {:induction false} AssignmentExactly(l: Lengths, files: seq<FileInfo>, s: State, steps: seq<Step>, p: nat,
      owner: InflightPiece)
    requires l.Valid() && s.inflight == map[]
    ensures p in Run(l, files, s, steps).inflight && Run(l, files, s, steps).inflight[p] == owner <==>
      exists k: nat :: AssignedSince(l, files, s, steps, p, owner, k)
    decreases |steps|
  {
    if steps != [] {
      var last := |steps| - 1;
      var before, step := steps[..last], steps[last];
      AssignmentExactly(l, files, s, before, p, owner);
      forall k: nat | k < last
        ensures AssignedSince(l, files, s, steps, p, owner, k) <==>
          AssignedSince(l, files, s, before, p, owner, k) && !EndsAssignment(step, p, owner.peer)
      {
        assert before[..k] == steps[..k];
      }
      AssignmentStep(l, files, Run(l, files, s, before), step, p, owner);
      if k: nat :| AssignedSince(l, files, s, before, p, owner, k) && !EndsAssignment(step, p, owner.peer) {
        assert AssignedSince(l, files, s, steps, p, owner, k);
      }
      if AssignsAt(l, files, s, steps, p, owner, last) {
        assert AssignedSince(l, files, s, steps, p, owner, last);
      }
    }
  }

  lemma AssignmentStep(l: Lengths, files: seq<FileInfo>, s: State, step: Step, p: nat, owner: InflightPiece)
    requires l.Valid()
    ensures p in Apply(l, files, s, step).inflight && Apply(l, files, s, step).inflight[p] == owner <==>
      || (p in s.inflight && s.inflight[p] == owner && !EndsAssignment(step, p, owner.peer))
      || step == Reserve(p, owner.peer, owner.started)
      || (step == Steal(p, owner.peer, owner.started) && p in s.inflight)
  {
  }

  /** A piece is stolen only from the peer it was last assigned to, at least ten times the asking
      peer's average after that, or three times if there is nothing to reserve. */
  lemma StolenFromOwner(l: Lengths, files: seq<FileInfo>, s: State, steps: seq<Step>, req: AcquireRequest, now: nat,
      r: AcquireResult)
    requires l.Valid() && s.inflight == map[] && Askable(files, Run(l, files, s, steps)) && r.Stolen?
    requires AcquireAnswer(l, files, Run(l, files, s, steps), req, now, r)
    ensures var t := Run(l, files, s, steps);
      exists k: nat, since: nat ::
      && AssignedSince(l, files, s, steps, r.piece, InflightPiece(r.fromPeer, since), k)
      && req.peerAvgTime.Some? && SaturatingSub(now, since) >= 3 * req.peerAvgTime.value
      && (SaturatingSub(now, since) >= 10 * req.peerAvgTime.value || NothingToReserve(l, files, t, req))
      && r.fromPeer != req.peer && req.peerHasPiece(r.piece)
  {
    var t := Run(l, files, s, steps);
    var owner := t.inflight[r.piece];
    AssignmentExactly(l, files, s, steps, r.piece, owner);
    var k: nat :| AssignedSince(l, files, s, steps, r.piece, owner, k);
    assert owner == InflightPiece(r.fromPeer, owner.started);
  }
}
