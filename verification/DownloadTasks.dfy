/** Concurrent download tasks. A task that delivers the last chunk of a piece takes the piece out of
    flight under the same lock, checks it, records the verdict and, if it was good, announces it;
    each of these is one step under the lock and anything may run in between. */
module DownloadTasks {
  import opened Prelude
  import opened Lengths
  import opened Files
  import opened ChunkState
  import opened TrackerState
  import opened ChunkRuns
  import opened FileCounts

  datatype Task = Checking(piece: nat) | Announcing(piece: nat)

  /** `broken` are the pieces whose check broke off and which have had no verdict since. */
  datatype World = World(state: State, tasks: map<nat, Task>, broken: set<nat>)

  datatype Event =
    | Delivery(task: nat, piece: nat, index: nat)
    | CheckPasses(task: nat)
    | CheckFails(task: nat)
    | CheckErrors(task: nat)
    | Announces(task: nat)
    | Other(step: Step)

  ghost predicate Checked(w: World, p: nat) {
    exists t :: t in w.tasks && w.tasks[t] == Checking(p)
  }

  ghost predicate CheckedElsewhere(w: World, t: nat, p: nat) {
    exists u :: u in w.tasks && u != t && w.tasks[u] == Checking(p)
  }

  /** What may happen next: each task follows its own program, and the rest of the program may
      make any other step at any time. */
  predicate Enabled(w: World, e: Event) {
    match e
    case Delivery(t, _, _) => t !in w.tasks
    case CheckPasses(t) => t in w.tasks && w.tasks[t].Checking?
    case CheckFails(t) => t in w.tasks && w.tasks[t].Checking?
    case CheckErrors(t) => t in w.tasks && w.tasks[t].Checking?
    case Announces(t) => t in w.tasks && w.tasks[t].Announcing?
    case Other(step) => !step.Take? && !step.HashOk? && !step.HashFailed? && !step.Notify? && !step.ReceiveChunk?
  }

  /** The tracker steps an event makes. A delivery takes the piece only when it is answered
      "completed"; a check that breaks off makes no step. */
  ghost function StepsOf(l: Lengths, w: World, e: Event): seq<Step>
    requires Enabled(w, e)
  {
    match e
    case Delivery(_, p, i) =>
      if Completes(l, w.state, p, i) then [ReceiveChunk(p, i), Take(p)] else [ReceiveChunk(p, i)]
    case CheckPasses(t) => [HashOk(w.tasks[t].piece)]
    case CheckFails(t) => [HashFailed(w.tasks[t].piece)]
    case CheckErrors(_) => []
    case Announces(t) => [Notify(w.tasks[t].piece)]
    case Other(step) => [step]
  }

  ghost function NextState(l: Lengths, files: seq<FileInfo>, w: World, e: Event): State
    requires l.Valid() && Enabled(w, e)
  {
    match e
    case Delivery(_, p, i) =>
      var s := Apply(l, files, w.state, ReceiveChunk(p, i));
      if Completes(l, w.state, p, i) then Apply(l, files, s, Take(p)) else s
    case CheckErrors(_) => w.state
    case _ => Apply(l, files, w.state, StepsOf(l, w, e)[0])
  }

  /** A task that completes a piece no longer in flight has nothing to check and ends at once. A
      pause ends all tasks: they find the tracker gone. */
  ghost function NextTasks(l: Lengths, w: World, e: Event): map<nat, Task>
    requires Enabled(w, e)
  {
    match e
    case Delivery(t, p, i) =>
      if Completes(l, w.state, p, i) && p in w.state.inflight then w.tasks[t := Checking(p)] else w.tasks
    case CheckPasses(t) => w.tasks[t := Announcing(w.tasks[t].piece)]
    case CheckFails(t) => w.tasks - {t}
    case CheckErrors(t) => w.tasks - {t}
    case Announces(t) => w.tasks - {t}
    case Other(step) => if step.Pause? then map[] else w.tasks
  }

  function NextBroken(w: World, e: Event): set<nat>
    requires Enabled(w, e)
  {
    match e
    case CheckPasses(t) => w.broken - {w.tasks[t].piece}
    case CheckFails(t) => w.broken - {w.tasks[t].piece}
    case CheckErrors(t) => w.broken + {w.tasks[t].piece}
    case Other(step) => if step.Pause? then {} else w.broken
    case _ => w.broken
  }

  ghost function Next(l: Lengths, files: seq<FileInfo>, w: World, e: Event): World
    requires l.Valid() && Enabled(w, e)
  {
    World(NextState(l, files, w, e), NextTasks(l, w, e), NextBroken(w, e))
  }

  // ---- Interleavings ----------------------------------------------------------------

  /** `worlds[k]` is the world before event `k`. */
  ghost predicate Follows(l: Lengths, files: seq<FileInfo>, worlds: seq<World>, events: seq<Event>)
    requires l.Valid()
  {
    && |worlds| == |events| + 1
    && forall k :: 0 <= k < |events| ==> EventAt(l, files, worlds, events, k)
  }

  ghost predicate EventAt(l: Lengths, files: seq<FileInfo>, worlds: seq<World>, events: seq<Event>, k: nat)
    requires l.Valid() && k < |events| && |worlds| == |events| + 1
  {
    Enabled(worlds[k], events[k]) && worlds[k + 1] == Next(l, files, worlds[k], events[k])
  }

  /** The torrent starts as a new tracker leaves it, with no task at work. */
  ghost predicate Begins(l: Lengths, files: seq<FileInfo>, w: World) {
    && Tiles(l, files) && Fresh(l, files, w.state) && ChunksFollowHave(l, w.state.chunks)
    && w.tasks == map[] && w.broken == {}
  }

  ghost predicate Interleaving(l: Lengths, files: seq<FileInfo>, worlds: seq<World>, events: seq<Event>) {
    l.Valid() && Follows(l, files, worlds, events) && Begins(l, files, worlds[0])
  }

  // ---- Stalled pieces ---------------------------------------------------------------

  /** `p` is missing although all its chunks are recorded, and no task is checking it: whoever
      downloads it is told that it was completed before, so it is never taken and checked. */
  ghost predicate Stalled(l: Lengths, w: World, p: nat) {
    p !in w.state.chunks.have && Full(l, w.state, p) && !Checked(w, p)
  }

  /** `p` is queued or in flight and a chunk is still missing, so a download can complete it. */
  ghost predicate Fetchable(l: Lengths, w: World, p: nat) {
    (p in w.state.chunks.queue || p in w.state.inflight) && !Full(l, w.state, p)
  }

  /** The events that stall `p`: its last check breaks off, a pause ends its check, or its last
      chunk is delivered when it is not in flight. */
  ghost predicate Stalls(l: Lengths, w: World, e: Event, p: nat)
    requires Enabled(w, e)
  {
    match e
    case CheckErrors(t) => w.tasks[t] == Checking(p) && !CheckedElsewhere(w, t, p) && Full(l, w.state, p)
    case Other(Pause) => Checked(w, p) && p !in w.state.inflight && Full(l, w.state, p)
    case Delivery(_, q, i) => p == q && Completes(l, w.state, p, i) && p !in w.state.inflight && !Checked(w, p)
    case _ => false
  }

  /** The events that free `p` once it is stalled: its owner dies or a pause comes while it is in
      flight, or it is newly selected. A reservation is not among them. */
  ghost predicate Frees(l: Lengths, files: seq<FileInfo>, w: World, e: Event, p: nat)
    requires l.Valid()
  {
    match e
    case Other(Release(peer)) => p in w.state.inflight && w.state.inflight[p].peer == peer
    case Other(Pause) => p in w.state.inflight
    case Other(SelectFiles(only)) => p in SelectedBy(l, files, only) - w.state.chunks.selected
    case _ => false
  }

  /** A task that stops checking leaves the checks of other pieces alone. */
  lemma OtherChecksGoOn(l: Lengths, w: World, e: Event, t: nat, p: nat)
    requires Enabled(w, e) && t in w.tasks
    requires e == CheckPasses(t) || e == CheckFails(t) || e == CheckErrors(t) || e == Announces(t)
    ensures (exists u :: u in NextTasks(l, w, e) && NextTasks(l, w, e)[u] == Checking(p)) <==> CheckedElsewhere(w, t, p)
    ensures w.tasks[t] != Checking(p) ==> (CheckedElsewhere(w, t, p) <==> Checked(w, p))
    ensures w.tasks[t] == Checking(p) ==> Checked(w, p)
  {
    var after := NextTasks(l, w, e);
    if u :| u in w.tasks && u != t && w.tasks[u] == Checking(p) {
      assert u in after && after[u] == Checking(p);
    }
    if u :| u in after && after[u] == Checking(p) {
      assert u != t && u in w.tasks && w.tasks[u] == Checking(p);
    }
  }

  /** A delivery starts a check of its own piece exactly when it completes it in flight. */
  lemma ChecksAfterDelivery(l: Lengths, w: World, t: nat, q: nat, i: nat, p: nat)
    requires Enabled(w, Delivery(t, q, i))
    ensures var after := NextTasks(l, w, Delivery(t, q, i));
      (exists u :: u in after && after[u] == Checking(p)) <==>
      Checked(w, p) || (p == q && Completes(l, w.state, q, i) && q in w.state.inflight)
  {
    var after := NextTasks(l, w, Delivery(t, q, i));
    if u :| u in w.tasks && w.tasks[u] == Checking(p) {
      assert u in after && after[u] == Checking(p);
    }
    if Completes(l, w.state, q, i) && q in w.state.inflight {
      assert after[t] == Checking(q);
    }
    if u :| u in after && after[u] == Checking(p) {
      assert u == t || (u in w.tasks && w.tasks[u] == Checking(p));
    }
  }

  /** What is recorded of `p` after an event. */
  lemma FullAfter(l: Lengths, files: seq<FileInfo>, w: World, e: Event, p: nat)
    requires l.Valid() && Fits(l, w.state) && p < l.TotalPieces() && Enabled(w, e)
    ensures Fits(l, NextState(l, files, w, e))
    ensures Full(l, NextState(l, files, w, e), p) <==>
      match e
      case Delivery(_, q, i) => Full(l, w.state, p) || (p == q && Completes(l, w.state, p, i))
      case CheckErrors(_) => Full(l, w.state, p)
      case _ => Full(l, w.state, p) && p !in ClearedBy(l, files, w.state, StepsOf(l, w, e)[0])
  {
    match e
    case Delivery(_, q, i) =>
      FullExactly(l, files, w.state, ReceiveChunk(q, i), p);
      FullExactly(l, files, Apply(l, files, w.state, ReceiveChunk(q, i)), Take(q), p);
    case CheckErrors(_) =>
    case _ => FullExactly(l, files, w.state, StepsOf(l, w, e)[0], p);
  }

  lemma DeliveryStalls(l: Lengths, files: seq<FileInfo>, w: World, t: nat, q: nat, i: nat, p: nat)
    requires l.Valid() && Fits(l, w.state) && p < l.TotalPieces() && Enabled(w, Delivery(t, q, i))
    ensures Stalled(l, Next(l, files, w, Delivery(t, q, i)), p) <==>
      p !in w.state.chunks.have && (Stalled(l, w, p) || Stalls(l, w, Delivery(t, q, i), p))
  {
    FullAfter(l, files, w, Delivery(t, q, i), p);
    ChecksAfterDelivery(l, w, t, q, i, p);
    FullExactly(l, files, w.state, ReceiveChunk(q, i), p);
  }

  lemma TaskStalls(l: Lengths, files: seq<FileInfo>, w: World, e: Event, t: nat, p: nat)
    requires l.Valid() && Fits(l, w.state) && p < l.TotalPieces() && Enabled(w, e)
    requires e == CheckPasses(t) || e == CheckFails(t) || e == CheckErrors(t) || e == Announces(t)
    ensures Stalled(l, Next(l, files, w, e), p) <==>
      p !in w.state.chunks.have && (Stalled(l, w, p) || Stalls(l, w, e, p))
  {
    FullAfter(l, files, w, e, p);
    OtherChecksGoOn(l, w, e, t, p);
    assert Checked(Next(l, files, w, e), p) <==> CheckedElsewhere(w, t, p);
  }

  lemma StepStalls(l: Lengths, files: seq<FileInfo>, w: World, step: Step, p: nat)
    requires l.Valid() && Fits(l, w.state) && p < l.TotalPieces() && Enabled(w, Other(step))
    ensures Stalled(l, Next(l, files, w, Other(step)), p) <==>
      && p !in w.state.chunks.have
      && ((Stalled(l, w, p) && !Frees(l, files, w, Other(step), p)) || Stalls(l, w, Other(step), p))
  {
    FullAfter(l, files, w, Other(step), p);
    var w' := Next(l, files, w, Other(step));
    assert !step.Pause? ==> (Checked(w', p) <==> Checked(w, p));
    assert step.Pause? ==> !Checked(w', p);
  }

  /** Whatever the event and however the world came about, a piece is stalled afterwards if and only
      if it is missing and the event stalls it, or it was stalled and the event does not free it. */
  lemma StalledExactly(l: Lengths, files: seq<FileInfo>, w: World, e: Event, p: nat)
    requires l.Valid() && Fits(l, w.state) && p < l.TotalPieces() && Enabled(w, e)
    ensures Fits(l, Next(l, files, w, e).state)
    ensures Stalled(l, Next(l, files, w, e), p) <==>
      && p !in w.state.chunks.have
      && ((Stalled(l, w, p) && !Frees(l, files, w, e, p)) || Stalls(l, w, e, p))
  {
    FullAfter(l, files, w, e, p);
    match e
    case Delivery(t, q, i) => DeliveryStalls(l, files, w, t, q, i, p);
    case Other(step) => StepStalls(l, files, w, step, p);
    case _ => TaskStalls(l, files, w, e, e.task, p);
  }

  /** What makes it a dead end: every delivery to a stalled piece is answered "previously completed"
      and changes nothing, wherever the piece is queued or in flight. */
  lemma StalledRefusesChunks(l: Lengths, files: seq<FileInfo>, w: World, t: nat, p: nat, i: nat)
    requires l.Valid() && Fits(l, w.state) && p < l.TotalPieces() && Stalled(l, w, p)
    requires Enabled(w, Delivery(t, p, i)) && i < l.ChunksOf(p)
    ensures l.ChunkEnd(p) <= |w.state.chunks.chunkStatus| && Deliver(l, w.state.chunks, p, i).1 == PreviouslyCompleted
    ensures Next(l, files, w, Delivery(t, p, i)) == w
  {
    FullExactly(l, files, w.state, ReceiveChunk(p, i), p);
  }

  ghost predicate StalledAt(l: Lengths, worlds: seq<World>, p: nat, k: nat)
    requires k < |worlds|
  {
    Stalled(l, worlds[k], p)
  }

  ghost predicate FreedAt(l: Lengths, files: seq<FileInfo>, worlds: seq<World>, events: seq<Event>, p: nat, k: nat)
    requires l.Valid() && k < |events| <= |worlds|
  {
    Frees(l, files, worlds[k], events[k], p)
  }

  lemma {:induction false} FitsAlways(l: Lengths, files: seq<FileInfo>, worlds: seq<World>, events: seq<Event>, k: nat)
    requires l.Valid() && Follows(l, files, worlds, events) && k <= |events| && Fits(l, worlds[0].state)
    requires 0 < l.TotalPieces()
    ensures Fits(l, worlds[k].state)
  {
    if k > 0 {
      FitsAlways(l, files, worlds, events, k - 1);
      assert EventAt(l, files, worlds, events, k - 1);
      FullAfter(l, files, worlds[k - 1], events[k - 1], 0);
    }
  }

  /** So over any interleaving: a piece stalled at event `a` is stalled throughout, up to event `b`, if
      and only if no event in between frees it. */
  lemma {:induction false} StalledRunExactly(l: Lengths, files: seq<FileInfo>, worlds: seq<World>, events: seq<Event>,
      p: nat, a: nat, b: nat)
    requires Interleaving(l, files, worlds, events) && p < l.TotalPieces() && a <= b <= |events|
    requires Stalled(l, worlds[a], p)
    ensures (forall k :: a <= k <= b ==> StalledAt(l, worlds, p, k)) <==>
            (forall k :: a <= k < b ==> !FreedAt(l, files, worlds, events, p, k))
  {
    if a < b {
      var last := b - 1;
      StalledRunExactly(l, files, worlds, events, p, a, last);
      FitsAlways(l, files, worlds, events, last);
      assert EventAt(l, files, worlds, events, last);
      if StalledAt(l, worlds, p, last) {
        StalledExactly(l, files, worlds[last], events[last], p);
        StalledIsNotRestalled(l, worlds[last], events[last], p);
        assert StalledAt(l, worlds, p, b) <==> !FreedAt(l, files, worlds, events, p, last);
      }
    }
  }

  lemma StalledIsNotRestalled(l: Lengths, w: World, e: Event, p: nat)
    requires Enabled(w, e) && Stalled(l, w, p)
    ensures !Stalls(l, w, e, p)
  {
  }

  // ---- Nothing else is lost ---------------------------------------------------------

  /** A needed piece is queued or in flight, or all its chunks are recorded. */
  ghost predicate Accounted(l: Lengths, s: State, p: nat) {
    Needed(s, p) ==> p in s.chunks.queue || p in s.inflight || Full(l, s, p)
  }

  lemma StepKeepsAccounted(l: Lengths, files: seq<FileInfo>, s: State, step: Step, p: nat)
    requires l.Valid() && Fits(l, s) && p < l.TotalPieces() && Accounted(l, s, p)
    requires step == Take(p) ==> Full(l, s, p)
    ensures Accounted(l, Apply(l, files, s, step), p)
  {
    FullExactly(l, files, s, step, p);
    var t := Apply(l, files, s, step);
    assert p in ClearedBy(l, files, s, step) ==> p in t.chunks.queue || !Needed(t, p);
  }

  lemma EventKeepsAccounted(l: Lengths, files: seq<FileInfo>, w: World, e: Event, p: nat)
    requires l.Valid() && Fits(l, w.state) && p < l.TotalPieces() && Enabled(w, e) && Accounted(l, w.state, p)
    ensures Accounted(l, Next(l, files, w, e).state, p)
  {
    match e
    case Delivery(_, q, i) =>
      var s := Apply(l, files, w.state, ReceiveChunk(q, i));
      StepKeepsAccounted(l, files, w.state, ReceiveChunk(q, i), p);
      FullExactly(l, files, w.state, ReceiveChunk(q, i), p);
      if Completes(l, w.state, q, i) {
        StepKeepsAccounted(l, files, s, Take(q), p);
      }
    case CheckErrors(_) =>
    case _ => StepKeepsAccounted(l, files, w.state, StepsOf(l, w, e)[0], p);
  }

  lemma {:induction false} AlwaysAccounted(l: Lengths, files: seq<FileInfo>, worlds: seq<World>, events: seq<Event>,
      k: nat, p: nat)
    requires Interleaving(l, files, worlds, events) && k <= |events| && p < l.TotalPieces()
    ensures Accounted(l, worlds[k].state, p)
  {
    if k > 0 {
      AlwaysAccounted(l, files, worlds, events, k - 1, p);
      FitsAlways(l, files, worlds, events, k - 1);
      assert EventAt(l, files, worlds, events, k - 1);
      EventKeepsAccounted(l, files, worlds[k - 1], events[k - 1], p);
    }
  }

  /** However tasks and everything else interleave, at any time a needed piece can be completed by a
      download or is being checked, or it is stalled, and never both. */
  lemma NeededIsFetchable(l: Lengths, files: seq<FileInfo>, worlds: seq<World>, events: seq<Event>, k: nat, p: nat)
    requires Interleaving(l, files, worlds, events) && k <= |events|
    requires p < l.TotalPieces() && Needed(worlds[k].state, p)
    ensures Stalled(l, worlds[k], p) <==> !Fetchable(l, worlds[k], p) && !Checked(worlds[k], p)
  {
    AlwaysAccounted(l, files, worlds, events, k, p);
  }

  /** So once no task is at work, every needed piece can be completed by a download if and only if
      none is stalled. */
  lemma NothingLostIff(l: Lengths, files: seq<FileInfo>, worlds: seq<World>, events: seq<Event>, k: nat)
    requires Interleaving(l, files, worlds, events) && k <= |events| && worlds[k].tasks == map[]
    ensures (forall p: nat :: p < l.TotalPieces() && Needed(worlds[k].state, p) ==> Fetchable(l, worlds[k], p)) <==>
            (forall p: nat :: p < l.TotalPieces() && Needed(worlds[k].state, p) ==> !Stalled(l, worlds[k], p))
  {
    forall p: nat | p < l.TotalPieces() && Needed(worlds[k].state, p)
      ensures Stalled(l, worlds[k], p) <==> !Fetchable(l, worlds[k], p)
    {
      NeededIsFetchable(l, files, worlds, events, k, p);
    }
  }

  // ---- A run that stalls ------------------------------------------------------------

  /** `p` is needed, in flight with its first `i` chunks delivered, and no task is at work. */
  ghost predicate Downloading(l: Lengths, w: World, p: nat, i: nat) {
    && l.Valid() && Fits(l, w.state) && p < l.TotalPieces()
    && w.tasks == map[] && Needed(w.state, p) && p !in w.state.chunks.queue && p in w.state.inflight
    && l.ChunkEnd(p) <= |w.state.chunks.chunkStatus|
    && Received(l, w.state.chunks.chunkStatus, p) == FirstChunks(i)
  }

  function FirstChunks(i: nat): (r: set<nat>)
    ensures forall j: nat :: j in r <==> j < i
  {
    if i == 0 then {} else FirstChunks(i - 1) + {i - 1}
  }

  lemma OneMoreWorld(l: Lengths, files: seq<FileInfo>, worlds: seq<World>, events: seq<Event>, e: Event)
    requires Interleaving(l, files, worlds, events) && Enabled(worlds[|events|], e)
    ensures Interleaving(l, files, worlds + [Next(l, files, worlds[|events|], e)], events + [e])
  {
    var ws, es := worlds + [Next(l, files, worlds[|events|], e)], events + [e];
    forall k | 0 <= k < |es|
      ensures EventAt(l, files, ws, es, k)
    {
      assert k < |events| ==> EventAt(l, files, worlds, events, k);
    }
  }

  /** A step that is made outside the download tasks. */
  predicate MadeElsewhere(step: Step) {
    step.Reserve? || step.Steal? || step.Release? || step.SelectFiles? || step.Pause?
  }

  /** The tasks hold up nothing else: whatever has happened, any sequence of such steps may follow. */
  lemma {:induction false} OthersGoOn(l: Lengths, files: seq<FileInfo>, worlds: seq<World>, events: seq<Event>,
      steps: seq<Step>)
    returns (worlds': seq<World>, events': seq<Event>)
    requires Interleaving(l, files, worlds, events)
    requires forall k :: 0 <= k < |steps| ==> MadeElsewhere(steps[k])
    ensures Interleaving(l, files, worlds', events') && events <= events' && worlds <= worlds'
    ensures worlds'[|events'|].state == Run(l, files, worlds[|events|].state, steps)
    decreases |steps|
  {
    if steps == [] {
      worlds', events' := worlds, events;
    } else {
      var last := |steps| - 1;
      worlds', events' := OthersGoOn(l, files, worlds, events, steps[..last]);
      var e := Other(steps[last]);
      OneMoreWorld(l, files, worlds', events', e);
      worlds', events' := worlds' + [Next(l, files, worlds'[|events'|], e)], events' + [e];
    }
  }

  lemma ChunkDelivered(l: Lengths, files: seq<FileInfo>, w: World, p: nat, i: nat)
    requires Downloading(l, w, p, i) && i + 1 < l.ChunksOf(p)
    ensures Downloading(l, Next(l, files, w, Delivery(0, p, i)), p, i + 1)
  {
    DeliveryToOwnPiece(l, w.state.chunks, p, i);
    FullExactly(l, files, w.state, ReceiveChunk(p, i), p);
    assert FirstChunks(i) + {i} == FirstChunks(i + 1);
    var last := i + 1;
    assert last in AllChunks(l, p) && last !in FirstChunks(i + 1);
  }

  lemma LastChunkDelivered(l: Lengths, files: seq<FileInfo>, w: World, p: nat, i: nat)
    requires Downloading(l, w, p, i) && i + 1 == l.ChunksOf(p)
    ensures var w' := Next(l, files, w, Delivery(0, p, i));
      w'.tasks == map[0 := Checking(p)] && Full(l, w'.state, p) && Needed(w'.state, p) && Adrift(w'.state, p)
  {
    DeliveryToOwnPiece(l, w.state.chunks, p, i);
    assert FirstChunks(i) + {i} == AllChunks(l, p);
    assert i in AllChunks(l, p) && i !in FirstChunks(i);
    FullAfter(l, files, w, Delivery(0, p, i), p);
  }

  lemma {:induction false} AllChunksDelivered(l: Lengths, files: seq<FileInfo>, worlds: seq<World>, events: seq<Event>,
      p: nat, i: nat) returns (worlds': seq<World>, events': seq<Event>)
    requires Interleaving(l, files, worlds, events) && Downloading(l, worlds[|events|], p, i) && i < l.ChunksOf(p)
    ensures Interleaving(l, files, worlds', events') && worlds'[0] == worlds[0]
    ensures var w := worlds'[|events'|];
      w.tasks == map[0 := Checking(p)] && Full(l, w.state, p) && Needed(w.state, p) && Adrift(w.state, p)
    decreases l.ChunksOf(p) - i
  {
    var w, e := worlds[|events|], Delivery(0, p, i);
    worlds', events' := worlds + [Next(l, files, w, e)], events + [e];
    OneMoreWorld(l, files, worlds, events, e);
    if i + 1 < l.ChunksOf(p) {
      ChunkDelivered(l, files, w, p, i);
      worlds', events' := AllChunksDelivered(l, files, worlds', events', p, i + 1);
    } else {
      LastChunkDelivered(l, files, w, p, i);
    }
  }

  lemma ReservedIsDownloading(l: Lengths, files: seq<FileInfo>, w: World, p: nat)
    requires Begins(l, files, w) && p < l.TotalPieces() && p in w.state.chunks.queue
    ensures Downloading(l, Next(l, files, w, Other(Reserve(p, 0, 0))), p, 0)
  {
    assert ChunksFollow(l, w.state.chunks, p);
    assert FirstChunks(0) == {};
    assert Received(l, w.state.chunks.chunkStatus, p) == {};
  }

  /** A read error during its check does stall a needed piece, of any torrent: it is reserved, all its
      chunks are delivered, and the check breaks off. Nobody has it assigned then. */
  lemma ReadErrorStalls(l: Lengths, files: seq<FileInfo>, w: World, p: nat)
    returns (worlds: seq<World>, events: seq<Event>)
    requires Begins(l, files, w) && p < l.TotalPieces() && p in w.state.chunks.queue
    ensures Interleaving(l, files, worlds, events) && worlds[0] == w
    ensures var t := worlds[|events|];
      t.tasks == map[] && Needed(t.state, p) && Adrift(t.state, p) && Stalled(l, t, p)
  {
    assert EventAt(l, files, [w, Next(l, files, w, Other(Reserve(p, 0, 0)))], [Other(Reserve(p, 0, 0))], 0);
    worlds, events := [w, Next(l, files, w, Other(Reserve(p, 0, 0)))], [Other(Reserve(p, 0, 0))];
    ReservedIsDownloading(l, files, w, p);
    ChunkCounts(l, p);
    worlds, events := AllChunksDelivered(l, files, worlds, events, p, 0);
    var checking := worlds[|events|];
    assert checking.tasks[0] == Checking(p);
    OneMoreWorld(l, files, worlds, events, CheckErrors(0));
    worlds, events := worlds + [Next(l, files, checking, CheckErrors(0))], events + [CheckErrors(0)];
  }

  /** Reserving it for a stream then does not help: it is in flight, yet no delivery can complete it. */
  lemma ReservedStaysStalled(l: Lengths, files: seq<FileInfo>, w: World, p: nat)
    returns (worlds: seq<World>, events: seq<Event>)
    requires Begins(l, files, w) && p < l.TotalPieces() && p in w.state.chunks.queue
    ensures Interleaving(l, files, worlds, events) && worlds[0] == w
    ensures var t := worlds[|events|];
      && t.tasks == map[] && Needed(t.state, p) && p in t.state.inflight && Stalled(l, t, p)
      && forall task: nat, i: nat :: i < l.ChunksOf(p) ==> Next(l, files, t, Delivery(task, p, i)) == t
  {
    worlds, events := ReadErrorStalls(l, files, w, p);
    var before, e := worlds[|events|], Other(Reserve(p, 0, 0));
    FitsAlways(l, files, worlds, events, |events|);
    OneMoreWorld(l, files, worlds, events, e);
    worlds, events := worlds + [Next(l, files, before, e)], events + [e];
    var t := worlds[|events|];
    StalledExactly(l, files, before, e, p);
    forall task: nat, i: nat | i < l.ChunksOf(p)
      ensures Next(l, files, t, Delivery(task, p, i)) == t
    {
      StalledRefusesChunks(l, files, t, task, p, i);
    }
  }

  // ---- When each piece has one status -----------------------------------------------

  /** A task is checking `p`, or its check broke off without a verdict. */
  ghost predicate Pending(w: World, p: nat) {
    p in w.broken || Checked(w, p)
  }

  /** What the rest of the program must respect: it reserves no piece that is had or pending, selects
      none anew that is in flight or pending, and does not pause while a needed one is pending. */
  ghost predicate Calm(l: Lengths, files: seq<FileInfo>, w: World, e: Event)
    requires l.Valid()
  {
    match e
    case Other(Reserve(p, _, _)) => p !in w.state.chunks.have && !Pending(w, p)
    case Other(SelectFiles(only)) =>
      forall p :: p in SelectedBy(l, files, only) - w.state.chunks.selected - w.state.chunks.have ==>
        p !in w.state.inflight && !Pending(w, p)
    case Other(Pause) => forall p :: Needed(w.state, p) ==> !Pending(w, p)
    case _ => true
  }

  /** Each piece has one status, and the tracker's pending sets are exactly what the tasks are busy
      with, one task a piece. */
  ghost predicate Consistent(w: World) {
    && OneStatusEach(w.state)
    && w.state.unnotified <= w.state.chunks.have && w.broken <= w.state.verifying
    && KeepsTasks(w)
  }

  ghost predicate KeepsTasks(w: World) {
    && (forall t :: t in w.tasks ==> TaskOk(w, t))
    && (forall p :: p in w.state.verifying ==> Pending(w, p))
    && (forall p :: p in w.state.unnotified ==> Announcer(w, p))
    && (forall t, u :: t in w.tasks && u in w.tasks && t != u ==> w.tasks[t] != w.tasks[u])
  }

  ghost predicate TaskOk(w: World, t: nat)
    requires t in w.tasks
  {
    match w.tasks[t]
    case Checking(p) => p in w.state.verifying && p !in w.broken
    case Announcing(p) => p in w.state.unnotified
  }

  ghost predicate Announcer(w: World, p: nat) {
    exists t :: t in w.tasks && w.tasks[t] == Announcing(p)
  }

  lemma PendingIsVerifying(w: World, p: nat)
    requires KeepsTasks(w) && w.broken <= w.state.verifying
    ensures p in w.state.verifying <==> Pending(w, p)
  {
    if t :| t in w.tasks && w.tasks[t] == Checking(p) {
      assert TaskOk(w, t);
    }
  }

  /** An event other than a delivery or a broken-off check is one step. */
  lemma CalmStep(l: Lengths, files: seq<FileInfo>, w: World, step: Step)
    requires l.Valid() && Consistent(w) && Enabled(w, Other(step))
    ensures KeepsStatus(l, files, w.state, step) <==> Calm(l, files, w, Other(step))
  {
    OneStatusIff(w.state);
    forall p: nat
      ensures p in w.state.verifying <==> Pending(w, p)
    {
      PendingIsVerifying(w, p);
    }
    if step.SelectFiles? {
      var newly := SelectedBy(l, files, step.only) - w.state.chunks.selected - w.state.chunks.have;
      assert forall p :: p in newly ==>
        (p in w.state.inflight.Keys + w.state.verifying <==> p in w.state.inflight || Pending(w, p));
    }
    if step.Pause? {
      assert forall p :: p in w.state.verifying ==> p !in w.state.chunks.queue && p !in w.state.inflight.Keys;
    }
  }

  /** From a consistent world each piece has one status afterwards if and only if the event is calm;
      whatever a task does is. */
  lemma CalmExactly(l: Lengths, files: seq<FileInfo>, w: World, e: Event)
    requires l.Valid() && Consistent(w) && Enabled(w, e)
    ensures OneStatusEach(Next(l, files, w, e).state) <==> Calm(l, files, w, e)
  {
    OneStatusIff(w.state);
    match e
    case Delivery(_, p, i) =>
      StatusExactly(l, files, w.state, ReceiveChunk(p, i));
      StatusExactly(l, files, Apply(l, files, w.state, ReceiveChunk(p, i)), Take(p));
    case CheckErrors(_) =>
    case Other(step) =>
      CalmStep(l, files, w, step);
      StatusExactly(l, files, w.state, step);
    case _ =>
      assert TaskOk(w, e.task);
      StatusExactly(l, files, w.state, StepsOf(l, w, e)[0]);
  }

  lemma KeepChecker(w: World, w': World, p: nat)
    requires forall t :: t in w.tasks && w.tasks[t] == Checking(p) ==> t in w'.tasks && w'.tasks[t] == Checking(p)
    ensures Checked(w, p) ==> Checked(w', p)
  {
  }

  lemma KeepAnnouncer(w: World, w': World, p: nat)
    requires forall t :: t in w.tasks && w.tasks[t] == Announcing(p) ==> t in w'.tasks && w'.tasks[t] == Announcing(p)
    ensures Announcer(w, p) ==> Announcer(w', p)
  {
  }

  lemma SameTasks(w: World, w': World)
    requires KeepsTasks(w) && w'.tasks == w.tasks && w'.broken == w.broken
    requires w'.state.verifying == w.state.verifying && w'.state.unnotified == w.state.unnotified
    ensures KeepsTasks(w')
  {
    forall t | t in w'.tasks
      ensures TaskOk(w', t)
    {
      assert TaskOk(w, t);
    }
    forall p | p in w'.state.verifying
      ensures Pending(w', p)
    {
      assert Pending(w, p);
      KeepChecker(w, w', p);
    }
    forall p | p in w'.state.unnotified
      ensures Announcer(w', p)
    {
      KeepAnnouncer(w, w', p);
    }
  }

  /** A new task starts checking `q`. */
  lemma TaskStarts(w: World, w': World, t: nat, q: nat)
    requires KeepsTasks(w) && t !in w.tasks && q !in w.state.verifying && w.broken <= w.state.verifying
    requires w'.tasks == w.tasks[t := Checking(q)] && w'.broken == w.broken
    requires w'.state.verifying == w.state.verifying + {q} && w'.state.unnotified == w.state.unnotified
    ensures KeepsTasks(w')
  {
    assert w'.tasks[t] == Checking(q);
    forall u | u in w'.tasks
      ensures TaskOk(w', u) && (u != t ==> w'.tasks[u] == w.tasks[u] != Checking(q))
    {
      assert u != t ==> TaskOk(w, u);
    }
    forall p | p in w'.state.verifying
      ensures Pending(w', p)
    {
      assert p != q ==> Pending(w, p);
      KeepChecker(w, w', p);
    }
    forall p | p in w'.state.unnotified
      ensures Announcer(w', p)
    {
      KeepAnnouncer(w, w', p);
    }
  }

  /** Task `t` is done with its piece: with its check, or with the announcement. */
  lemma TaskLeaves(w: World, w': World, t: nat)
    requires KeepsTasks(w) && t in w.tasks && w'.tasks == w.tasks - {t}
    requires var q, checking := w.tasks[t].piece, w.tasks[t].Checking?;
      && w'.broken == w.broken + (if checking && q in w'.state.verifying then {q} else {})
      && (w'.state.verifying == w.state.verifying || (checking && w'.state.verifying == w.state.verifying - {q}))
      && w'.state.unnotified == w.state.unnotified - (if checking then {} else {q})
    ensures KeepsTasks(w')
  {
    forall u | u in w'.tasks
      ensures TaskOk(w', u)
    {
      assert TaskOk(w, u) && w.tasks[u] != w.tasks[t];
    }
    forall p | p in w'.state.verifying
      ensures Pending(w', p)
    {
      assert Pending(w, p);
      if w.tasks[t] != Checking(p) {
        KeepChecker(w, w', p);
      }
    }
    forall p | p in w'.state.unnotified
      ensures Announcer(w', p)
    {
      assert Announcer(w, p) && w.tasks[t] != Announcing(p);
      KeepAnnouncer(w, w', p);
    }
  }

  /** Task `t` goes on to announce its piece. */
  lemma TaskAnnounces(w: World, w': World, t: nat)
    requires KeepsTasks(w) && t in w.tasks && w.tasks[t].Checking? && w.tasks[t].piece !in w.state.unnotified
    requires w'.tasks == w.tasks[t := Announcing(w.tasks[t].piece)] && w'.broken == w.broken
    requires w'.state.verifying == w.state.verifying - {w.tasks[t].piece}
    requires w'.state.unnotified == w.state.unnotified + {w.tasks[t].piece}
    ensures KeepsTasks(w')
  {
    var q := w.tasks[t].piece;
    assert w'.tasks[t] == Announcing(q);
    forall u | u in w'.tasks
      ensures TaskOk(w', u) && (u != t ==> w'.tasks[u] == w.tasks[u] != Announcing(q))
    {
      if u != t {
        assert TaskOk(w, u) && w.tasks[u] != w.tasks[t];
      }
    }
    forall p | p in w'.state.verifying
      ensures Pending(w', p)
    {
      assert Pending(w, p) && w.tasks[t] != Checking(p);
      KeepChecker(w, w', p);
    }
    forall p | p in w'.state.unnotified
      ensures Announcer(w', p)
    {
      assert p != q ==> Announcer(w, p);
      KeepAnnouncer(w, w', p);
    }
  }

  lemma DeliveryKeepsTasks(l: Lengths, files: seq<FileInfo>, w: World, t: nat, q: nat, i: nat)
    requires l.Valid() && Consistent(w) && Enabled(w, Delivery(t, q, i))
    ensures KeepsTasks(Next(l, files, w, Delivery(t, q, i)))
  {
    OneStatusIff(w.state);
    if Completes(l, w.state, q, i) && q in w.state.inflight.Keys {
      TaskStarts(w, Next(l, files, w, Delivery(t, q, i)), t, q);
    } else {
      SameTasks(w, Next(l, files, w, Delivery(t, q, i)));
    }
  }

  lemma VerdictKeepsTasks(l: Lengths, files: seq<FileInfo>, w: World, e: Event, t: nat)
    requires l.Valid() && Consistent(w) && Enabled(w, e)
    requires e == CheckPasses(t) || e == CheckFails(t) || e == CheckErrors(t)
    ensures KeepsTasks(Next(l, files, w, e))
  {
    OneStatusIff(w.state);
    assert TaskOk(w, t);
    if e.CheckPasses? {
      TaskAnnounces(w, Next(l, files, w, e), t);
    } else {
      TaskLeaves(w, Next(l, files, w, e), t);
    }
  }

  lemma EventKeepsTasks(l: Lengths, files: seq<FileInfo>, w: World, e: Event)
    requires l.Valid() && Consistent(w) && Enabled(w, e)
    ensures KeepsTasks(Next(l, files, w, e))
  {
    match e
    case Delivery(t, q, i) => DeliveryKeepsTasks(l, files, w, t, q, i);
    case Announces(t) =>
      assert TaskOk(w, t);
      TaskLeaves(w, Next(l, files, w, e), t);
    case Other(step) =>
      if !step.Pause? {
        SameTasks(w, Next(l, files, w, e));
      }
    case _ => VerdictKeepsTasks(l, files, w, e, e.task);
  }

  lemma EventKeepsPending(l: Lengths, files: seq<FileInfo>, w: World, e: Event)
    requires l.Valid() && Consistent(w) && Enabled(w, e)
    ensures var w' := Next(l, files, w, e);
      w'.state.unnotified <= w'.state.chunks.have && w'.broken <= w'.state.verifying
  {
    if e.CheckPasses? || e.CheckFails? || e.CheckErrors? || e.Announces? {
      assert TaskOk(w, e.task);
    }
  }

  lemma CalmKeepsConsistent(l: Lengths, files: seq<FileInfo>, w: World, e: Event)
    requires l.Valid() && Consistent(w) && Enabled(w, e) && Calm(l, files, w, e)
    ensures Consistent(Next(l, files, w, e))
  {
    CalmExactly(l, files, w, e);
    EventKeepsTasks(l, files, w, e);
    EventKeepsPending(l, files, w, e);
  }

  ghost predicate CalmUntil(l: Lengths, files: seq<FileInfo>, worlds: seq<World>, events: seq<Event>, k: nat)
    requires l.Valid() && |worlds| == |events| + 1 && k <= |events|
  {
    forall j :: 0 <= j < k ==> Calm(l, files, worlds[j], events[j])
  }

  lemma CalmUntilNext(l: Lengths, files: seq<FileInfo>, worlds: seq<World>, events: seq<Event>, k: nat)
    requires l.Valid() && |worlds| == |events| + 1 && k < |events|
    ensures CalmUntil(l, files, worlds, events, k + 1) <==>
      CalmUntil(l, files, worlds, events, k) && Calm(l, files, worlds[k], events[k])
  {
  }

  lemma {:induction false} CalmIsConsistent(l: Lengths, files: seq<FileInfo>, worlds: seq<World>, events: seq<Event>,
      k: nat)
    requires l.Valid() && Follows(l, files, worlds, events) && k <= |events| && Consistent(worlds[0])
    requires CalmUntil(l, files, worlds, events, k)
    ensures Consistent(worlds[k])
  {
    if k > 0 {
      CalmUntilNext(l, files, worlds, events, k - 1);
      CalmIsConsistent(l, files, worlds, events, k - 1);
      assert EventAt(l, files, worlds, events, k - 1);
      CalmKeepsConsistent(l, files, worlds[k - 1], events[k - 1]);
      assert worlds[k] == Next(l, files, worlds[k - 1], events[k - 1]);
    }
  }

  ghost predicate OneStatusUntil(worlds: seq<World>, k: nat)
    requires k < |worlds|
  {
    forall j :: 0 <= j <= k ==> OneStatusEach(worlds[j].state)
  }

  lemma {:induction false} OneStatusWhileCalm(l: Lengths, files: seq<FileInfo>, worlds: seq<World>, events: seq<Event>,
      k: nat)
    requires l.Valid() && Follows(l, files, worlds, events) && k <= |events| && Consistent(worlds[0])
    ensures OneStatusUntil(worlds, k) <==> CalmUntil(l, files, worlds, events, k)
  {
    if k > 0 {
      OneStatusWhileCalm(l, files, worlds, events, k - 1);
      CalmUntilNext(l, files, worlds, events, k - 1);
      assert EventAt(l, files, worlds, events, k - 1);
      if CalmUntil(l, files, worlds, events, k - 1) {
        CalmIsConsistent(l, files, worlds, events, k - 1);
        CalmExactly(l, files, worlds[k - 1], events[k - 1]);
      }
    }
  }

  /** However the tasks interleave, each piece has exactly one status at all times if and only if
      everything else is calm; and then it is being verified exactly while a task checks it or
      after its check broke off. */
  lemma InterleavedStatus(l: Lengths, files: seq<FileInfo>, worlds: seq<World>, events: seq<Event>, k: nat)
    requires Interleaving(l, files, worlds, events) && k <= |events|
    ensures OneStatusUntil(worlds, k) <==> CalmUntil(l, files, worlds, events, k)
    ensures CalmUntil(l, files, worlds, events, k) ==>
      forall p: nat :: HasStatus(worlds[k].state, p, Verifying) <==> Pending(worlds[k], p)
  {
    FreshHasOneStatus(l, files, worlds[0].state);
    OneStatusWhileCalm(l, files, worlds, events, k);
    if CalmUntil(l, files, worlds, events, k) {
      CalmIsConsistent(l, files, worlds, events, k);
      forall p: nat
        ensures HasStatus(worlds[k].state, p, Verifying) <==> Pending(worlds[k], p)
      {
        PendingIsVerifying(worlds[k], p);
      }
    }
  }

  // ---- When each completion is announced once ---------------------------------------

  /** The steps the tracker sees during the first `k` events. */
  ghost function Seen(l: Lengths, files: seq<FileInfo>, worlds: seq<World>, events: seq<Event>, k: nat): seq<Step>
    requires l.Valid() && Follows(l, files, worlds, events) && k <= |events|
  {
    if k == 0 then []
    else
      assert EventAt(l, files, worlds, events, k - 1);
      Seen(l, files, worlds, events, k - 1) + StepsOf(l, worlds[k - 1], events[k - 1])
  }

  lemma EventExtendsRun(l: Lengths, files: seq<FileInfo>, s: State, steps: seq<Step>, w: World, e: Event)
    requires l.Valid() && Enabled(w, e) && w.state == Run(l, files, s, steps)
    ensures NextState(l, files, w, e) == Run(l, files, s, steps + StepsOf(l, w, e))
  {
    var made := StepsOf(l, w, e);
    if made == [] {
      assert steps + made == steps;
    } else {
      RunOneMore(l, files, s, steps, made[0]);
      if |made| == 2 {
        RunOneMore(l, files, s, steps + [made[0]], made[1]);
        assert steps + made == steps + [made[0]] + [made[1]];
      } else {
        assert made == [made[0]];
      }
    }
  }

  lemma EventUnfolds(l: Lengths, files: seq<FileInfo>, worlds: seq<World>, events: seq<Event>, k: nat)
    requires l.Valid() && Follows(l, files, worlds, events) && k < |events|
    ensures Enabled(worlds[k], events[k])
    ensures worlds[k + 1].state == NextState(l, files, worlds[k], events[k])
    ensures Seen(l, files, worlds, events, k + 1)
         == Seen(l, files, worlds, events, k) + StepsOf(l, worlds[k], events[k])
  {
    assert EventAt(l, files, worlds, events, k);
  }

  lemma {:induction false} StateIsRun(l: Lengths, files: seq<FileInfo>, worlds: seq<World>, events: seq<Event>, k: nat)
    requires l.Valid() && Follows(l, files, worlds, events) && k <= |events|
    ensures worlds[k].state == Run(l, files, worlds[0].state, Seen(l, files, worlds, events, k))
  {
    if k > 0 {
      var last := k - 1;
      StateIsRun(l, files, worlds, events, last);
      EventUnfolds(l, files, worlds, events, last);
      EventExtendsRun(l, files, worlds[0].state, Seen(l, files, worlds, events, last), worlds[last], events[last]);
    }
  }

  /** Every task that announces a piece is the only one, and the announcement is still to come. */
  ghost predicate SoleAnnouncers(w: World) {
    && w.state.unnotified <= w.state.chunks.have
    && (forall t :: t in w.tasks && w.tasks[t].Announcing? ==> w.tasks[t].piece in w.state.unnotified)
    && (forall t, u :: t in w.tasks && u in w.tasks && t != u && w.tasks[t].Announcing? ==> w.tasks[t] != w.tasks[u])
  }

  /** No check passes on a piece that is had already. */
  predicate PassesNew(w: World, e: Event)
    requires Enabled(w, e)
  {
    e.CheckPasses? ==> w.tasks[e.task].piece !in w.state.chunks.have
  }

  lemma AnnouncersStaySole(l: Lengths, files: seq<FileInfo>, w: World, e: Event)
    requires l.Valid() && SoleAnnouncers(w) && Enabled(w, e) && PassesNew(w, e)
    ensures SoleAnnouncers(Next(l, files, w, e))
    ensures e.Announces? ==> w.tasks[e.task].piece in w.state.unnotified
  {
  }

  /** However tasks and everything else interleave, each completion is announced once as long as no
      piece passes its check a second time. */
  lemma {:induction false} AnnouncedOnceIfPassedOnce(l: Lengths, files: seq<FileInfo>, worlds: seq<World>,
      events: seq<Event>, k: nat)
    requires Interleaving(l, files, worlds, events) && k <= |events|
    requires forall j :: 0 <= j < k && EventAt(l, files, worlds, events, j) ==> PassesNew(worlds[j], events[j])
    ensures AnnouncedOnce(l, files, worlds[0].state, Seen(l, files, worlds, events, k))
    ensures SoleAnnouncers(worlds[k])
  {
    if k > 0 {
      var last := k - 1;
      AnnouncedOnceIfPassedOnce(l, files, worlds, events, last);
      StateIsRun(l, files, worlds, events, last);
      assert EventAt(l, files, worlds, events, last);
      AnnouncersStaySole(l, files, worlds[last], events[last]);
      var before, made := Seen(l, files, worlds, events, last), StepsOf(l, worlds[last], events[last]);
      AnnouncedOnceMore(l, files, worlds[0].state, before, made);
    }
  }

  lemma AnnouncedOnceMore(l: Lengths, files: seq<FileInfo>, s: State, steps: seq<Step>, made: seq<Step>)
    requires l.Valid() && AnnouncedOnce(l, files, s, steps)
    requires forall k :: 0 <= k < |made| && made[k].Notify? ==> k == 0
    requires made != [] && made[0].Notify? ==> made[0].piece in Run(l, files, s, steps).unnotified
    ensures AnnouncedOnce(l, files, s, steps + made)
  {
    var more := steps + made;
    assert more[..|steps|] == steps;
    assert forall k :: 0 <= k < |steps| ==> more[..k] == steps[..k] && more[k] == steps[k];
    assert forall k :: |steps| < k < |more| ==> !more[k].Notify?;
  }

  /** So then every missing piece is offered exactly when it is queued, whatever was selected,
      reserved or paused in between. */
  lemma PassedOnceHidesNothing(l: Lengths, files: seq<FileInfo>, worlds: seq<World>, events: seq<Event>, k: nat,
      priorities: seq<nat>, p: nat)
    requires Interleaving(l, files, worlds, events) && k <= |events|
    requires forall j :: 0 <= j < k && EventAt(l, files, worlds, events, j) ==> PassesNew(worlds[j], events[j])
    requires forall i :: 0 <= i < |files| ==> i in priorities
    requires p < l.TotalPieces() && p !in worlds[k].state.chunks.have
    ensures var c := worlds[k].state.chunks;
      && |c.perFile| == |files|
      && (forall i :: 0 <= i < |files| ==> files[i].firstPiece <= files[i].endPiece)
      && (p in QueuedOrder(l.TotalPieces(), c.queue, c.perFile, priorities, files) <==> p in c.queue)
  {
    AnnouncedOnceIfPassedOnce(l, files, worlds, events, k);
    StateIsRun(l, files, worlds, events, k);
    ShortcutHidesNothing(l, files, worlds[0].state, Seen(l, files, worlds, events, k), priorities, p);
  }
}
