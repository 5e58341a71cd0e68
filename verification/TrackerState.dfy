/** The download state of a torrent as a state machine. A piece is queued, in flight (assigned
    to a peer), being verified, had, or not needed. The steps are the calls a piece tracker
    receives; a run is any sequence of them. */
module TrackerState {
  import opened Prelude
  import opened Lengths
  import opened Files
  import opened ChunkState

  datatype InflightPiece = InflightPiece(peer: nat, started: nat)

  /** `verifying` holds the pieces taken from `inflight` that await their hash verdict;
      `unnotified` those newly had whose completion has not been announced yet. */
  datatype State = State(
    chunks: ChunkState,
    inflight: map<nat, InflightPiece>,
    verifying: set<nat>,
    unnotified: set<nat>)

  datatype Step =
    | Reserve(piece: nat, peer: nat, now: nat)
    | Steal(piece: nat, peer: nat, now: nat)
    | Take(piece: nat)
    | HashOk(piece: nat)
    | HashFailed(piece: nat)
    | Release(peer: nat)
    | SelectFiles(only: set<nat>)
    | ReceiveChunk(piece: nat, index: nat)
    | Notify(piece: nat)
    | Pause

  function OwnedBy(inflight: map<nat, InflightPiece>, peer: nat): set<nat> {
    set p | p in inflight && inflight[p].peer == peer
  }

  lemma OwnedSplit(inflight: map<nat, InflightPiece>, peer: nat)
    ensures inflight - OwnedBy(inflight, peer) == map p | p in inflight && inflight[p].peer != peer :: inflight[p]
  {
  }

  // ---- Which files a completed piece is counted towards -----------------------------

  /** First file at or after `i` that lists `p`. */
  function SkipTo(files: seq<FileInfo>, p: nat, i: nat): (k: nat)
    requires i <= |files|
    ensures i <= k <= |files|
    ensures forall j :: i <= j < k ==> !ContainsPiece(files[j], p)
    ensures k < |files| ==> ContainsPiece(files[k], p)
    decreases |files| - i
  {
    if i == |files| || ContainsPiece(files[i], p) then i else SkipTo(files, p, i + 1)
  }

  /** First file at or after `i` that does not list `p`. */
  function TakeTo(files: seq<FileInfo>, p: nat, i: nat): (k: nat)
    requires i <= |files|
    ensures i <= k <= |files|
    ensures forall j :: i <= j < k ==> ContainsPiece(files[j], p)
    ensures k < |files| ==> !ContainsPiece(files[k], p)
    decreases |files| - i
  {
    if i == |files| || !ContainsPiece(files[i], p) then i else TakeTo(files, p, i + 1)
  }

  /** The scan skips to the first file that lists the piece and stops at the next that does not. */
  predicate Scanned(files: seq<FileInfo>, p: nat, i: nat) {
    var k := SkipTo(files, p, 0);
    k <= i < TakeTo(files, p, k)
  }

  function CountPiece(l: Lengths, files: seq<FileInfo>, perFile: seq<nat>, p: nat): seq<nat>
    requires |perFile| == |files|
  {
    seq(|files|, i requires 0 <= i < |files| =>
      perFile[i] + if Scanned(files, p, i) then l.SizeOfPieceInFile(p, files[i].offset, files[i].len) else 0)
  }

  // ---- Steps and runs ---------------------------------------------------------------

  ghost function Apply(l: Lengths, files: seq<FileInfo>, s: State, step: Step): State
    requires l.Valid()
  {
    var c := s.chunks;
    match step
    case Reserve(p, peer, now) =>
      s.(chunks := c.(queue := c.queue - {p}), inflight := s.inflight[p := InflightPiece(peer, now)])
    case Steal(p, peer, now) =>
      if p in s.inflight then s.(inflight := s.inflight[p := InflightPiece(peer, now)]) else s
    case Take(p) =>
      if p in s.inflight then s.(inflight := s.inflight - {p}, verifying := s.verifying + {p}) else s
    case HashOk(p) =>
      s.(chunks := c.(have := c.have + {p}),
         verifying := s.verifying - {p},
         unnotified := s.unnotified + ({p} - c.have))
    case HashFailed(p) =>
      s.(chunks := Requeue(l, c, {p}), verifying := s.verifying - {p})
    case Release(peer) =>
      var owned := OwnedBy(s.inflight, peer);
      s.(chunks := Requeue(l, c, owned), inflight := s.inflight - owned)
    case SelectFiles(only) =>
      s.(chunks := Select(l, c, SelectedBy(l, files, only)))
    case ReceiveChunk(p, i) =>
      if i < l.ChunksOf(p) && l.ChunkEnd(p) <= |c.chunkStatus| then s.(chunks := Deliver(l, c, p, i).0) else s
    case Notify(p) =>
      s.(chunks := c.(perFile := if |c.perFile| == |files| then CountPiece(l, files, c.perFile, p) else c.perFile),
         unnotified := s.unnotified - {p})
    case Pause =>
      State(HandOver(l, s), map[], {}, {})
  }

  /** What a pause hands over: everything still in flight goes back to the queue. */
  ghost function HandOver(l: Lengths, s: State): ChunkState {
    Requeue(l, s.chunks, s.inflight.Keys)
  }

  ghost function Run(l: Lengths, files: seq<FileInfo>, s: State, steps: seq<Step>): State
    requires l.Valid()
    decreases |steps|
  {
    if steps == [] then s else Apply(l, files, Run(l, files, s, steps[..|steps| - 1]), steps[|steps| - 1])
  }

  lemma RunOneMore(l: Lengths, files: seq<FileInfo>, s: State, steps: seq<Step>, step: Step)
    requires l.Valid()
    ensures Run(l, files, s, steps + [step]) == Apply(l, files, Run(l, files, s, steps), step)
  {
    assert (steps + [step])[..|steps|] == steps;
  }

  /** A run in two parts. */
  lemma {:induction false} RunInParts(l: Lengths, files: seq<FileInfo>, s: State, first: seq<Step>, rest: seq<Step>)
    requires l.Valid()
    ensures Run(l, files, s, first + rest) == Run(l, files, Run(l, files, s, first), rest)
    decreases |rest|
  {
    if rest == [] {
      assert first + rest == first;
    } else {
      var last := |rest| - 1;
      RunInParts(l, files, s, first, rest[..last]);
      assert first + rest == first + rest[..last] + [rest[last]];
      RunOneMore(l, files, s, first + rest[..last], rest[last]);
    }
  }

  lemma RunTwo(l: Lengths, files: seq<FileInfo>, s: State, a: Step, b: Step)
    requires l.Valid()
    ensures Run(l, files, s, [a, b]) == Apply(l, files, Apply(l, files, s, a), b)
  {
    RunOneMore(l, files, s, [], a);
    RunOneMore(l, files, s, [a], b);
    assert [] + [a] == [a] && [a] + [b] == [a, b];
  }

  lemma RunThree(l: Lengths, files: seq<FileInfo>, s: State, a: Step, b: Step, c: Step)
    requires l.Valid()
    ensures Run(l, files, s, [a, b, c]) == Apply(l, files, Apply(l, files, Apply(l, files, s, a), b), c)
  {
    RunTwo(l, files, s, a, b);
    RunOneMore(l, files, s, [a, b], c);
    assert [a, b] + [c] == [a, b, c];
  }

  lemma RunFour(l: Lengths, files: seq<FileInfo>, s: State, a: Step, b: Step, c: Step, d: Step)
    requires l.Valid()
    ensures Run(l, files, s, [a, b, c, d])
         == Apply(l, files, Apply(l, files, Apply(l, files, Apply(l, files, s, a), b), c), d)
  {
    RunThree(l, files, s, a, b, c);
    RunOneMore(l, files, s, [a, b, c], d);
    assert [a, b, c] + [d] == [a, b, c, d];
  }

  /** A freshly built tracker. */
  ghost predicate Fresh(l: Lengths, files: seq<FileInfo>, s: State)
    requires Tiles(l, files)
  {
    && s.chunks.queue == s.chunks.selected - s.chunks.have
    && s.inflight == map[] && s.verifying == {} && s.unnotified == {}
    && |s.chunks.perFile| == |files|
    && forall i :: 0 <= i < |files| ==>
         files[i].firstPiece <= files[i].endPiece && s.chunks.perFile[i] == FileBytes(l, files[i], s.chunks.have)
  }

  // ---- No needed piece is ever lost -------------------------------------------------

  predicate Needed(s: State, p: nat) {
    p in s.chunks.selected && p !in s.chunks.have
  }

  ghost predicate NoneLost(s: State) {
    forall p :: Needed(s, p) ==> p in s.chunks.queue || p in s.inflight || p in s.verifying
  }

  /** No needed piece hangs between its last chunk and its verdict. */
  ghost predicate SafeToPause(s: State) {
    forall p :: Needed(s, p) && p in s.verifying ==> p in s.chunks.queue || p in s.inflight
  }

  /** Every step keeps track of every needed piece, except that a pause forgets exactly the
      ones being verified. */
  lemma LosesNothingExactly(l: Lengths, files: seq<FileInfo>, s: State, step: Step)
    requires l.Valid() && NoneLost(s)
    ensures NoneLost(Apply(l, files, s, step)) <==> (step.Pause? ==> SafeToPause(s))
  {
    var t := Apply(l, files, s, step);
    if step.Pause? ==> SafeToPause(s) {
      forall p | Needed(t, p)
        ensures p in t.chunks.queue || p in t.inflight || p in t.verifying
      {
        assert p in s.chunks.selected ==> Needed(s, p);
      }
    } else {
      var p :| Needed(s, p) && p in s.verifying && p !in s.chunks.queue && p !in s.inflight;
      assert Needed(t, p);
    }
  }

  ghost predicate PausedSafelyAt(l: Lengths, files: seq<FileInfo>, s: State, steps: seq<Step>, k: nat)
    requires l.Valid() && k < |steps|
  {
    steps[k].Pause? ==> SafeToPause(Run(l, files, s, steps[..k]))
  }

  ghost predicate SafePauses(l: Lengths, files: seq<FileInfo>, s: State, steps: seq<Step>)
    requires l.Valid()
  {
    forall k :: 0 <= k < |steps| ==> PausedSafelyAt(l, files, s, steps, k)
  }

  ghost predicate NoneLostAfter(l: Lengths, files: seq<FileInfo>, s: State, steps: seq<Step>, k: nat)
    requires l.Valid() && k <= |steps|
  {
    NoneLost(Run(l, files, s, steps[..k]))
  }

  /** Over a run, then: nothing needed is lost at any time if and only if every pause is safe. */
  lemma {:induction false} NeverLostExactly(l: Lengths, files: seq<FileInfo>, s: State, steps: seq<Step>, n: nat)
    requires l.Valid() && NoneLost(s) && n <= |steps|
    ensures (forall k :: 0 <= k <= n ==> NoneLostAfter(l, files, s, steps, k)) <==>
            (forall k :: 0 <= k < n ==> PausedSafelyAt(l, files, s, steps, k))
  {
    if n == 0 {
      assert steps[..0] == [];
    } else {
      var last := n - 1;
      NeverLostExactly(l, files, s, steps, last);
      assert steps[..n][..last] == steps[..last];
      if NoneLostAfter(l, files, s, steps, last) {
        LosesNothingExactly(l, files, Run(l, files, s, steps[..last]), steps[last]);
        assert NoneLostAfter(l, files, s, steps, n) <==> PausedSafelyAt(l, files, s, steps, last);
      }
    }
  }

  /** So in every run whatsoever whose pauses are safe, a piece that is selected and missing is queued,
      in flight or being verified. */
  lemma NoPieceLost(l: Lengths, files: seq<FileInfo>, s: State, steps: seq<Step>)
    requires Tiles(l, files) && Fresh(l, files, s) && SafePauses(l, files, s, steps)
    ensures NoneLost(Run(l, files, s, steps))
  {
    NeverLostExactly(l, files, s, steps, |steps|);
    assert NoneLostAfter(l, files, s, steps, |steps|);
    assert steps[..|steps|] == steps;
  }

  /** What survives a pause: the bit fields that matter are unchanged and every piece that was
      queued or in flight and is still missing is queued afterwards. */
  lemma HandOverKeeps(l: Lengths, files: seq<FileInfo>, s: State, steps: seq<Step>)
    requires Tiles(l, files) && Fresh(l, files, s) && SafePauses(l, files, s, steps)
    ensures var t := Run(l, files, s, steps);
      var c := HandOver(l, t);
      && c.have == t.chunks.have && c.selected == t.chunks.selected && c.perFile == t.chunks.perFile
      && HnsOf(l, c.have, c.selected) == HnsOf(l, t.chunks.have, t.chunks.selected)
      && c.queue == t.chunks.queue + (t.inflight.Keys - t.chunks.have)
      && (t.verifying == {} ==> c.selected - c.have <= c.queue)
  {
    NoPieceLost(l, files, s, steps);
    var t := Run(l, files, s, steps);
    forall p | p in t.chunks.selected - t.chunks.have
      ensures p in t.chunks.queue || p in t.inflight || p in t.verifying
    {
      assert Needed(t, p);
    }
  }

  /** `p` is missing, waits in no queue, and nobody has it assigned. */
  ghost predicate Adrift(s: State, p: nat) {
    p !in s.chunks.have && p !in s.chunks.queue && p !in s.inflight
  }

  /** The exception is real: a piece taken for its check is lost by a pause. */
  lemma PauseLosesPending(l: Lengths, files: seq<FileInfo>, s: State, p: nat, peer: nat, now: nat)
    requires Tiles(l, files) && Fresh(l, files, s) && p in s.chunks.queue
    ensures var t := Run(l, files, s, [Reserve(p, peer, now), Take(p), Pause]);
      Needed(t, p) && Adrift(t, p) && !NoneLost(t)
  {
    RunThree(l, files, s, Reserve(p, peer, now), Take(p), Pause);
  }

  /** The steps that end this: a verdict, a reservation, or a change of selection that newly
      selects the piece. (A reservation need not lead to a verdict; that depends on the chunks.) */
  ghost predicate EndsDrift(l: Lengths, files: seq<FileInfo>, s: State, step: Step, p: nat)
    requires l.Valid()
  {
    match step
    case HashOk(q) => p == q
    case HashFailed(q) => p == q
    case Reserve(q, _, _) => p == q
    case SelectFiles(only) => p in SelectedBy(l, files, only) - s.chunks.selected
    case _ => false
  }

  /** Whatever the step and however the state came about, a piece adrift stays so unless the step
      is one of these. */
  lemma AdriftExactly(l: Lengths, files: seq<FileInfo>, s: State, step: Step, p: nat)
    requires l.Valid() && Adrift(s, p)
    ensures Adrift(Apply(l, files, s, step), p) <==> !EndsDrift(l, files, s, step, p)
  {
    var t := Apply(l, files, s, step);
    match step
    case Release(peer) => assert p !in OwnedBy(s.inflight, peer);
    case _ =>
  }

  ghost predicate AdriftAfter(l: Lengths, files: seq<FileInfo>, s: State, steps: seq<Step>, p: nat, k: nat)
    requires l.Valid() && k <= |steps|
  {
    Adrift(Run(l, files, s, steps[..k]), p)
  }

  ghost predicate DriftEndsAt(l: Lengths, files: seq<FileInfo>, s: State, steps: seq<Step>, p: nat, k: nat)
    requires l.Valid() && k < |steps|
  {
    EndsDrift(l, files, Run(l, files, s, steps[..k]), steps[k], p)
  }

  /** So over any run: it is adrift throughout the first `n` steps exactly when none of them ends
      its drift. */
  lemma {:induction false} AdriftRunExactly(l: Lengths, files: seq<FileInfo>, s: State, steps: seq<Step>, p: nat,
      n: nat)
    requires l.Valid() && Adrift(s, p) && n <= |steps|
    ensures (forall k :: 0 <= k <= n ==> AdriftAfter(l, files, s, steps, p, k)) <==>
            (forall k :: 0 <= k < n ==> !DriftEndsAt(l, files, s, steps, p, k))
  {
    if n == 0 {
      assert steps[..0] == [];
    } else {
      var last := n - 1;
      AdriftRunExactly(l, files, s, steps, p, last);
      assert steps[..n][..last] == steps[..last];
      if AdriftAfter(l, files, s, steps, p, last) {
        AdriftExactly(l, files, Run(l, files, s, steps[..last]), steps[last], p);
        assert AdriftAfter(l, files, s, steps, p, n) <==> !DriftEndsAt(l, files, s, steps, p, last);
      }
    }
  }

  // ---- One state per piece ----------------------------------------------------------

  ghost predicate Disjoint(s: State) {
    && s.chunks.queue !! s.chunks.have
    && s.chunks.queue !! s.inflight.Keys
    && s.chunks.queue !! s.verifying
    && s.inflight.Keys !! s.chunks.have
    && s.inflight.Keys !! s.verifying
    && s.verifying !! s.chunks.have
  }

  /** The exact condition under which one step keeps the four sets apart. */
  ghost predicate KeepsApart(l: Lengths, files: seq<FileInfo>, s: State, step: Step)
    requires l.Valid()
  {
    match step
    case Reserve(p, _, _) => p !in s.chunks.have && p !in s.verifying
    case HashOk(p) => p !in s.chunks.queue && p !in s.inflight
    case HashFailed(p) => p in s.chunks.have || p !in s.inflight
    case SelectFiles(only) =>
      SelectedBy(l, files, only) - s.chunks.selected - s.chunks.have !! s.inflight.Keys + s.verifying
    case _ => true
  }

  lemma ApartExactly(l: Lengths, files: seq<FileInfo>, s: State, step: Step)
    requires l.Valid() && Disjoint(s)
    ensures Disjoint(Apply(l, files, s, step)) <==> KeepsApart(l, files, s, step)
  {
  }

  ghost predicate DisjointAfter(l: Lengths, files: seq<FileInfo>, s: State, steps: seq<Step>, k: nat)
    requires l.Valid() && k <= |steps|
  {
    Disjoint(Run(l, files, s, steps[..k]))
  }

  ghost predicate KeptApartAt(l: Lengths, files: seq<FileInfo>, s: State, steps: seq<Step>, k: nat)
    requires l.Valid() && k < |steps|
  {
    KeepsApart(l, files, Run(l, files, s, steps[..k]), steps[k])
  }

  /** So over any run: the four sets are disjoint throughout if and only if every step keeps them
      apart. */
  lemma {:induction false} StatesStayDisjoint(l: Lengths, files: seq<FileInfo>, s: State, steps: seq<Step>, n: nat)
    requires l.Valid() && Disjoint(s) && n <= |steps|
    ensures (forall k :: 0 <= k <= n ==> DisjointAfter(l, files, s, steps, k)) <==>
            (forall k :: 0 <= k < n ==> KeptApartAt(l, files, s, steps, k))
  {
    if n == 0 {
      assert steps[..0] == [];
    } else {
      var last := n - 1;
      StatesStayDisjoint(l, files, s, steps, last);
      assert steps[..n][..last] == steps[..last];
      if DisjointAfter(l, files, s, steps, last) {
        ApartExactly(l, files, Run(l, files, s, steps[..last]), steps[last]);
        assert DisjointAfter(l, files, s, steps, n) <==> KeptApartAt(l, files, s, steps, last);
      }
    }
  }

  datatype Status = Have | Queued | InFlight | Verifying | NotNeeded

  predicate HasStatus(s: State, p: nat, status: Status) {
    match status
    case Have => p in s.chunks.have
    case Queued => p in s.chunks.queue
    case InFlight => p in s.inflight
    case Verifying => p in s.verifying
    case NotNeeded =>
      p !in s.chunks.selected && p !in s.chunks.have && p !in s.chunks.queue && p !in s.inflight && p !in s.verifying
  }

  ghost predicate OneStatus(s: State, p: nat) {
    && (exists status :: HasStatus(s, p, status))
    && (forall a, b :: HasStatus(s, p, a) && HasStatus(s, p, b) ==> a == b)
  }

  /** Every piece is in exactly one state. */
  ghost predicate OneStatusEach(s: State) {
    forall p: nat :: OneStatus(s, p)
  }

  lemma OneStatusIff(s: State)
    ensures OneStatusEach(s) <==> Disjoint(s) && NoneLost(s)
  {
    if Disjoint(s) && NoneLost(s) {
      forall p: nat
        ensures OneStatus(s, p)
      {
        HasOneStatus(s, p);
      }
    }
    if OneStatusEach(s) {
      forall p: nat
        ensures Needed(s, p) ==> p in s.chunks.queue || p in s.inflight || p in s.verifying
        ensures !(p in s.chunks.queue && p in s.chunks.have) && !(p in s.chunks.queue && p in s.inflight)
        ensures !(p in s.chunks.queue && p in s.verifying) && !(p in s.inflight && p in s.chunks.have)
        ensures !(p in s.inflight && p in s.verifying) && !(p in s.verifying && p in s.chunks.have)
      {
        StatusesOf(s, p);
      }
    }
  }

  lemma HasOneStatus(s: State, p: nat)
    requires Disjoint(s) && NoneLost(s)
    ensures OneStatus(s, p)
  {
    var status :=
      if p in s.chunks.have then Have else if p in s.chunks.queue then Queued
      else if p in s.inflight then InFlight else if p in s.verifying then Verifying else NotNeeded;
    assert status == NotNeeded ==> !Needed(s, p);
    assert HasStatus(s, p, status);
    assert p in s.chunks.queue ==> p !in s.chunks.have && p !in s.inflight.Keys && p !in s.verifying;
    assert p in s.inflight.Keys ==> p !in s.chunks.have && p !in s.verifying;
    assert p in s.verifying ==> p !in s.chunks.have;
  }

  lemma StatusesOf(s: State, p: nat)
    requires OneStatus(s, p)
    ensures Needed(s, p) ==> p in s.chunks.queue || p in s.inflight || p in s.verifying
    ensures !(p in s.chunks.queue && p in s.chunks.have) && !(p in s.chunks.queue && p in s.inflight)
    ensures !(p in s.chunks.queue && p in s.verifying) && !(p in s.inflight && p in s.chunks.have)
    ensures !(p in s.inflight && p in s.verifying) && !(p in s.verifying && p in s.chunks.have)
  {
    assert HasStatus(s, p, Have) <==> p in s.chunks.have;
    assert HasStatus(s, p, Queued) <==> p in s.chunks.queue;
    assert HasStatus(s, p, InFlight) <==> p in s.inflight;
    assert HasStatus(s, p, Verifying) <==> p in s.verifying;
  }

  lemma FreshHasOneStatus(l: Lengths, files: seq<FileInfo>, s: State)
    requires Tiles(l, files) && Fresh(l, files, s)
    ensures OneStatusEach(s)
  {
    OneStatusIff(s);
  }

  /** What a step must respect: it keeps the sets apart, and a pause catches no needed piece
      between its last chunk and its verdict. */
  ghost predicate KeepsStatus(l: Lengths, files: seq<FileInfo>, s: State, step: Step)
    requires l.Valid()
  {
    KeepsApart(l, files, s, step) && (step.Pause? ==> SafeToPause(s))
  }

  lemma StatusExactly(l: Lengths, files: seq<FileInfo>, s: State, step: Step)
    requires l.Valid() && OneStatusEach(s)
    ensures OneStatusEach(Apply(l, files, s, step)) <==> KeepsStatus(l, files, s, step)
  {
    OneStatusIff(s);
    OneStatusIff(Apply(l, files, s, step));
    ApartExactly(l, files, s, step);
    LosesNothingExactly(l, files, s, step);
  }

  ghost predicate OneStatusAfter(l: Lengths, files: seq<FileInfo>, s: State, steps: seq<Step>, k: nat)
    requires l.Valid() && k <= |steps|
  {
    OneStatusEach(Run(l, files, s, steps[..k]))
  }

  ghost predicate StatusKeptAt(l: Lengths, files: seq<FileInfo>, s: State, steps: seq<Step>, k: nat)
    requires l.Valid() && k < |steps|
  {
    KeepsStatus(l, files, Run(l, files, s, steps[..k]), steps[k])
  }

  /** Each piece is in exactly one state throughout a run if and only if every step respects this. */
  lemma {:induction false} ExactlyOneStatus(l: Lengths, files: seq<FileInfo>, s: State, steps: seq<Step>, n: nat)
    requires l.Valid() && OneStatusEach(s) && n <= |steps|
    ensures (forall k :: 0 <= k <= n ==> OneStatusAfter(l, files, s, steps, k)) <==>
            (forall k :: 0 <= k < n ==> StatusKeptAt(l, files, s, steps, k))
  {
    if n == 0 {
      assert steps[..0] == [];
    } else {
      var last := n - 1;
      ExactlyOneStatus(l, files, s, steps, last);
      assert steps[..n][..last] == steps[..last];
      if OneStatusAfter(l, files, s, steps, last) {
        StatusExactly(l, files, Run(l, files, s, steps[..last]), steps[last]);
        assert OneStatusAfter(l, files, s, steps, n) <==> StatusKeptAt(l, files, s, steps, last);
      }
    }
  }

  /** The exception is real: deselecting and reselecting the file of a piece that is in flight
      leaves that piece both in flight and queued for a second download. */
  lemma ReselectingDuplicates(l: Lengths, files: seq<FileInfo>, s: State, p: nat, only: set<nat>)
    requires Tiles(l, files) && Fresh(l, files, s)
    requires p in s.chunks.queue && p in SelectedBy(l, files, only)
    ensures var t := Run(l, files, s, [Reserve(p, 0, 0), SelectFiles({}), SelectFiles(only)]);
      p in t.inflight && p in t.chunks.queue
  {
    RunThree(l, files, s, Reserve(p, 0, 0), SelectFiles({}), SelectFiles(only));
    NothingChosen(files, p, |files|);
    assert p !in SelectedBy(l, files, {});
  }

  /** So is the other one: a priority piece may be reserved while its verdict is pending, and is
      then in flight and being verified at once. */
  lemma PriorityOverlapsCheck(l: Lengths, files: seq<FileInfo>, s: State, p: nat, peer: nat, now: nat)
    requires Tiles(l, files) && Fresh(l, files, s) && p in s.chunks.queue
    ensures var t := Run(l, files, s, [Reserve(p, peer, now), Take(p), Reserve(p, peer, now)]);
      p in t.inflight && p in t.verifying && !Disjoint(t)
  {
    RunThree(l, files, s, Reserve(p, peer, now), Take(p), Reserve(p, peer, now));
    assert p in Run(l, files, s, [Reserve(p, peer, now), Take(p), Reserve(p, peer, now)]).inflight.Keys;
  }

  lemma {:induction false} NothingChosen(files: seq<FileInfo>, p: nat, k: nat)
    requires k <= |files|
    ensures !WantedBefore(files, {}, k, p)
  {
    if k > 0 {
      NothingChosen(files, p, k - 1);
    }
  }
}
