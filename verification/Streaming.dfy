/** Streams reading files of a torrent that is still downloading. A stream that meets a missing
    piece registers a waker and parks; a completed piece wakes the streams waiting for it. */
module Streaming {
  import opened Prelude
  import opened Lengths
  import opened Files
  import opened Storage

  /** What the torrent knows about a stream. */
  datatype StreamState = StreamState(fileId: nat, fileOffset: nat, fileLen: nat, position: nat, waker: Option<nat>)

  /** The stream's own side. */
  datatype FileStream = FileStream(fileId: nat, fileOffset: nat, fileLen: nat, position: nat)

  datatype CurrentPiece = CurrentPiece(id: nat, remaining: nat)

  datatype Poll = Pending | Ready(data: seq<Byte>) | ReadyError

  datatype SeekFrom = Start(s: nat) | End(e: int) | Current(o: int)

  /** The piece under a position and how much of it is left. */
  function CurrentPieceAt(l: Lengths, position: nat, fileOffset: nat): Option<CurrentPiece>
    requires l.Valid()
  {
    var abs := fileOffset + position;
    var id := abs / l.pieceLength;
    if id < l.TotalPieces() && abs < l.PieceStart(id + 1) then Some(CurrentPiece(id, l.PieceStart(id + 1) - abs))
    else None
  }

  /** Inside the torrent, and only there, there is a current piece: the one the position lies in. */
  lemma CurrentPieceExactly(l: Lengths, position: nat, fileOffset: nat)
    requires l.Valid()
    ensures CurrentPieceAt(l, position, fileOffset).Some? <==> fileOffset + position < l.totalLength
    ensures CurrentPieceAt(l, position, fileOffset).Some? ==>
      var c, abs := CurrentPieceAt(l, position, fileOffset).value, fileOffset + position;
      c.id == abs / l.pieceLength && abs + c.remaining == Min((c.id + 1) * l.pieceLength, l.totalLength)
  {
    var abs := fileOffset + position;
    if abs < l.totalLength {
      PieceOfByte(l, abs, abs / l.pieceLength);
    }
  }

  /** A stream waits for a piece exactly when its waker is registered and its position lies in it. */
  lemma WaitsExactly(l: Lengths, st: StreamState, piece: nat)
    requires l.Valid()
    ensures WaitsFor(l, st, piece) <==> st.waker.Some? && InPiece(l, piece, st.fileOffset + st.position)
  {
    CurrentPieceExactly(l, st.position, st.fileOffset);
    if st.fileOffset + st.position < l.totalLength {
      PieceOfByte(l, st.fileOffset + st.position, piece);
    }
  }

  /** Inside a file there is always a current piece, it holds the position, and it is one the
      file lists. */
  lemma CurrentPieceExists(l: Lengths, position: nat, fileOffset: nat, fileLen: nat)
    requires l.Valid() && fileOffset + fileLen <= l.totalLength && position < fileLen
    ensures var c := CurrentPieceAt(l, position, fileOffset);
      && c.Some? && c.value.id < l.TotalPieces() && c.value.remaining > 0
      && l.PieceStart(c.value.id) <= fileOffset + position
      && fileOffset + position + c.value.remaining == l.PieceStart(c.value.id + 1)
  {
    var abs := fileOffset + position;
    var id := abs / l.pieceLength;
    DivSpec(abs, l.pieceLength, id);
    DivSpec(abs, l.pieceLength, id + 1);
    CeilDivSpec(l.totalLength, l.pieceLength, id);
  }

  /** A parked stream will be woken: its waker is registered and its piece is missing or has an
      announcement still to come. */
  ghost predicate WillBeWoken(l: Lengths, st: StreamState, have: set<nat>, unannounced: set<nat>)
    requires l.Valid()
  {
    && st.waker.Some?
    && CurrentPieceAt(l, st.position, st.fileOffset).Some?
    && (CurrentPieceAt(l, st.position, st.fileOffset).value.id !in have ||
        CurrentPieceAt(l, st.position, st.fileOffset).value.id in unannounced)
  }

  predicate StandsOnMissing(l: Lengths, st: StreamState, have: set<nat>)
    requires l.Valid()
  {
    var c := CurrentPieceAt(l, st.position, st.fileOffset);
    c.Some? && c.value.id !in have
  }

  predicate WaitsFor(l: Lengths, st: StreamState, piece: nat)
    requires l.Valid()
  {
    && CurrentPieceAt(l, st.position, st.fileOffset).Some?
    && CurrentPieceAt(l, st.position, st.fileOffset).value.id == piece
    && st.waker.Some?
  }

  function Waiting(l: Lengths, piece: nat): StreamState -> bool
    requires l.Valid()
  {
    st => WaitsFor(l, st, piece)
  }

  class TorrentStreams {
    var streams: map<nat, StreamState>
    var readers: map<nat, FileStream>
    var nextStreamId: nat
    ghost var parked: set<nat>   // streams whose last poll is pending and not yet woken

    constructor ()
      ensures streams == map[] && readers == map[] && parked == {} && nextStreamId == 0
    {
      streams, readers, parked, nextStreamId := map[], map[], {}, 0;
    }

    /** Both sides of every stream agree, and every stream lies inside the torrent. */
    ghost predicate Mirrored(l: Lengths)
      reads this
    {
      && l.Valid()
      && streams.Keys == readers.Keys && parked <= streams.Keys
      && (forall id :: id in streams ==> id < nextStreamId)
      && (forall id :: id in streams ==> SidesAgree(l, streams[id], readers[id]))
    }

    ghost predicate NoLostWakeup(l: Lengths, have: set<nat>, unannounced: set<nat>)
      requires l.Valid()
      reads this
    {
      forall id :: id in parked && id in streams ==> WillBeWoken(l, streams[id], have, unannounced)
    }

    ghost predicate Valid(l: Lengths, have: set<nat>, unannounced: set<nat>)
      reads this
    {
      Mirrored(l) && NoLostWakeup(l, have, unannounced)
    }

    /** Open a stream at the start of a file. */
    method Open(ghost l: Lengths, ghost have: set<nat>, ghost unannounced: set<nat>, fileId: nat, f: FileInfo)
      returns (id: nat)
      requires Valid(l, have, unannounced) && Placed(l, f)
      modifies this
      ensures Valid(l, have, unannounced) && parked == old(parked)
      ensures id !in old(streams) && id in streams && streams == old(streams)[id := streams[id]]
      ensures readers == old(readers)[id := FileStream(fileId, f.offset, f.len, 0)]
    {
      id := nextStreamId;
      nextStreamId := nextStreamId + 1;
      readers := readers[id := FileStream(fileId, f.offset, f.len, 0)];
      streams := streams[id := StreamState(fileId, f.offset, f.len, 0, None)];
    }

    method Drop(ghost l: Lengths, ghost have: set<nat>, ghost unannounced: set<nat>, id: nat)
      requires Valid(l, have, unannounced)
      modifies this
      ensures Valid(l, have, unannounced) && streams == old(streams) - {id} && parked == old(parked) - {id}
    {
      streams, readers, parked := streams - {id}, readers - {id}, parked - {id};
    }

    method RegisterWaker(id: nat, waker: nat)
      modifies this`streams
      ensures streams ==
        if id in old(streams) then old(streams)[id := old(streams)[id].(waker := Some(waker))] else old(streams)
    {
      if id in streams {
        streams := streams[id := streams[id].(waker := Some(waker))];
      }
    }

    /** Move both sides; a pending read of this stream is withdrawn by the move. */
    method SetPosition(ghost l: Lengths, ghost have: set<nat>, ghost unannounced: set<nat>, id: nat, position: nat)
      requires Valid(l, have, unannounced) && id in streams && position <= readers[id].fileLen
      modifies this`streams, this`readers, this`parked
      ensures Valid(l, have, unannounced) && parked == old(parked) - {id}
      ensures readers == old(readers)[id := old(readers)[id].(position := position)]
    {
      assert SidesAgree(l, streams[id], readers[id]);
      readers := readers[id := readers[id].(position := position)];
      streams := streams[id := streams[id].(position := position)];
      parked := parked - {id};
    }

    /** Seeks outside the file are refused and change nothing. */
    method StartSeek(ghost l: Lengths, ghost have: set<nat>, ghost unannounced: set<nat>, id: nat, to: SeekFrom)
      returns (ok: bool)
      requires Valid(l, have, unannounced) && id in streams
      modifies this`streams, this`readers, this`parked
      ensures Valid(l, have, unannounced)
      ensures var me := old(readers)[id];
        var target := match to case Start(s) => s case End(e) => me.fileLen + e case Current(o) => me.position + o;
        && (ok <==> 0 <= target <= me.fileLen)
        && readers == if ok then old(readers)[id := me.(position := target)] else old(readers)
      ensures !ok ==> streams == old(streams) && parked == old(parked)
    {
      var target := SeekTarget(readers[id], to);
      if target < 0 || target > readers[id].fileLen {
        return false;
      }
      SetPosition(l, have, unannounced, id, target);
      ok := true;
    }

    /** Poll a stream: at the end of the file it is ready with nothing; on a missing piece the
        check and the registration of the waker are one step and the stream parks; otherwise it
        yields bytes of the one piece it stands in, and moves past them. */
    method PollRead(l: Lengths, have: set<nat>, ghost unannounced: set<nat>, s: Storage, id: nat, waker: nat, room: nat)
      returns (r: Poll)
      requires Valid(l, have, unannounced) && id in streams
      modifies this`streams, this`readers, this`parked
      ensures Valid(l, have, unannounced)
      ensures PollAnswer(l, have, s, old(readers)[id], room, r)
      ensures r.Pending? ==> readers == old(readers) && parked == old(parked) + {id}
      ensures r.Ready? ==> id in readers && readers[id].position == old(readers)[id].position + |r.data|
      ensures r.ReadyError? ==> readers == old(readers)
    {
      var me := readers[id];
      assert SidesAgree(l, streams[id], me);
      if me.position == me.fileLen {
        parked := parked - {id};
        return Ready([]);
      }
      CurrentPieceExists(l, me.position, me.fileOffset, me.fileLen);
      var current := CurrentPieceAt(l, me.position, me.fileOffset).value;
      if current.id !in have {
        RegisterWaker(id, waker);
        parked := parked + {id};
        return Pending;
      }
      parked := parked - {id};
      var n := Wanted(me, current, room);
      var data := s.PreadExact(me.fileId, me.position, n);
      if data.None? {
        return ReadyError;
      }
      SetPosition(l, have, unannounced, id, me.position + n);
      return Ready(data.value);
    }

    /** Wake every stream whose current piece is the completed one. */
    method WakeStreamsOnPieceCompleted(l: Lengths, ghost have: set<nat>, ghost unannounced: set<nat>, piece: nat)
      returns (woken: set<nat>)
      requires Valid(l, have, unannounced) && l.Valid()
      modifies this`streams, this`parked
      ensures Valid(l, have, unannounced - {piece})
      ensures woken == set id | id in old(streams) && WaitsFor(l, old(streams)[id], piece)
      ensures forall id :: id in old(streams) ==>
        (id in woken <==>
          old(streams)[id].waker.Some? && InPiece(l, piece, old(streams)[id].fileOffset + old(streams)[id].position))
      ensures parked == old(parked) - woken
      ensures streams == map id | id in old(streams) ::
        if id in woken then old(streams)[id].(waker := None) else old(streams)[id]
    {
      ghost var before := streams;
      woken := WakeMatching(Waiting(l, piece));
      forall id | id in before
        ensures WaitsFor(l, before[id], piece) <==>
          before[id].waker.Some? && InPiece(l, piece, before[id].fileOffset + before[id].position)
      {
        WaitsExactly(l, before[id], piece);
      }
      parked := parked - woken;
      forall id | id in streams
        ensures SidesAgree(l, streams[id], readers[id])
      {
        assert SidesAgree(l, before[id], readers[id]);
      }
      forall id | id in parked && id in streams
        ensures WillBeWoken(l, streams[id], have, unannounced - {piece})
      {
        assert WillBeWoken(l, before[id], have, unannounced);
        StillWaiting(l, before[id], have, unannounced, piece);
      }
    }

    /** Take the waker of every stream that matches, in any order. */
    method WakeMatching(matches: StreamState -> bool) returns (woken: set<nat>)
      modifies this`streams
      ensures woken == set id | id in old(streams) && matches(old(streams)[id])
      ensures streams == map id | id in old(streams) ::
        if id in woken then old(streams)[id].(waker := None) else old(streams)[id]
    {
      ghost var before := streams;
      woken := {};
      var left := streams.Keys;
      while left != {}
        invariant left <= before.Keys == streams.Keys
        invariant woken == set id | id in before && id !in left && matches(before[id])
        invariant forall id :: id in before ==>
          streams[id] == if id in woken then before[id].(waker := None) else before[id]
        decreases left
      {
        var id :| id in left;
        left := left - {id};
        if matches(streams[id]) {
          woken := woken + {id};
          streams := streams[id := streams[id].(waker := None)];
        }
      }
    }

    /** A pause drops the announcements still to come. It strands exactly the parked streams that
        stand on a piece that is had. */
    lemma PauseStrandsNobodyIff(l: Lengths, have: set<nat>, unannounced: set<nat>)
      requires Valid(l, have, unannounced)
      ensures forall id :: id in parked && id in streams ==>
        (WillBeWoken(l, streams[id], have, {}) <==> StandsOnMissing(l, streams[id], have))
      ensures Valid(l, have, {}) <==>
        forall id :: id in parked && id in streams ==> StandsOnMissing(l, streams[id], have)
    {
      forall id | id in parked && id in streams
        ensures WillBeWoken(l, streams[id], have, {}) <==> StandsOnMissing(l, streams[id], have)
      {
        assert WillBeWoken(l, streams[id], have, unannounced);
      }
    }

    /** It can strand somebody: when the piece a parked stream stands on becomes had, nobody is
        stranded yet, but a pause before the announcement strands that stream. */
    lemma PauseMayStrand(l: Lengths, have: set<nat>, unannounced: set<nat>, id: nat)
      requires Valid(l, have, unannounced) && id in parked && id in streams && StandsOnMissing(l, streams[id], have)
      ensures var piece := CurrentPieceAt(l, streams[id].position, streams[id].fileOffset).value.id;
        && Valid(l, have + {piece}, unannounced + ({piece} - have))
        && !Valid(l, have + {piece}, {})
    {
      var piece := CurrentPieceAt(l, streams[id].position, streams[id].fileOffset).value.id;
      HavingStrandsNobody(l, have, unannounced, piece);
      PauseStrandsNobodyIff(l, have + {piece}, unannounced + ({piece} - have));
    }

    /** A piece becoming had, before it is announced, strands nobody. */
    lemma HavingStrandsNobody(l: Lengths, have: set<nat>, unannounced: set<nat>, piece: nat)
      requires Valid(l, have, unannounced)
      ensures Valid(l, have + {piece}, unannounced + ({piece} - have))
    {
    }
  }

  lemma StillWaiting(l: Lengths, st: StreamState, have: set<nat>, unannounced: set<nat>, piece: nat)
    requires l.Valid() && WillBeWoken(l, st, have, unannounced) && !WaitsFor(l, st, piece)
    ensures WillBeWoken(l, st, have, unannounced - {piece})
  {
  }

  ghost predicate SidesAgree(l: Lengths, st: StreamState, me: FileStream) {
    && st.position == me.position && st.fileId == me.fileId
    && st.fileOffset == me.fileOffset && st.fileLen == me.fileLen
    && me.position <= me.fileLen && me.fileOffset + me.fileLen <= l.totalLength
  }

  function SeekTarget(me: FileStream, to: SeekFrom): int {
    match to
    case Start(s) => s
    case End(e) => me.fileLen + e
    case Current(o) => me.position + o
  }

  /** How much a poll asks for: at most the room there is, what is left of the piece, and what is left
      of the file. */
  function Wanted(me: FileStream, c: CurrentPiece, room: nat): nat {
    Max(0, Min(Min(room, c.remaining), me.fileLen - me.position))
  }

  /** At the end of the file a poll is ready with nothing; inside it, it is pending exactly on a missing
      piece. On a piece that we have it gives the file's data at the position, none of it beyond the
      piece, or an error exactly if reading them there fails. */
  ghost predicate PollAnswer(l: Lengths, have: set<nat>, s: Storage, me: FileStream, room: nat, r: Poll)
    requires l.Valid()
    reads s
  {
    var c := CurrentPieceAt(l, me.position, me.fileOffset);
    if me.position == me.fileLen then r == Ready([])
    else if c.None? then r == ReadyError
    else if c.value.id !in have then r == Pending
    else
      var n := Wanted(me, c.value, room);
      if s.CanRead(me.fileId, me.position, n) then r == Ready(s.data[me.fileId][me.position..me.position + n])
      else r == ReadyError
  }

  lemma MultipleHasNoRest(k: nat, n: nat)
    requires n > 0
    ensures (k * n) % n == 0
  {
    DivSpec(k * n, n, k);
    DivSpec(k * n, n, k + 1);
    MulStep(k, n);
    assert k * n == (k * n / n) * n + (k * n) % n;
  }

  /** Every byte that a poll gives belongs to a piece that we have, and it gives as many as there is room
      for, up to the end of the file or of the piece. */
  lemma DataIsHad(l: Lengths, have: set<nat>, s: Storage, me: FileStream, room: nat, r: Poll, j: nat)
    requires l.Valid() && me.position <= me.fileLen && me.fileOffset + me.fileLen <= l.totalLength
    requires PollAnswer(l, have, s, me, room, r) && r.Ready?
    ensures |r.data| <= room && me.position + |r.data| <= me.fileLen
    ensures |r.data| < room && me.position + |r.data| < me.fileLen ==>
      |r.data| > 0 && (me.fileOffset + me.position + |r.data|) % l.pieceLength == 0
    ensures j < |r.data| ==>
      var c := CurrentPieceAt(l, me.position + j, me.fileOffset);
      c.Some? && c.value.id in have
  {
    if me.position < me.fileLen {
      CurrentPieceExists(l, me.position, me.fileOffset, me.fileLen);
      CurrentPieceExactly(l, me.position, me.fileOffset);
      var id := (me.fileOffset + me.position) / l.pieceLength;
      MultipleHasNoRest(id + 1, l.pieceLength);
      if j < |r.data| {
        CurrentPieceExists(l, me.position + j, me.fileOffset, me.fileLen);
        var abs := me.fileOffset + me.position;
        DivSpec(abs, l.pieceLength, abs / l.pieceLength);
        DivSpec(abs + j, l.pieceLength, abs / l.pieceLength);
        DivSpec(abs + j, l.pieceLength, abs / l.pieceLength + 1);
      }
    }
  }
}
