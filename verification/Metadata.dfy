/** Reassembling a torrent's metadata from the pieces a peer sends (BEP 9). */
module Metadata {
  import opened Prelude
  import opened Lengths

  const MAX_METADATA: nat := 32 * 1024 * 1024
  const U32_LIMIT: nat := 0x1_0000_0000

  function PieceCount(metadataSize: nat): nat {
    CeilDiv(metadataSize, CHUNK_SIZE)
  }

  /** Every piece is a full chunk but the last, which is what remains. */
  function PieceSize(metadataSize: nat, index: nat): nat {
    if index + 1 == PieceCount(metadataSize)
    then if metadataSize % CHUNK_SIZE == 0 then CHUNK_SIZE else metadataSize % CHUNK_SIZE
    else CHUNK_SIZE
  }

  /** Pieces tile the buffer, and below the size limit no offset overflows 32 bits. */
  lemma MetadataPiecesTile(metadataSize: nat, index: nat)
    requires index < PieceCount(metadataSize)
    ensures index * CHUNK_SIZE < metadataSize
    ensures 0 < PieceSize(metadataSize, index) <= CHUNK_SIZE
    ensures index * CHUNK_SIZE + PieceSize(metadataSize, index) == Min((index + 1) * CHUNK_SIZE, metadataSize)
    ensures index + 1 == PieceCount(metadataSize) <==>
      index * CHUNK_SIZE + PieceSize(metadataSize, index) == metadataSize
    ensures metadataSize <= MAX_METADATA ==> index * CHUNK_SIZE + PieceSize(metadataSize, index) < U32_LIMIT
  {
  }

  datatype Received = Received(index: nat, data: seq<Byte>)

  /** The piece exists, has the right length, and is new. */
  predicate Accepts(metadataSize: nat, before: map<nat, seq<Byte>>, a: Received) {
    a.index < PieceCount(metadataSize) && |a.data| == PieceSize(metadataSize, a.index) && a.index !in before
  }

  predicate AllReceived(count: nat, parts: map<nat, seq<Byte>>) {
    forall i :: 0 <= i < count ==> i in parts
  }

  /** What a sequence of deliveries records: the first acceptable delivery of each piece. */
  ghost function Recorded(metadataSize: nat, arrivals: seq<Received>): map<nat, seq<Byte>> {
    if arrivals == [] then map[]
    else
      var before := Recorded(metadataSize, arrivals[..|arrivals| - 1]);
      var a := arrivals[|arrivals| - 1];
      if Accepts(metadataSize, before, a) then before[a.index := a.data] else before
  }

  /** Delivery `k` is accepted and does not complete the metadata. */
  ghost predicate GoesOn(metadataSize: nat, arrivals: seq<Received>, k: nat)
    requires k < |arrivals|
  {
    && AcceptedAt(metadataSize, arrivals, k)
    && !AllReceived(PieceCount(metadataSize), Recorded(metadataSize, arrivals[..k + 1]))
  }

  /** None of the first `n` deliveries is refused or completes the metadata. */
  ghost predicate GoneOn(metadataSize: nat, arrivals: seq<Received>, n: nat)
    requires n <= |arrivals|
  {
    n > 0 ==> GoneOn(metadataSize, arrivals, n - 1) && GoesOn(metadataSize, arrivals, n - 1)
  }

  /** The payloads of the first `k` pieces, in order. */
  ghost function Assembled(parts: map<nat, seq<Byte>>, k: nat): seq<Byte>
    requires forall i :: 0 <= i < k ==> i in parts
  {
    if k == 0 then [] else Assembled(parts, k - 1) + parts[k - 1]
  }

  class MetadataBuffer<D(==)> {
    const metadataSize: nat
    const totalPieces: nat
    const buffer: array<Byte>
    const receivedPieces: array<bool>
    ghost var parts: map<nat, seq<Byte>>   // what each recorded piece carried

    ghost predicate Valid()
      reads this, buffer, receivedPieces
    {
      && metadataSize <= MAX_METADATA && totalPieces == PieceCount(metadataSize)
      && buffer.Length == metadataSize && receivedPieces.Length == totalPieces
      && (forall i :: 0 <= i < totalPieces ==> (receivedPieces[i] <==> i in parts))
      && (forall i :: i in parts ==> Holds(i))
    }

    /** The region of piece `i` holds exactly its payload. */
    ghost predicate Holds(i: nat)
      requires i in parts
      reads this, buffer
    {
      Genuine(buffer[..], Received(i, parts[i]))
    }

    constructor (size: nat)
      requires size <= MAX_METADATA
      ensures Valid() && metadataSize == size && parts == map[] && fresh(buffer) && fresh(receivedPieces)
    {
      metadataSize, totalPieces := size, PieceCount(size);
      buffer := new Byte[size](_ => 0);
      receivedPieces := new bool[PieceCount(size)](_ => false);
      parts := map[];
    }

    /** A metadata size above the limit is refused. */
    static method New(size: nat) returns (r: Result<MetadataBuffer<D>>)
      ensures r.Err? <==> size > MAX_METADATA
      ensures r.Ok? ==> fresh(r.value) && r.value.Valid() && r.value.metadataSize == size && r.value.parts == map[]
    {
      if size > MAX_METADATA {
        return Err("metadata size is too big");
      }
      var b := new MetadataBuffer<D>(size);
      return Ok(b);
    }

    /** Record one piece. Every region is written at most once; the answer is "complete" only
        when the buffer is the in-order concatenation of everything received and has the
        expected hash. */
    method RecordPiece(piece: nat, data: seq<Byte>, sha1: seq<Byte> -> D, infoHash: D) returns (r: Result<bool>)
      requires Valid()
      modifies this`parts, buffer, receivedPieces
      ensures Valid()
      ensures Accepts(metadataSize, old(parts), Received(piece, data)) <==>
        && piece * CHUNK_SIZE < metadataSize && piece !in old(parts)
        && |data| == Min(CHUNK_SIZE, metadataSize - piece * CHUNK_SIZE)
      ensures Accepts(metadataSize, old(parts), Received(piece, data)) ==> parts == old(parts)[piece := data]
      ensures !Accepts(metadataSize, old(parts), Received(piece, data)) ==>
        r.Err? && parts == old(parts) && buffer[..] == old(buffer[..])
      ensures r == Ok(true) ==>
        AllReceived(totalPieces, parts) && sha1(buffer[..]) == infoHash && buffer[..] == Assembled(parts, totalPieces)
      ensures r == Ok(false) ==> !AllReceived(totalPieces, parts)
      ensures Accepts(metadataSize, old(parts), Received(piece, data)) && r.Err? ==>
        AllReceived(totalPieces, parts) && sha1(buffer[..]) != infoHash
    {
      CeilDivSpec(metadataSize, CHUNK_SIZE, piece);
      if piece >= totalPieces {
        return Err("wrong index");
      }
      MetadataPiecesTile(metadataSize, piece);
      assert piece * CHUNK_SIZE < U32_LIMIT;
      if |data| != PieceSize(metadataSize, piece) {
        return Err("unexpected piece length");
      }
      if receivedPieces[piece] {
        return Err("already received");
      }
      StorePiece(piece, data);
      if forall i :: 0 <= i < totalPieces ==> receivedPieces[i] {
        FullBuffer();
        if sha1(buffer[..]) != infoHash {
          return Err("info checksum invalid");
        }
        return Ok(true);
      }
      return Ok(false);
    }

    /** Copy an acceptable piece to its region and mark it received. */
    method StorePiece(piece: nat, data: seq<Byte>)
      requires Valid() && piece < totalPieces && |data| == PieceSize(metadataSize, piece) && piece !in parts
      modifies this`parts, buffer, receivedPieces
      ensures Valid() && parts == old(parts)[piece := data]
    {
      MetadataPiecesTile(metadataSize, piece);
      var offset := piece * CHUNK_SIZE;
      ghost var was := buffer[..];
      forall j | 0 <= j < |data| {
        buffer[offset + j] := data[j];
      }
      receivedPieces[piece] := true;
      PartsKept(was, buffer[..], parts, piece, data);
      parts := parts[piece := data];
    }

    /** Feed the deliveries one by one, until one is refused or completes the metadata: an error
        ends the connection, completion ends the exchange. `n` is the number of deliveries used. */
    method ReceiveAll(arrivals: seq<Received>, sha1: seq<Byte> -> D, infoHash: D) returns (r: Result<bool>, n: nat)
      requires Valid() && parts == map[]
      modifies this`parts, buffer, receivedPieces
      ensures Valid() && n <= |arrivals| && parts == Recorded(metadataSize, arrivals[..n])
      ensures Outcome(metadataSize, arrivals, sha1, infoHash, r, n, buffer[..])
    {
      r, n := Ok(false), 0;
      FullBuffer();
      while n < |arrivals| && r == Ok(false)
        invariant Valid() && n <= |arrivals| && parts == Recorded(metadataSize, arrivals[..n])
        invariant Progress(metadataSize, arrivals, sha1, infoHash, r, n, buffer[..])
      {
        r := RecordNext(arrivals, n, sha1, infoHash);
        n := n + 1;
      }
    }

    /** Record delivery `n`. */
    method RecordNext(arrivals: seq<Received>, n: nat, sha1: seq<Byte> -> D, infoHash: D) returns (r: Result<bool>)
      requires Valid() && n < |arrivals| && parts == Recorded(metadataSize, arrivals[..n])
      requires GoneOn(metadataSize, arrivals, n)
      modifies this`parts, buffer, receivedPieces
      ensures Valid() && parts == Recorded(metadataSize, arrivals[..n + 1])
      ensures Progress(metadataSize, arrivals, sha1, infoHash, r, n + 1, buffer[..])
    {
      var a := arrivals[n];
      assert a == Received(a.index, a.data);
      r := RecordPiece(a.index, a.data, sha1, infoHash);
      RecordedOneMore(metadataSize, arrivals, n);
      FullBuffer();
    }

    lemma FullBuffer()
      requires Valid()
      ensures AllReceived(totalPieces, parts) ==> buffer[..] == Assembled(parts, totalPieces)
    {
      if AllReceived(totalPieces, parts) {
        assert forall i :: i in parts ==> Holds(i);
        AssembledIsPrefix(buffer[..], parts, totalPieces);
        AllOfBuffer(metadataSize);
        assert buffer[..] == buffer[..][..metadataSize];
      }
    }
  }

  lemma RecordedOneMore(metadataSize: nat, arrivals: seq<Received>, n: nat)
    requires n < |arrivals|
    ensures var before := Recorded(metadataSize, arrivals[..n]);
      Recorded(metadataSize, arrivals[..n + 1]) ==
        if Accepts(metadataSize, before, arrivals[n]) then before[arrivals[n].index := arrivals[n].data] else before
  {
    assert arrivals[..n + 1][..n] == arrivals[..n];
  }

  /** Where feeding the deliveries stands after `n` of them, when the last answer is `r`. */
  ghost predicate Progress<D>(metadataSize: nat, arrivals: seq<Received>, sha1: seq<Byte> -> D, infoHash: D,
      r: Result<bool>, n: nat, buffer: seq<Byte>)
    requires n <= |arrivals|
  {
    var parts, count := Recorded(metadataSize, arrivals[..n]), PieceCount(metadataSize);
    && (AllReceived(count, parts) ==> buffer == Assembled(parts, count))
    && (r == Ok(false) ==> GoneOn(metadataSize, arrivals, n))
    && (r != Ok(false) ==> n > 0 && GoneOn(metadataSize, arrivals, n - 1))
    && (r == Ok(true) ==>
          AcceptedAt(metadataSize, arrivals, n - 1) && AllReceived(count, parts) && sha1(buffer) == infoHash)
    && (r.Err? && AcceptedAt(metadataSize, arrivals, n - 1) ==> AllReceived(count, parts) && sha1(buffer) != infoHash)
  }

  /** How it may end: refused, complete, or out of deliveries. */
  ghost predicate Outcome<D>(metadataSize: nat, arrivals: seq<Received>, sha1: seq<Byte> -> D, infoHash: D,
      r: Result<bool>, n: nat, buffer: seq<Byte>)
  {
    && n <= |arrivals|
    && Progress(metadataSize, arrivals, sha1, infoHash, r, n, buffer)
    && (r == Ok(false) ==> n == |arrivals|)
  }

  ghost predicate AcceptedAt(metadataSize: nat, arrivals: seq<Received>, k: nat)
    requires k < |arrivals|
  {
    Accepts(metadataSize, Recorded(metadataSize, arrivals[..k]), arrivals[k])
  }

  /** The delivery is a real piece of the right length. */
  predicate FitsRegion(metadataSize: nat, a: Received) {
    a.index * CHUNK_SIZE < metadataSize && |a.data| == Min(CHUNK_SIZE, metadataSize - a.index * CHUNK_SIZE)
  }

  /** The exchange goes on only while each delivery is a real piece of the right length that none before
      it was, and only until there is one of each. */
  lemma {:induction false} GoesOnWithNews(metadataSize: nat, arrivals: seq<Received>, n: nat)
    requires n <= |arrivals| && GoneOn(metadataSize, arrivals, n)
    ensures forall k :: 0 <= k < n ==> FitsRegion(metadataSize, arrivals[k])
    ensures forall j, k :: 0 <= j < k < n ==> arrivals[j].index != arrivals[k].index
    ensures forall i :: i in Recorded(metadataSize, arrivals[..n]) <==> Arrives(i, arrivals[..n])
    ensures n > 0 ==> !AllArrive(metadataSize, arrivals[..n])
  {
    if n > 0 {
      var last := n - 1;
      GoesOnWithNews(metadataSize, arrivals, last);
      RecordedOneMore(metadataSize, arrivals, last);
      CeilDivSpec(metadataSize, CHUNK_SIZE, arrivals[last].index);
      MetadataPiecesTile(metadataSize, arrivals[last].index);
      forall i: nat
        ensures Arrives(i, arrivals[..n]) <==> Arrives(i, arrivals[..last]) || i == arrivals[last].index
      {
        ArrivesOneMore(i, arrivals, last);
      }
      forall j | 0 <= j < last
        ensures Arrives(arrivals[j].index, arrivals[..last])
      {
        assert arrivals[..last][j] == arrivals[j];
      }
    }
  }

  /** Different pieces have disjoint regions, so storing one keeps the others. */
  lemma OtherRegionKept(was: seq<Byte>, now: seq<Byte>, piece: nat, data: seq<Byte>, other: Received)
    requires piece * CHUNK_SIZE + |data| == Min((piece + 1) * CHUNK_SIZE, |was|)
    requires now == was[..piece * CHUNK_SIZE] + data + was[piece * CHUNK_SIZE + |data|..]
    requires Genuine(was, other) && other.index != piece
    ensures Genuine(now, other)
  {
    SliceKept(was, now, piece * CHUNK_SIZE, data, other.index * CHUNK_SIZE, Min((other.index + 1) * CHUNK_SIZE, |was|));
  }

  /** Storing a new piece leaves every recorded piece in place and puts the new one in its own. */
  lemma PartsKept(was: seq<Byte>, now: seq<Byte>, parts: map<nat, seq<Byte>>, piece: nat, data: seq<Byte>)
    requires |now| == |was| && piece !in parts && piece * CHUNK_SIZE < |was|
    requires piece * CHUNK_SIZE + |data| == Min((piece + 1) * CHUNK_SIZE, |was|)
    requires forall j :: 0 <= j < |was| ==>
      now[j] == if piece * CHUNK_SIZE <= j < piece * CHUNK_SIZE + |data| then data[j - piece * CHUNK_SIZE] else was[j]
    requires forall i :: i in parts ==> Genuine(was, Received(i, parts[i]))
    ensures Genuine(now, Received(piece, data))
    ensures forall i :: i in parts ==> Genuine(now, Received(i, parts[i]))
  {
    Splice(was, now, piece * CHUNK_SIZE, data);
    forall i | i in parts
      ensures Genuine(now, Received(i, parts[i]))
    {
      OtherRegionKept(was, now, piece, data, Received(i, parts[i]));
    }
  }

  lemma Splice(was: seq<Byte>, now: seq<Byte>, at: nat, data: seq<Byte>)
    requires |now| == |was| && at + |data| <= |was|
    requires forall j :: 0 <= j < |was| ==> now[j] == if at <= j < at + |data| then data[j - at] else was[j]
    ensures now == was[..at] + data + was[at + |data|..] && now[at..at + |data|] == data
  {
  }

  lemma SliceKept(was: seq<Byte>, now: seq<Byte>, at: nat, data: seq<Byte>, lo: nat, hi: nat)
    requires at + |data| <= |was| && now == was[..at] + data + was[at + |data|..]
    requires lo <= hi <= |was| && (hi <= at || at + |data| <= lo)
    ensures now[lo..hi] == was[lo..hi]
  {
  }

  lemma AllOfBuffer(metadataSize: nat)
    ensures Min(PieceCount(metadataSize) * CHUNK_SIZE, metadataSize) == metadataSize
  {
    if PieceCount(metadataSize) > 0 {
      MetadataPiecesTile(metadataSize, PieceCount(metadataSize) - 1);
    }
  }

  // ---- Any order of arrival ---------------------------------------------------------

  /** The region of the metadata that piece `index` covers. */
  function Region(info: seq<Byte>, index: nat): seq<Byte>
    requires index * CHUNK_SIZE <= |info|
  {
    info[index * CHUNK_SIZE..Min((index + 1) * CHUNK_SIZE, |info|)]
  }

  ghost predicate Genuine(info: seq<Byte>, a: Received) {
    a.index * CHUNK_SIZE < |info| && a.data == Region(info, a.index)
  }

  /** Genuine pieces, in any order and however often repeated, assemble to the original. */
  lemma GenuinePiecesAssemble(info: seq<Byte>, arrivals: seq<Received>)
    requires forall k :: 0 <= k < |arrivals| ==> Genuine(info, arrivals[k])
    requires AllReceived(PieceCount(|info|), Recorded(|info|, arrivals))
    ensures Assembled(Recorded(|info|, arrivals), PieceCount(|info|)) == info
  {
    RecordedGenuine(info, arrivals);
    AssembledIsPrefix(info, Recorded(|info|, arrivals), PieceCount(|info|));
    AllOfBuffer(|info|);
  }

  lemma {:induction false} RecordedGenuine(info: seq<Byte>, arrivals: seq<Received>)
    requires forall k :: 0 <= k < |arrivals| ==> Genuine(info, arrivals[k])
    ensures forall i :: i in Recorded(|info|, arrivals) ==> Genuine(info, Received(i, Recorded(|info|, arrivals)[i]))
  {
    if arrivals != [] {
      RecordedGenuine(info, arrivals[..|arrivals| - 1]);
    }
  }

  lemma {:induction false} AssembledIsPrefix(info: seq<Byte>, parts: map<nat, seq<Byte>>, k: nat)
    requires k <= PieceCount(|info|)
    requires forall i :: 0 <= i < PieceCount(|info|) ==> i in parts
    requires forall i :: i in parts ==> Genuine(info, Received(i, parts[i]))
    ensures Assembled(parts, k) == info[..Min(k * CHUNK_SIZE, |info|)]
  {
    if k > 0 {
      AssembledIsPrefix(info, parts, k - 1);
      MetadataPiecesTile(|info|, k - 1);
      assert Genuine(info, Received(k - 1, parts[k - 1]));
      assert info[..(k - 1) * CHUNK_SIZE] + Region(info, k - 1) == info[..Min(k * CHUNK_SIZE, |info|)];
    }
  }

  /** The deliveries are genuine pieces of `info`, none twice. */
  ghost predicate OncePerPiece(info: seq<Byte>, arrivals: seq<Received>) {
    && (forall k :: 0 <= k < |arrivals| ==> Genuine(info, arrivals[k]))
    && (forall j, k :: 0 <= j < k < |arrivals| ==> arrivals[j].index != arrivals[k].index)
  }

  ghost predicate Arrives(i: nat, arrivals: seq<Received>) {
    exists k :: 0 <= k < |arrivals| && arrivals[k].index == i
  }

  ghost predicate AllArrive(metadataSize: nat, arrivals: seq<Received>) {
    forall i :: 0 <= i < PieceCount(metadataSize) ==> Arrives(i, arrivals)
  }

  /** So feeding a peer's deliveries to a new buffer succeeds whenever it should: with genuine
      pieces, none twice, there is no error, and the metadata is complete, and is the original,
      exactly when every piece arrives (and there is one). */
  lemma GenuineDeliveriesComplete<D>(info: seq<Byte>, arrivals: seq<Received>, sha1: seq<Byte> -> D, infoHash: D,
      r: Result<bool>, n: nat, buffer: seq<Byte>)
    requires OncePerPiece(info, arrivals) && sha1(info) == infoHash
    requires Outcome(|info|, arrivals, sha1, infoHash, r, n, buffer)
    ensures r.Ok? && (r.value <==> info != [] && AllArrive(|info|, arrivals)) && (r.value ==> buffer == info)
  {
    AllArriveIff(info, arrivals, n);
    if AllReceived(PieceCount(|info|), Recorded(|info|, arrivals[..n])) {
      GenuinePiecesAssemble(info, arrivals[..n]);
    }
    if r == Ok(false) {
      assert arrivals[..n] == arrivals;
      if n > 0 {
        assert GoesOn(|info|, arrivals, n - 1);
      }
    } else {
      OnceIsAccepted(info, arrivals, n - 1);
    }
  }

  lemma AllArriveIff(info: seq<Byte>, arrivals: seq<Received>, n: nat)
    requires OncePerPiece(info, arrivals) && n <= |arrivals|
    ensures AllReceived(PieceCount(|info|), Recorded(|info|, arrivals[..n])) <==> AllArrive(|info|, arrivals[..n])
    ensures AllArrive(|info|, arrivals[..n]) ==> AllArrive(|info|, arrivals)
    ensures n == 0 && info != [] ==> !AllArrive(|info|, arrivals[..n])
  {
    OnceMeansRecorded(info, arrivals, n);
    forall i: nat | Arrives(i, arrivals[..n])
      ensures Arrives(i, arrivals)
    {
      var k :| 0 <= k < n && arrivals[..n][k].index == i;
      assert arrivals[k].index == i;
    }
    if n == 0 {
      assert !Arrives(0, arrivals[..n]);
    }
  }

  /** Of genuine pieces, none twice, each is recorded ... */
  lemma {:induction false} OnceMeansRecorded(info: seq<Byte>, arrivals: seq<Received>, n: nat)
    requires OncePerPiece(info, arrivals) && n <= |arrivals|
    ensures forall i :: i in Recorded(|info|, arrivals[..n]) <==> Arrives(i, arrivals[..n])
    decreases n, 0
  {
    if n > 0 {
      OnceMeansRecorded(info, arrivals, n - 1);
      assert arrivals[..n][..n - 1] == arrivals[..n - 1];
      OnceIsAccepted(info, arrivals, n - 1);
      forall i: nat
        ensures Arrives(i, arrivals[..n]) <==> Arrives(i, arrivals[..n - 1]) || i == arrivals[n - 1].index
      {
        ArrivesOneMore(i, arrivals, n - 1);
      }
    }
  }

  lemma ArrivesOneMore(i: nat, arrivals: seq<Received>, n: nat)
    requires n < |arrivals|
    ensures Arrives(i, arrivals[..n + 1]) <==> Arrives(i, arrivals[..n]) || i == arrivals[n].index
  {
    var before, after := arrivals[..n], arrivals[..n + 1];
    if i == arrivals[n].index {
      assert after[n].index == i;
    }
    if k :| 0 <= k < |before| && before[k].index == i {
      assert after[k].index == i;
    }
  }

  /** ... and the next one is accepted. */
  lemma {:induction false} OnceIsAccepted(info: seq<Byte>, arrivals: seq<Received>, n: nat)
    requires OncePerPiece(info, arrivals) && n < |arrivals|
    ensures AcceptedAt(|info|, arrivals, n) && info != []
    decreases n, 1
  {
    OnceMeansRecorded(info, arrivals, n);
    assert Genuine(info, arrivals[n]);
    GenuineSize(info, arrivals[n]);
    assert !Arrives(arrivals[n].index, arrivals[..n]);
  }

  lemma GenuineSize(info: seq<Byte>, a: Received)
    requires Genuine(info, a)
    ensures a.index < PieceCount(|info|) && |a.data| == PieceSize(|info|, a.index)
  {
    CeilDivSpec(|info|, CHUNK_SIZE, a.index);
    MetadataPiecesTile(|info|, a.index);
  }
}
