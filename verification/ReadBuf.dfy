/** The ring buffer that messages are read into. Every operation is described by what it does
    to the queue of bytes the buffer holds, never by where in the ring they lie. */
module ReadBuf {
  import opened Prelude

  const BUFLEN: nat := 0x8000

  /** A byte source: hands over what is pending in pieces of any size. Which reads fail is an
      arbitrary function of their number. */
  class Connection {
    var pending: seq<Byte>
    var made: nat   // reads made so far
    const readFails: nat -> bool

    constructor (bytes: seq<Byte>, rf: nat -> bool)
      ensures pending == bytes && made == 0 && readFails == rf
    {
      pending, made, readFails := bytes, 0, rf;
    }

    /** A read was made after the first `n`, and the last one failed. */
    predicate FailedSince(n: nat)
      reads this
    {
      n < made && readFails(made - 1)
    }

    /** Read at most `capacity` bytes; nothing only at end of stream or for lack of room. */
    method Read(capacity: nat) returns (r: Option<seq<Byte>>)
      modifies this
      ensures made == old(made) + 1 && (r.None? <==> readFails(old(made)))
      ensures r.None? ==> pending == old(pending)
      ensures r.Some? ==> |r.value| <= capacity && r.value + pending == old(pending)
      ensures r.Some? && r.value == [] ==> capacity == 0 || pending == []
    {
      made := made + 1;
      if readFails(made - 1) {
        return None;
      }
      var most := Min(capacity, |pending|);
      assert 0 <= most <= most;
      var n :| 0 <= n <= most && (n == 0 ==> most == 0);
      r := Some(pending[..n]);
      pending := pending[n..];
    }
  }

  datatype Parse<M> =
    | Parsed(message: M, size: nat)
    | NotEnoughData(need: nat)
    | NeedContiguous
    | Malformed

  datatype ReadError =
    | BugMakeContiguous
    | BufferFull(need: nat)
    | ReadFailed
    | Disconnected
    | Deserialize

  datatype Outcome<+M> = Message(message: M) | Failed(error: ReadError)

  // ---- Ring arithmetic --------------------------------------------------------------

  datatype Span = Span(lo: nat, hi: nat) {
    function Len(): nat {
      SaturatingSub(hi, lo)
    }

    predicate Has(i: nat) {
      lo <= i < hi
    }
  }

  /** The two slices holding the data. */
  function FilledSpans(start: nat, len: nat): (Span, Span) {
    var l := Min(len, BUFLEN);
    var s := Min(start, BUFLEN);
    var firstLen := Min(l, BUFLEN - s);
    (Span(s, s + firstLen), Span(0, SaturatingSub(l, firstLen)))
  }

  /** The two slices new data is read into. */
  function UnfilledSpans(start: nat, len: nat): (Span, Span) {
    var writeStart := (start + len) % BUFLEN;
    var available := SaturatingSub(BUFLEN, len);
    var firstLen := Min(SaturatingSub(BUFLEN, writeStart), available);
    var secondLen := SaturatingSub(available, firstLen);
    (Span(writeStart, writeStart + Min(firstLen, BUFLEN - writeStart)), Span(0, Min(secondLen, writeStart)))
  }

  /** Filled and unfilled slices are disjoint and together make up the whole buffer. */
  lemma SpansPartition(start: nat, len: nat)
    requires start < BUFLEN && len <= BUFLEN
    ensures var (f, g), (u, v) := FilledSpans(start, len), UnfilledSpans(start, len);
      && f.hi <= BUFLEN && g.hi <= BUFLEN && u.hi <= BUFLEN && v.hi <= BUFLEN
      && f.Len() + g.Len() == len && u.Len() + v.Len() == BUFLEN - len
      && forall i :: 0 <= i < BUFLEN ==>
           (if f.Has(i) then 1 else 0) + (if g.Has(i) then 1 else 0) +
           (if u.Has(i) then 1 else 0) + (if v.Has(i) then 1 else 0) == 1
  {
  }

  /** A position at most one lap ahead, brought back into the buffer. */
  function Wrap(x: nat): nat {
    if x < BUFLEN then x else x - BUFLEN
  }

  lemma WrapIsMod(x: nat)
    requires x < 2 * BUFLEN
    ensures Wrap(x) == x % BUFLEN
  {
  }

  /** The data as positions around the ring. */
  function Ring(b: seq<Byte>, start: nat, len: nat): (r: seq<Byte>)
    requires |b| == BUFLEN && start < BUFLEN && len <= BUFLEN
    ensures |r| == len
  {
    if len == 0 then [] else Ring(b, start, len - 1) + [b[Wrap(start + len - 1)]]
  }

  lemma {:induction false} RingAt(b: seq<Byte>, start: nat, len: nat)
    requires |b| == BUFLEN && start < BUFLEN && len <= BUFLEN
    ensures forall i :: 0 <= i < len ==> Ring(b, start, len)[i] == b[Wrap(start + i)]
  {
    if len > 0 {
      RingAt(b, start, len - 1);
    }
  }

  lemma RingIsSpans(b: seq<Byte>, start: nat, len: nat)
    requires |b| == BUFLEN && start < BUFLEN && len <= BUFLEN
    ensures var (f, g) := FilledSpans(start, len);
      f.hi <= BUFLEN && g.hi <= BUFLEN && b[f.lo..f.hi] + b[g.lo..g.hi] == Ring(b, start, len)
  {
    RingAt(b, start, len);
  }

  lemma RingTail(b: seq<Byte>, start: nat, len: nat, n: nat)
    requires |b| == BUFLEN && start < BUFLEN && n <= len <= BUFLEN
    ensures Ring(b, start, len)[n..] == Ring(b, (start + n) % BUFLEN, len - n)
  {
    WrapIsMod(start + n);
    RingAt(b, start, len);
    RingAt(b, Wrap(start + n), len - n);
  }

  lemma AdvanceRing(b: seq<Byte>, start: nat, len: nat, n: nat)
    requires |b| == BUFLEN && start < BUFLEN && len <= BUFLEN
    ensures Ring(b, start, len)[Min(n, len)..] == Ring(b, (start + n) % BUFLEN, SaturatingSub(len, n))
  {
    if n <= len {
      RingTail(b, start, len, n);
    }
  }

  lemma SplitOff(a: seq<Byte>, b: seq<Byte>, k: nat)
    requires k <= |b|
    ensures a + b == (a + b[..k]) + b[k..]
  {
  }

  lemma RingFromZero(b: seq<Byte>, len: nat)
    requires |b| == BUFLEN && len <= BUFLEN
    ensures Ring(b, 0, len) == b[..len]
    ensures FilledSpans(0, len).1.Len() == 0
  {
    RingAt(b, 0, len);
  }

  /** Queue position `i` is outside the free slices while it is filled, and otherwise is the
      `i - len`-th cell of the two free slices taken in order. */
  lemma PositionOf(start: nat, len: nat, i: nat)
    requires start < BUFLEN && len <= BUFLEN && i < BUFLEN
    ensures var (u, v), at := UnfilledSpans(start, len), Wrap(start + i);
      if i < len then !u.Has(at) && !v.Has(at)
      else if i - len < u.Len() then at == u.lo + (i - len)
      else at == v.lo + (i - len - u.Len()) && !u.Has(at)
  {
    WrapIsMod(start + len);
  }

  /** Cell `i` after `bytes` were stored in `u` and, from where it is full, in `v`. */
  ghost predicate StoredAt(b: seq<Byte>, b': seq<Byte>, u: Span, v: Span, bytes: seq<Byte>, i: nat)
    requires i < |b| == |b'|
  {
    var k := Min(|bytes|, u.Len());
    b'[i] ==
      if u.lo <= i < u.lo + k then bytes[i - u.lo]
      else if v.lo <= i < v.lo + |bytes| - k then bytes[k + i - v.lo]
      else b[i]
  }

  /** Bytes stored in the free slices, in order, extend the queue. */
  lemma RingGrows(b: seq<Byte>, b': seq<Byte>, start: nat, len: nat, bytes: seq<Byte>)
    requires |b| == |b'| == BUFLEN && start < BUFLEN && len + |bytes| <= BUFLEN
    requires var (u, v) := UnfilledSpans(start, len);
      forall i :: 0 <= i < BUFLEN ==> StoredAt(b, b', u, v, bytes, i)
    ensures Ring(b', start, len + |bytes|) == Ring(b, start, len) + bytes
  {
    RingAt(b, start, len);
    RingAt(b', start, len + |bytes|);
    var (u, v) := UnfilledSpans(start, len);
    var r, r', n := Ring(b, start, len), Ring(b', start, len + |bytes|), |bytes|;
    forall i | 0 <= i < len
      ensures r'[i] == r[i]
    {
      PositionOf(start, len, i);
      assert StoredAt(b, b', u, v, bytes, Wrap(start + i));
    }
    forall i | len <= i < len + n
      ensures r'[i] == bytes[i - len]
    {
      PositionOf(start, len, i);
      assert StoredAt(b, b', u, v, bytes, Wrap(start + i));
    }
  }

  // ---- Parsers and answers ----------------------------------------------------------

  /** A parser that never asks for zero more bytes, asks for one slice only when there are two,
      and takes no more than it was given. */
  ghost predicate Reasonable<M>(parse: (seq<Byte>, seq<Byte>) -> Parse<M>) {
    forall a, b ::
      && (parse(a, b).NotEnoughData? ==> parse(a, b).need > 0)
      && (parse(a, b).NeedContiguous? ==> b != [])
      && (parse(a, b).Parsed? ==> parse(a, b).size <= |a| + |b|)
  }

  ghost predicate ParsesTo<M>(parse: (seq<Byte>, seq<Byte>) -> Parse<M>, a: seq<Byte>, b: seq<Byte>, all: seq<Byte>,
      m: M, rest: seq<Byte>)
  {
    && a + b == all && parse(a, b).Parsed? && parse(a, b).message == m
    && parse(a, b).size <= |all| && rest == all[parse(a, b).size..]
  }

  /** From `held` and what arrived of `pending`: a message parsed from all of it, with only the
      message's bytes removed, or a failure that removes nothing. */
  ghost predicate ReadAnswer<M>(held: seq<Byte>, pending: seq<Byte>, parse: (seq<Byte>, seq<Byte>) -> Parse<M>,
                                r: Outcome<M>, held': seq<Byte>, pending': seq<Byte>)
  {
    && |pending'| <= |pending| && pending' == pending[|pending| - |pending'|..]
    && var all := held + pending[..|pending| - |pending'|];
       match r
       case Message(m) => exists a, b :: ParsesTo(parse, a, b, all, m, held')
       case Failed(_) => held' == all
  }

  /** The handshake is parsed from what one read delivers and only its bytes are removed. There is none,
      and everything read stays, exactly if the read failed, delivered nothing because the stream had
      ended, or delivered no handshake. */
  ghost predicate HandshakeAnswer<H>(pending: seq<Byte>, readFailed: bool, parse: seq<Byte> -> Option<(H, nat)>,
      r: Option<H>, held': seq<Byte>, pending': seq<Byte>)
    requires forall s :: parse(s).Some? ==> parse(s).value.1 <= |s|
  {
    && |pending'| <= |pending| && pending' == pending[|pending| - |pending'|..]
    && var got := pending[..|pending| - |pending'|];
       (readFailed ==> got == []) && (!readFailed && got == [] ==> pending == []) &&
       match r
       case Some(h) =>
         !readFailed && got != [] && parse(got).Some? && h == parse(got).value.0 && held' == got[parse(got).value.1..]
       case None => (readFailed || got == [] || parse(got).None?) && held' == got
  }

  /** Why a failure came about: the parser refused the bytes held; or it asked for more bytes than have
      come since, at the end of the stream or with the ring full; or a read failed. */
  ghost predicate FailureCause<M>(parse: (seq<Byte>, seq<Byte>) -> Parse<M>, e: ReadError, readFailed: bool,
      held': seq<Byte>, pending': seq<Byte>)
  {
    match e
    case Deserialize => exists a, b :: a + b == held' && parse(a, b).Malformed?
    case BufferFull(_) => |held'| == BUFLEN && Lacks(parse, held')
    case Disconnected => pending' == [] && Lacks(parse, held')
    case ReadFailed => readFailed
    case BugMakeContiguous => false
  }

  /** The parser asked for more bytes than have come since. */
  ghost predicate Lacks<M>(parse: (seq<Byte>, seq<Byte>) -> Parse<M>, held': seq<Byte>) {
    exists a, b, c :: LacksAfter(parse, a, b, c, held')
  }

  ghost predicate LacksAfter<M>(parse: (seq<Byte>, seq<Byte>) -> Parse<M>, a: seq<Byte>, b: seq<Byte>, c: seq<Byte>,
      held': seq<Byte>)
  {
    a + b + c == held' && parse(a, b).NotEnoughData? && |c| < parse(a, b).need
  }

  class ReadBuf {
    const buf: array<Byte>
    var start: nat
    var len: nat
    ghost var contents: seq<Byte>   // the bytes held, oldest first
    ghost var received: seq<Byte>   // everything ever read into the buffer
    ghost var consumed: seq<Byte>   // everything ever taken out of it

    ghost predicate Valid()
      reads this, buf
    {
      && buf.Length == BUFLEN
      && start < BUFLEN && len <= BUFLEN
      && contents == Ring(buf[..], start, len) && |contents| == len
      && received == consumed + contents
    }

    constructor ()
      ensures Valid() && fresh(buf) && contents == [] && received == []
    {
      buf := new Byte[BUFLEN](_ => 0);
      start, len, contents, received, consumed := 0, 0, [], [], [];
    }

    predicate IsContiguous()
      reads this
    {
      start + len == (start + len) % BUFLEN
    }

    predicate IsFull()
      reads this
    {
      len == BUFLEN
    }

    /** Drop bytes from the front; asking for too many empties the buffer. */
    method Advance(n: nat)
      requires Valid()
      modifies this
      ensures Valid() && received == old(received)
      ensures contents == old(contents)[Min(n, old(len))..]
      ensures consumed == old(consumed) + old(contents)[..Min(n, old(len))]
    {
      ghost var k: nat := Min(n, len);
      AdvanceRing(buf[..], start, len, n);
      SplitOff(consumed, contents, k);
      len := SaturatingSub(len, n);
      start := (start + n) % BUFLEN;
      contents, consumed := contents[k..], consumed + contents[..k];
    }

    /** Scatter bytes from the connection into the free slices. */
    method ReadMore(conn: Connection) returns (size: Option<nat>)
      requires Valid() && conn as object != this && conn as object != buf
      modifies this, buf, conn
      ensures Valid() && start == old(start) && consumed == old(consumed)
      ensures conn.made == old(conn.made) + 1 && (size.None? <==> conn.readFails(old(conn.made)))
      ensures size.None? ==> contents == old(contents) && conn.pending == old(conn.pending) && len == old(len)
      ensures size.Some? ==>
        && len == old(len) + size.value
        && size.value <= |old(conn.pending)|
        && conn.pending == old(conn.pending)[size.value..]
        && contents == old(contents) + old(conn.pending)[..size.value]
        && (size.value == 0 ==> old(len) == BUFLEN || old(conn.pending) == [])
    {
      var (u, v) := UnfilledSpans(start, len);
      SpansPartition(start, len);
      var r := conn.Read(u.Len() + v.Len());
      if r.None? {
        return None;
      }
      Store(u, v, r.value);
      assert old(conn.pending)[..|r.value|] == r.value;
      return Some(|r.value|);
    }

    /** Take in bytes that fit the free slices. */
    method Store(u: Span, v: Span, bytes: seq<Byte>)
      requires Valid() && (u, v) == UnfilledSpans(start, len) && |bytes| <= BUFLEN - len
      modifies this`len, this`contents, this`received, buf
      ensures Valid() && len == old(len) + |bytes| && contents == old(contents) + bytes
    {
      SpansPartition(start, len);
      Scatter(u, v, bytes);
      RingGrows(old(buf[..]), buf[..], start, len, bytes);
      assert consumed + (contents + bytes) == (consumed + contents) + bytes;
      len, contents, received := len + |bytes|, contents + bytes, received + bytes;
    }

    /** Store bytes in the first span and, when it is full, in the second. */
    method Scatter(u: Span, v: Span, bytes: seq<Byte>)
      requires buf.Length == BUFLEN && u.hi <= BUFLEN && v.hi <= BUFLEN && v.lo == 0 && (v.hi == 0 || v.hi <= u.lo)
      requires |bytes| <= u.Len() + v.Len()
      modifies buf
      ensures forall i :: 0 <= i < BUFLEN ==> StoredAt(old(buf[..]), buf[..], u, v, bytes, i)
    {
      var k := Min(|bytes|, u.Len());
      forall j | 0 <= j < k {
        buf[u.lo + j] := bytes[j];
      }
      forall j | 0 <= j < |bytes| - k {
        buf[v.lo + j] := bytes[k + j];
      }
    }

    /** Move the data to the front so that it is one slice. */
    method MakeContiguous() returns (ok: bool)
      requires Valid()
      modifies this, buf
      ensures Valid() && received == old(received) && consumed == old(consumed) && len == old(len)
      ensures ok <==> old(start) + old(len) >= BUFLEN
      ensures contents == old(contents)
      ensures ok ==> start == 0 && FilledSpans(start, len).1.Len() == 0
      ensures ok ==> forall i :: len <= i < BUFLEN ==> buf[i] == 0
      ensures !ok ==> start == old(start)
    {
      if IsContiguous() {
        return false;
      }
      var (f, g) := FilledSpans(start, len);
      SpansPartition(start, len);
      RingIsSpans(buf[..], start, len);
      var data := buf[f.lo..f.hi] + buf[g.lo..g.hi];
      assert data == contents;
      CopyToFront(data);
      RingFromZero(buf[..], len);
      start := 0;
      ok := true;
    }

    /** Overwrite the buffer with `data` followed by zeros. */
    method CopyToFront(data: seq<Byte>)
      requires buf.Length == BUFLEN && |data| <= BUFLEN
      modifies buf
      ensures buf[..|data|] == data
      ensures forall i :: |data| <= i < BUFLEN ==> buf[i] == 0
    {
      forall i | 0 <= i < BUFLEN {
        buf[i] := if i < |data| then data[i] else 0;
      }
    }

    /** Read the handshake: one read into the empty buffer, which must hold all of it. */
    method ReadHandshake<H>(conn: Connection, parse: seq<Byte> -> Option<(H, nat)>) returns (r: Option<H>)
      requires Valid() && start == 0 && len == 0 && conn as object != this && conn as object != buf
      requires forall s :: parse(s).Some? ==> parse(s).value.1 <= |s|
      modifies this, buf, conn
      ensures Valid()
      ensures conn.made == old(conn.made) + 1
      ensures HandshakeAnswer(old(conn.pending), conn.FailedSince(old(conn.made)), parse, r, contents, conn.pending)
    {
      ghost var was := conn.pending;
      var size := ReadMore(conn);
      if size.None? {
        assert was[..0] == [] && was[0..] == was;
        return None;
      }
      ghost var got := was[..size.value];
      assert contents == got;
      if len == 0 {
        return None;
      }
      RingFromZero(buf[..], len);
      var h := parse(buf[..len]);
      if h.None? {
        return None;
      }
      Advance(h.value.1);
      return Some(h.value.0);
    }

    /** Read until a whole message can be parsed. */
    method ReadMessage<M>(conn: Connection, parse: (seq<Byte>, seq<Byte>) -> Parse<M>)
      returns (r: Outcome<M>, ghost linearised: nat)
      requires Valid() && conn as object != this && conn as object != buf
      requires Reasonable(parse)
      modifies this, buf, conn
      ensures Valid() && linearised <= 1
      ensures ReadAnswer(old(contents), old(conn.pending), parse, r, contents, conn.pending)
      ensures r.Failed? ==> consumed == old(consumed)
      ensures r.Failed? ==> FailureCause(parse, r.error, conn.FailedSince(old(conn.made)), contents, conn.pending)
      ensures conn.made >= old(conn.made)
    {
      ghost var held, pending := contents, conn.pending;
      linearised := 0;
      while true
        invariant Valid() && consumed == old(consumed)
        invariant linearised <= 1 && (linearised == 1 ==> start == 0)
        invariant |held| <= |contents| && contents + conn.pending == held + pending
        invariant conn.made >= old(conn.made)
        decreases BUFLEN - len, 1 - linearised
      {
        var first, second := Slices();
        ghost var all := contents;
        match parse(first, second)
        case Parsed(message, size) =>
          Advance(size);
          AnswerMessage(held, pending, parse, first, second, all, message, contents, conn.pending);
          return Message(message), linearised;
        case NotEnoughData(need) =>
          var failure := ReadAtLeast(conn, need);
          if failure.Some? {
            if failure != Some(ReadFailed) {
              StillLacks(parse, first, second, contents);
            }
            AnswerFailure(held, pending, parse, failure.value, contents, conn.pending);
            return Failed(failure.value), linearised;
          }
        case NeedContiguous =>
          var ok := MakeContiguous();
          assert ok;
          linearised := linearised + 1;
        case Malformed =>
          assert first + second == contents && parse(first, second).Malformed?;
          AnswerFailure(held, pending, parse, Deserialize, contents, conn.pending);
          return Failed(Deserialize), linearised;
      }
    }

    /** The data as the parser sees it. */
    method Slices() returns (first: seq<Byte>, second: seq<Byte>)
      requires Valid()
      ensures first + second == contents
      ensures second != [] ==> start > 0 && start + len >= BUFLEN
    {
      RingIsSpans(buf[..], start, len);
      var (f, g) := FilledSpans(start, len);
      return buf[f.lo..f.hi], buf[g.lo..g.hi];
    }

    /** Keep reading until `need` more bytes have arrived. */
    method ReadAtLeast(conn: Connection, need: nat) returns (failure: Option<ReadError>)
      requires Valid() && conn as object != this && conn as object != buf
      modifies this, buf, conn
      ensures Valid() && consumed == old(consumed) && start == old(start)
      ensures contents + conn.pending == old(contents + conn.pending) && len >= old(len) && |contents| == len
      ensures failure.None? ==> len >= old(len) + need
      ensures failure.Some? ==> failure.value.BufferFull? || failure.value.ReadFailed? || failure.value.Disconnected?
      ensures failure == Some(Disconnected) ==> conn.pending == []
      ensures failure.Some? && failure.value.BufferFull? ==> len == BUFLEN && failure.value.need > 0
      ensures failure == Some(ReadFailed) ==> conn.FailedSince(old(conn.made))
      ensures failure.Some? && failure != Some(ReadFailed) ==> len < old(len) + need
      ensures conn.made >= old(conn.made) && contents[..old(len)] == old(contents)
    {
      ghost var stream := contents + conn.pending;
      var missing := need;
      while missing > 0
        invariant Valid() && consumed == old(consumed) && start == old(start)
        invariant len >= old(len) && missing == SaturatingSub(need, len - old(len))
        invariant contents + conn.pending == stream && conn.made >= old(conn.made)
        invariant contents[..old(len)] == old(contents)
        decreases missing
      {
        if IsFull() {
          return Some(BufferFull(missing));
        }
        ghost var held, pending := contents, conn.pending;
        var size := ReadMore(conn);
        if size.None? {
          return Some(ReadFailed);
        }
        assert contents + conn.pending == held + (pending[..size.value] + pending[size.value..]);
        if size.value == 0 {
          return Some(Disconnected);
        }
        missing := SaturatingSub(missing, size.value);
      }
      return None;
    }
  }

  /** What is held now is what was held plus what left the connection. */
  lemma StreamSplit(held: seq<Byte>, pending: seq<Byte>, held': seq<Byte>, pending': seq<Byte>)
    requires held + pending == held' + pending' && |held| <= |held'|
    ensures |pending'| <= |pending|
    ensures pending' == pending[|pending| - |pending'|..]
    ensures held' == held + pending[..|pending| - |pending'|]
  {
    var k := |pending| - |pending'|;
    assert |held'| == |held| + k;
    assert pending' == (held' + pending')[|held'|..];
    assert held' == (held + pending)[..|held'|];
  }

  lemma StillLacks<M>(parse: (seq<Byte>, seq<Byte>) -> Parse<M>, a: seq<Byte>, b: seq<Byte>, held': seq<Byte>)
    requires |a + b| <= |held'| && held'[..|a + b|] == a + b
    requires parse(a, b).NotEnoughData? && |held'| < |a + b| + parse(a, b).need
    ensures Lacks(parse, held')
  {
    assert LacksAfter(parse, a, b, held'[|a + b|..], held');
  }

  lemma AnswerMessage<M>(held: seq<Byte>, pending: seq<Byte>, parse: (seq<Byte>, seq<Byte>) -> Parse<M>, a: seq<Byte>,
      b: seq<Byte>, all: seq<Byte>, m: M, held': seq<Byte>, pending': seq<Byte>)
    requires all + pending' == held + pending && |held| <= |all|
    requires ParsesTo(parse, a, b, all, m, held')
    ensures ReadAnswer(held, pending, parse, Message(m), held', pending')
  {
    StreamSplit(held, pending, all, pending');
  }

  lemma AnswerFailure<M>(held: seq<Byte>, pending: seq<Byte>, parse: (seq<Byte>, seq<Byte>) -> Parse<M>, e: ReadError,
                         held': seq<Byte>, pending': seq<Byte>)
    requires held' + pending' == held + pending && |held| <= |held'|
    ensures ReadAnswer(held, pending, parse, Failed(e), held', pending')
  {
    StreamSplit(held, pending, held', pending');
  }

  // ---- Framing over many messages ---------------------------------------------------

  type Framer<M> = seq<Byte> -> Option<(M, nat)>

  /** `frame` says what the first message of a stream is, independently of how much more of the
      stream is known, and `parse` finds that message however the bytes are split in two. */
  ghost predicate Frames<M>(frame: Framer<M>, parse: (seq<Byte>, seq<Byte>) -> Parse<M>) {
    && (forall s, t :: frame(s).Some? ==> frame(s).value.1 <= |s| && frame(s + t) == frame(s))
    && (forall a, b :: parse(a, b).Parsed? ==> frame(a + b) == Some((parse(a, b).message, parse(a, b).size)))
  }

  /** The parser misses nothing: a message is recognised from its own bytes, bytes are refused only if
      no message begins with them, and more bytes are asked for only if fewer would not complete one. */
  ghost predicate Complete<M>(frame: Framer<M>, parse: (seq<Byte>, seq<Byte>) -> Parse<M>) {
    && (forall s :: frame(s).Some? ==> frame(s).value.1 <= |s| && frame(s[..frame(s).value.1]) == frame(s))
    && (forall a, b, c :: parse(a, b).Malformed? ==> frame(a + b + c).None?)
    && (forall a, b, c :: parse(a, b).NotEnoughData? && |c| < parse(a, b).need ==> frame(a + b + c).None?)
  }

  /** Why reading stops: a read failed, the stream holds no further message, or its next message is
      longer than the ring. */
  ghost predicate StopsBecause<M>(frame: Framer<M>, e: ReadError, readFailed: bool, rest: seq<Byte>,
      pending': seq<Byte>)
  {
    match e
    case ReadFailed => readFailed
    case Disconnected => pending' == [] && frame(rest).None?
    case BufferFull(_) => frame(rest).Some? ==> frame(rest).value.1 > BUFLEN
    case Deserialize => frame(rest).None?
    case BugMakeContiguous => false
  }

  /** The first `k` messages of a stream and how many bytes they take. */
  ghost function FirstMessages<M>(frame: Framer<M>, stream: seq<Byte>, k: nat): Option<(seq<M>, nat)> {
    if k == 0 then Some(([], 0))
    else
      match FirstMessages(frame, stream, k - 1)
      case None => None
      case Some((ms, used)) =>
        if used > |stream| then None
        else
          match frame(stream[used..])
          case None => None
          case Some((m, n)) => Some((ms + [m], used + n))
  }

  /** Read up to `count` messages one after another. The messages are the first ones of the
      stream: they do not depend on how the bytes arrived or where the ring stood. */
  method ReadMessages<M>(rb: ReadBuf, conn: Connection, parse: (seq<Byte>, seq<Byte>) -> Parse<M>,
      ghost frame: Framer<M>, count: nat)
    returns (messages: seq<M>, failure: Option<ReadError>)
    requires rb.Valid() && conn as object != rb && conn as object != rb.buf
    requires Reasonable(parse) && Frames(frame, parse)
    modifies rb, rb.buf, conn
    ensures rb.Valid() && |messages| <= count && (failure.None? <==> |messages| == count)
    ensures var stream := old(rb.contents + conn.pending);
      exists used: nat :: used <= |stream| && FirstMessages(frame, stream, |messages|) == Some((messages, used)) &&
        rb.contents + conn.pending == stream[used..]
    ensures failure.Some? && Complete(frame, parse) ==>
      StopsBecause(frame, failure.value, conn.FailedSince(old(conn.made)), rb.contents + conn.pending, conn.pending)
    ensures var stream, rest := old(rb.contents + conn.pending), rb.contents + conn.pending;
      failure.Some? && Complete(frame, parse) && FirstMessages(frame, stream, count).Some? ==>
        && frame(rest).Some?
        && (if failure == Some(ReadFailed) then conn.FailedSince(old(conn.made)) else frame(rest).value.1 > BUFLEN)
  {
    ghost var stream := rb.contents + conn.pending;
    ghost var used: nat := 0;
    messages := [];
    while |messages| < count
      invariant rb.Valid() && |messages| <= count && used <= |stream|
      invariant FirstMessages(frame, stream, |messages|) == Some((messages, used))
      invariant rb.contents + conn.pending == stream[used..] && conn.made >= old(conn.made)
      decreases count - |messages|
    {
      ghost var held, pending := rb.contents, conn.pending;
      var r, _ := rb.ReadMessage(conn, parse);
      if r.Failed? {
        StreamKept(held, pending, parse, r, rb.contents, conn.pending);
        if Complete(frame, parse) {
          CauseOfStop(frame, parse, r.error, conn.FailedSince(old(conn.made)), rb.contents, conn.pending);
          if FirstMessages(frame, stream, count).Some? {
            NextIsFramed(frame, stream, |messages|, count);
          }
        }
        return messages, Some(r.error);
      }
      used := NextMessage(frame, parse, stream, messages, used, held, pending, r.message, rb.contents, conn.pending);
      messages := messages + [r.message];
    }
    return messages, None;
  }

  /** With a parser that misses nothing, what a failure says is true of the stream. */
  lemma CauseOfStop<M>(frame: Framer<M>, parse: (seq<Byte>, seq<Byte>) -> Parse<M>, e: ReadError, readFailed: bool,
      held: seq<Byte>, pending: seq<Byte>)
    requires Frames(frame, parse) && Complete(frame, parse) && FailureCause(parse, e, readFailed, held, pending)
    ensures StopsBecause(frame, e, readFailed, held + pending, pending)
  {
    match e
    case Deserialize =>
      var a, b :| a + b == held && parse(a, b).Malformed?;
      assert a + b + pending == held + pending;
    case Disconnected =>
      LacksMeansNone(frame, parse, held);
      assert held + pending == held;
    case BufferFull(_) =>
      LacksMeansNone(frame, parse, held);
      if frame(held + pending).Some? && frame(held + pending).value.1 <= BUFLEN {
        FramedByPrefix(frame, parse, held, pending);
      }
    case ReadFailed =>
  }

  lemma LacksMeansNone<M>(frame: Framer<M>, parse: (seq<Byte>, seq<Byte>) -> Parse<M>, held: seq<Byte>)
    requires Complete(frame, parse) && Lacks(parse, held)
    ensures frame(held).None?
  {
    var a, b, c :| LacksAfter(parse, a, b, c, held);
    assert frame(a + b + c).None?;
  }

  /** A message whose bytes are all held is recognised from the bytes held. */
  lemma FramedByPrefix<M>(frame: Framer<M>, parse: (seq<Byte>, seq<Byte>) -> Parse<M>, held: seq<Byte>,
      pending: seq<Byte>)
    requires Frames(frame, parse) && Complete(frame, parse)
    requires frame(held + pending).Some? && frame(held + pending).value.1 <= |held|
    ensures frame(held) == frame(held + pending)
  {
    var n := frame(held + pending).value.1;
    assert (held + pending)[..n] == held[..n];
    assert held == held[..n] + held[n..];
    assert frame(held[..n] + held[n..]) == frame(held[..n]);
  }

  /** If the stream holds `count` messages, one follows any fewer. */
  lemma {:induction false} NextIsFramed<M>(frame: Framer<M>, stream: seq<Byte>, k: nat, count: nat)
    requires k < count && FirstMessages(frame, stream, count).Some?
    ensures FirstMessages(frame, stream, k).Some?
    ensures var used := FirstMessages(frame, stream, k).value.1;
      used <= |stream| && frame(stream[used..]).Some?
    decreases count
  {
    if k < count - 1 {
      NextIsFramed(frame, stream, k, count - 1);
    }
  }

  /** A failure leaves the stream as it was. */
  lemma StreamKept<M>(held: seq<Byte>, pending: seq<Byte>, parse: (seq<Byte>, seq<Byte>) -> Parse<M>, r: Outcome<M>,
      held': seq<Byte>, pending': seq<Byte>)
    requires ReadAnswer(held, pending, parse, r, held', pending')
    ensures r.Failed? ==> held' + pending' == held + pending
  {
  }

  /** One successful answer is the first message of the stream and removes just its bytes. */
  lemma OneMessage<M>(frame: Framer<M>, parse: (seq<Byte>, seq<Byte>) -> Parse<M>, held: seq<Byte>, pending: seq<Byte>,
      m: M, held': seq<Byte>, pending': seq<Byte>)
    returns (n: nat)
    requires Frames(frame, parse) && ReadAnswer(held, pending, parse, Message(m), held', pending')
    ensures frame(held + pending) == Some((m, n)) && n <= |held + pending|
    ensures held' + pending' == (held + pending)[n..]
  {
    var all := held + pending[..|pending| - |pending'|];
    var a, b :| ParsesTo(parse, a, b, all, m, held');
    n := parse(a, b).size;
    assert frame(a + b) == Some((m, n));
    assert held + pending == all + pending';
    assert frame(all + pending') == frame(all);
  }

  /** ... so it continues the list of the stream's first messages. */
  lemma NextMessage<M>(frame: Framer<M>, parse: (seq<Byte>, seq<Byte>) -> Parse<M>, stream: seq<Byte>, messages: seq<M>,
      used: nat, held: seq<Byte>, pending: seq<Byte>, m: M, held': seq<Byte>, pending': seq<Byte>)
    returns (used': nat)
    requires used <= |stream| && FirstMessages(frame, stream, |messages|) == Some((messages, used))
    requires held + pending == stream[used..]
    requires Frames(frame, parse) && ReadAnswer(held, pending, parse, Message(m), held', pending')
    ensures used' <= |stream| && held' + pending' == stream[used'..]
    ensures FirstMessages(frame, stream, |messages + [m]|) == Some((messages + [m], used'))
  {
    var n := OneMessage(frame, parse, held, pending, m, held', pending');
    used' := used + n;
    assert stream[used..][n..] == stream[used'..];
  }
}
