/** The order in which several streams' wanted pieces are offered: each stream in turn. */
module Interleave {
  import opened Prelude
  import opened Lengths

  const PER_STREAM_BUF: nat := 32 * 1024 * 1024

  // ---- What one stream wants --------------------------------------------------------

  /** The pieces from the stream's position to the end of its look-ahead. */
  function StreamQueue(l: Lengths, fileOffset: nat, fileLen: nat, position: nat): seq<nat>
    requires l.Valid()
  {
    var start := fileOffset + position;
    var end := Min(start + PER_STREAM_BUF, fileOffset + fileLen);
    var (startId, endId) := (start / l.pieceLength, CeilDiv(Max(end, 0), l.pieceLength));
    ValidRange(startId, Min(endId, l.TotalPieces()))
  }

  function ValidRange(lo: nat, hi: int): seq<nat> {
    if hi <= lo then [] else seq(hi - lo, i requires 0 <= i => lo + i)
  }

  /** The pieces that share a byte with the window of `n` bytes from `start`, in order. */
  ghost predicate IsWindow(l: Lengths, q: seq<nat>, start: nat, n: nat) {
    && (forall i, j :: 0 <= i < j < |q| ==> q[i] < q[j])
    && (forall p :: p in q <==> l.SizeOfPieceInFile(p, start, n) > 0)
  }

  /** A stream wants exactly the pieces that share a byte with its look-ahead, except that one
      standing at the end of its file still wants a piece when the file ends inside one. */
  lemma StreamQueueIsWindow(l: Lengths, fileOffset: nat, fileLen: nat, position: nat)
    requires l.Valid() && fileOffset + fileLen <= l.totalLength && position <= fileLen
    ensures var q := StreamQueue(l, fileOffset, fileLen, position);
      && (IsWindow(l, q, fileOffset + position, Min(PER_STREAM_BUF, fileLen - position)) <==>
          position < fileLen || (fileOffset + fileLen) % l.pieceLength == 0)
      && (position == fileLen && (fileOffset + fileLen) % l.pieceLength != 0 ==>
          q == [(fileOffset + fileLen) / l.pieceLength])
  {
    if position < fileLen {
      InsideIsWindow(l, fileOffset, fileLen, position);
    } else {
      AtEndWantsOne(l, fileOffset + fileLen);
      var q := StreamQueue(l, fileOffset, fileLen, position);
      if q != [] {
        assert q[0] in q;
      }
    }
  }

  lemma InsideIsWindow(l: Lengths, fileOffset: nat, fileLen: nat, position: nat)
    requires l.Valid() && fileOffset + fileLen <= l.totalLength && position < fileLen
    ensures var q := StreamQueue(l, fileOffset, fileLen, position);
      IsWindow(l, q, fileOffset + position, Min(PER_STREAM_BUF, fileLen - position))
  {
    var q := StreamQueue(l, fileOffset, fileLen, position);
    var start, n := fileOffset + position, Min(PER_STREAM_BUF, fileLen - position);
    var lo, hi := l.FirstPieceOf(start), l.EndPieceOf(start, n);
    forall p: nat
      ensures p in q <==> l.SizeOfPieceInFile(p, start, n) > 0
    {
      PieceInFileRange(l, p, start, n);
      if lo <= p < hi {
        assert q[p - lo] == p;
      }
    }
  }

  lemma AtEndWantsOne(l: Lengths, end: nat)
    requires l.Valid() && end <= l.totalLength
    ensures var wanted := ValidRange(end / l.pieceLength, Min(CeilDiv(end, l.pieceLength), l.TotalPieces()));
      wanted == if end % l.pieceLength == 0 then [] else [end / l.pieceLength]
  {
    var q := end / l.pieceLength;
    assert end == q * l.pieceLength + end % l.pieceLength;
    CeilDivSpec(end, l.pieceLength, q);
    MulStep(q, l.pieceLength);
    CeilDivSpec(end, l.pieceLength, q + 1);
    CeilDivSpec(end, l.pieceLength, l.TotalPieces());
    CeilDivSpec(l.totalLength, l.pieceLength, l.TotalPieces());
  }

  // ---- Taking turns -----------------------------------------------------------------

  /** The interleaver: a deque of queues; the front one gives a piece and goes to the back. */
  class Interleaver {
    var all: seq<seq<nat>>

    constructor (queues: seq<seq<nat>>)
      ensures all == queues
    {
      all := queues;
    }

    method Next() returns (r: Option<nat>)
      modifies this
      ensures r.None? ==> Drain(old(all)) == []
      ensures r.Some? ==> Drain(old(all)) == [r.value] + Drain(all)
      ensures r.Some? ==> Size(all) < Size(old(all))
    {
      while all != []
        invariant Drain(all) == Drain(old(all)) && Size(all) == Size(old(all))
        decreases |all|
      {
        var it := all[0];
        all := all[1..];
        if it != [] {
          SizeAppend(all, it[1..]);
          all := all + [it[1..]];
          return Some(it[0]);
        }
      }
      return None;
    }

    /** Call `Next` until it gives nothing. */
    method Collect() returns (out: seq<nat>)
      modifies this
      ensures out == Drain(old(all))
    {
      ghost var rest := Drain(all);
      out := [];
      while true
        invariant out + Drain(all) == rest
        decreases Size(all)
      {
        var r := Next();
        if r.None? {
          return;
        }
        out := out + [r.value];
      }
    }
  }

  function Size(all: seq<seq<nat>>): nat {
    if all == [] then 0 else |all[0]| + Size(all[1..])
  }

  lemma {:induction false} SizeAppend(all: seq<seq<nat>>, q: seq<nat>)
    ensures Size(all + [q]) == Size(all) + |q|
  {
    if all == [] {
      assert all + [q] == [q];
    } else {
      assert (all + [q])[1..] == all[1..] + [q];
      SizeAppend(all[1..], q);
    }
  }

  /** Everything the deque will give, in order. */
  function Drain(all: seq<seq<nat>>): seq<nat>
    decreases Size(all), |all|
  {
    if all == [] then []
    else if all[0] == [] then Drain(all[1..])
    else
      SizeAppend(all[1..], all[0][1..]);
      [all[0][0]] + Drain(all[1..] + [all[0][1..]])
  }

  // ---- Fairness ---------------------------------------------------------------------

  /** The `j`-th piece of every queue that has one, in queue order. */
  function Column(all: seq<seq<nat>>, j: nat): seq<nat> {
    if all == [] then []
    else if j < |all[0]| then [all[0][j]] + Column(all[1..], j)
    else Column(all[1..], j)
  }

  /** The first `n` columns one after another: all first pieces, then all second pieces, ... */
  function Columns(all: seq<seq<nat>>, n: nat): seq<nat> {
    if n == 0 then [] else Columns(all, n - 1) + Column(all, n - 1)
  }

  function Longest(all: seq<seq<nat>>): nat {
    if all == [] then 0 else Max(|all[0]|, Longest(all[1..]))
  }

  function Tails(all: seq<seq<nat>>): seq<seq<nat>> {
    if all == [] then []
    else if all[0] == [] then Tails(all[1..])
    else [all[0][1..]] + Tails(all[1..])
  }

  /** One turn of every queue in `a` gives their heads and moves their tails behind `b`. */
  lemma {:induction false} DrainRound(a: seq<seq<nat>>, b: seq<seq<nat>>)
    ensures Drain(a + b) == Column(a, 0) + Drain(b + Tails(a))
    decreases |a|
  {
    if a == [] {
      assert a + b == b && b + [] == b;
    } else {
      assert (a + b)[0] == a[0] && (a + b)[1..] == a[1..] + b;
      if a[0] == [] {
        DrainRound(a[1..], b);
        assert Tails(a) == Tails(a[1..]) && Column(a, 0) == Column(a[1..], 0);
      } else {
        var t := a[0][1..];
        assert (a + b)[1..] + [t] == a[1..] + (b + [t]);
        assert Drain(a + b) == [a[0][0]] + Drain(a[1..] + (b + [t]));
        DrainRound(a[1..], b + [t]);
        assert (b + [t]) + Tails(a[1..]) == b + Tails(a);
      }
    }
  }

  lemma {:induction false} ColumnOfTails(all: seq<seq<nat>>, j: nat)
    ensures Column(Tails(all), j) == Column(all, j + 1)
  {
    if all != [] {
      ColumnOfTails(all[1..], j);
      if all[0] != [] {
        assert Tails(all)[1..] == Tails(all[1..]);
      }
    }
  }

  lemma {:induction false} ColumnsShift(all: seq<seq<nat>>, n: nat)
    ensures Columns(all, n + 1) == Column(all, 0) + Columns(Tails(all), n)
  {
    if n > 0 {
      ColumnsShift(all, n - 1);
      ColumnOfTails(all, n - 1);
    }
  }

  lemma {:induction false} TailsShorter(all: seq<seq<nat>>)
    ensures Longest(Tails(all)) == SaturatingSub(Longest(all), 1)
    ensures Longest(all) == 0 ==> Tails(all) == [] && Column(all, 0) == []
  {
    if all != [] {
      TailsShorter(all[1..]);
      if all[0] != [] {
        assert Tails(all)[1..] == Tails(all[1..]);
      }
    }
  }

  /** Draining reads the queues column by column: no stream gives its second piece before every
      stream with a first piece has given it, and so on; each stream keeps its order. */
  lemma {:induction false} DrainIsColumns(all: seq<seq<nat>>)
    ensures Drain(all) == Columns(all, Longest(all))
    decreases Longest(all)
  {
    DrainRound(all, []);
    assert all + [] == all && [] + Tails(all) == Tails(all);
    TailsShorter(all);
    if Longest(all) > 0 {
      DrainIsColumns(Tails(all));
      ColumnsShift(all, Longest(all) - 1);
    }
  }

  /** Nothing is dropped or repeated. */
  lemma {:induction false} DrainKeepsEverything(all: seq<seq<nat>>)
    ensures multiset(Drain(all)) == Contents(all)
    decreases Size(all), |all|
  {
    if all != [] {
      if all[0] == [] {
        DrainKeepsEverything(all[1..]);
      } else {
        SizeAppend(all[1..], all[0][1..]);
        DrainKeepsEverything(all[1..] + [all[0][1..]]);
        ContentsAppend(all[1..], all[0][1..]);
        assert all[0] == [all[0][0]] + all[0][1..];
      }
    }
  }

  function Contents(all: seq<seq<nat>>): multiset<nat> {
    if all == [] then multiset{} else multiset(all[0]) + Contents(all[1..])
  }

  lemma {:induction false} ContentsAppend(all: seq<seq<nat>>, q: seq<nat>)
    ensures Contents(all + [q]) == Contents(all) + multiset(q)
  {
    if all == [] {
      assert all + [q] == [q];
    } else {
      assert (all + [q])[1..] == all[1..] + [q];
      ContentsAppend(all[1..], q);
    }
  }
}
