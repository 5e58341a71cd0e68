/** The order in which queued pieces are offered to peers, said without the function that computes it. */
module Offers {
  import opened Prelude
  import opened Lengths
  import opened Files
  import opened ChunkState

  /** The file at place `j` of the priorities does not count as complete and lists `p`. */
  predicate OpenAt(perFile: seq<nat>, priorities: seq<nat>, files: seq<FileInfo>, j: nat, p: nat)
    requires |perFile| == |files|
  {
    j < |priorities| && priorities[j] < |files| &&
    perFile[priorities[j]] != files[priorities[j]].len && ContainsPiece(files[priorities[j]], p)
  }

  /** Inside a file the first piece comes first, the last piece second, then the others from start to
      end. */
  predicate GoesBefore(f: FileInfo, p: nat, q: nat) {
    && p != q
    && (p == f.firstPiece ||
        (q != f.firstPiece && (p == f.endPiece - 1 || (q != f.endPiece - 1 && p < q))))
  }

  /** `p` stands before place `y` of the offer. */
  predicate OfferedBefore(order: seq<nat>, p: nat, y: nat) {
    exists x :: 0 <= x < y && x < |order| && order[x] == p
  }

  /** Filtering keeps the order. */
  lemma {:induction false} FilterOrder(s: seq<nat>, keep: set<nat>, n: nat, a: nat, b: nat, y: nat)
    requires a < b < |s| && s[a] in keep && s[a] < n
    requires forall i, j :: 0 <= i < j < |s| ==> s[i] != s[j]
    requires y < |Filter(s, keep, n)| && Filter(s, keep, n)[y] == s[b]
    ensures OfferedBefore(Filter(s, keep, n), s[a], y)
  {
    var head, rest := if s[0] in keep && s[0] < n then [s[0]] else [], Filter(s[1..], keep, n);
    assert Filter(s, keep, n) == head + rest;
    if a == 0 {
      assert Filter(s, keep, n)[0] == s[0];
    } else {
      assert y >= |head|;
      FilterOrder(s[1..], keep, n, a - 1, b - 1, y - |head|);
      AfterHead(head, rest, s[a], y);
    }
  }

  lemma PlaceInFile(f: FileInfo, p: nat) returns (k: nat)
    requires ContainsPiece(f, p)
    ensures k < f.endPiece - f.firstPiece == |PiecePriorities(f.firstPiece, f.endPiece)|
    ensures PiecePriorities(f.firstPiece, f.endPiece)[k] == p
    ensures k == if p == f.firstPiece then 0 else if p == f.endPiece - 1 then 1 else p - f.firstPiece + 1
  {
    PiecePrioritiesPermutation(f.firstPiece, f.endPiece);
    k := if p == f.firstPiece then 0 else if p == f.endPiece - 1 then 1 else p - f.firstPiece + 1;
  }

  /** What the queued pieces of one file contribute, in the file's order. */
  lemma FileOrder(f: FileInfo, queue: set<nat>, n: nat, p: nat, q: nat, y: nat)
    requires ContainsPiece(f, p) && p in queue && p < n && GoesBefore(f, p, q)
    requires y < |Filter(PiecePriorities(f.firstPiece, f.endPiece), queue, n)|
    requires Filter(PiecePriorities(f.firstPiece, f.endPiece), queue, n)[y] == q
    ensures OfferedBefore(Filter(PiecePriorities(f.firstPiece, f.endPiece), queue, n), p, y)
  {
    PiecePrioritiesPermutation(f.firstPiece, f.endPiece);
    var r := PiecePriorities(f.firstPiece, f.endPiece);
    assert q in Filter(r, queue, n);
    var a := PlaceInFile(f, p);
    var b := PlaceInFile(f, q);
    FilterOrder(r, queue, n, a, b, y);
  }

  /** A queued piece that the open file at place `i` lists is offered before every piece that no open
      file before that place lists; if that file lists both, the order inside the file decides. */
  lemma {:induction false} OfferOrder(n: nat, queue: set<nat>, perFile: seq<nat>, priorities: seq<nat>,
      files: seq<FileInfo>, p: nat, i: nat, y: nat)
    requires |perFile| == |files|
    requires forall k :: 0 <= k < |files| ==> files[k].firstPiece <= files[k].endPiece
    requires p in queue && p < n && OpenAt(perFile, priorities, files, i, p)
    requires y < |QueuedOrder(n, queue, perFile, priorities, files)|
    requires var q := QueuedOrder(n, queue, perFile, priorities, files)[y];
      && (forall k :: 0 <= k < i ==> !OpenAt(perFile, priorities, files, k, q))
      && (OpenAt(perFile, priorities, files, i, q) ==> GoesBefore(files[priorities[i]], p, q))
    ensures OfferedBefore(QueuedOrder(n, queue, perFile, priorities, files), p, y)
    decreases |priorities|
  {
    var order, id := QueuedOrder(n, queue, perFile, priorities, files), priorities[0];
    var q := order[y];
    var isOpen := id < |files| && perFile[id] != files[id].len;
    var head :=
      if isOpen then Filter(PiecePriorities(files[id].firstPiece, files[id].endPiece), queue, n) else [];
    var rest := QueuedOrder(n, queue, perFile, priorities[1..], files);
    assert order == head + rest;
    if isOpen {
      PiecePrioritiesPermutation(files[id].firstPiece, files[id].endPiece);
    }
    if i == 0 {
      OfferedFirst(head, rest, files[id], queue, n, p, y);
    } else {
      assert !OpenAt(perFile, priorities, files, 0, q);
      assert y < |head| ==> q in head;
      assert rest[y - |head|] == q;
      assert forall k :: 0 <= k < |priorities| - 1 ==>
        (OpenAt(perFile, priorities[1..], files, k, q) <==> OpenAt(perFile, priorities, files, k + 1, q));
      OfferOrder(n, queue, perFile, priorities[1..], files, p, i - 1, y - |head|);
      AfterHead(head, rest, p, y);
    }
  }

  lemma AfterHead(head: seq<nat>, rest: seq<nat>, p: nat, y: nat)
    requires |head| <= y && OfferedBefore(rest, p, y - |head|)
    ensures OfferedBefore(head + rest, p, y)
  {
    var x :| 0 <= x < y - |head| && x < |rest| && rest[x] == p;
    assert (head + rest)[|head| + x] == p;
  }

  lemma OfferedFirst(head: seq<nat>, rest: seq<nat>, f: FileInfo, queue: set<nat>, n: nat, p: nat, y: nat)
    requires f.firstPiece <= f.endPiece && head == Filter(PiecePriorities(f.firstPiece, f.endPiece), queue, n)
    requires ContainsPiece(f, p) && p in queue && p < n && y < |head + rest|
    requires ContainsPiece(f, (head + rest)[y]) ==> GoesBefore(f, p, (head + rest)[y])
    ensures OfferedBefore(head + rest, p, y)
  {
    PiecePrioritiesPermutation(f.firstPiece, f.endPiece);
    assert p in head;
    var x :| 0 <= x < |head| && head[x] == p;
    assert (head + rest)[x] == p;
    if y < |head| {
      assert head[y] in head;
      FileOrder(f, queue, n, p, head[y], y);
      x :| 0 <= x < y && x < |head| && head[x] == p;
      assert (head + rest)[x] == p;
    }
  }
}
