/** A byte store with positioned reads and writes that may fail, and the torrent's contents as
    one sequence of bytes laid over the files. Padding files read as zeros. */
module Storage {
  import opened Prelude
  import opened Files

  class Storage {
    var data: seq<seq<Byte>>                   // what each file holds
    const readFails: (nat, nat, nat) -> bool   // I/O errors, by file, offset and size
    const writeFails: (nat, nat, nat) -> bool

    constructor (contents: seq<seq<Byte>>, rf: (nat, nat, nat) -> bool, wf: (nat, nat, nat) -> bool)
      ensures data == contents && readFails == rf && writeFails == wf
    {
      data, readFails, writeFails := contents, rf, wf;
    }

    /** A read of exactly `n` bytes is possible. */
    predicate CanRead(file: nat, offset: nat, n: nat)
      reads this
    {
      file < |data| && offset + n <= |data[file]| && !readFails(file, offset, n)
    }

    method PreadExact(file: nat, offset: nat, n: nat) returns (r: Option<seq<Byte>>)
      ensures r == if CanRead(file, offset, n) then Some(data[file][offset..offset + n]) else None
    {
      return if CanRead(file, offset, n) then Some(data[file][offset..offset + n]) else None;
    }

    method PwriteAll(file: nat, offset: nat, bytes: seq<Byte>) returns (ok: bool)
      modifies this
      ensures ok <==> file < |old(data)| && !writeFails(file, offset, |bytes|)
      ensures data == if ok then old(data)[file := Overlay(old(data)[file], offset, bytes)] else old(data)
    {
      ok := file < |data| && !writeFails(file, offset, |bytes|);
      if ok {
        data := data[file := Overlay(data[file], offset, bytes)];
      }
    }

    /** Two consecutive writes. */
    method PwriteAllVectored(file: nat, offset: nat, first: seq<Byte>, second: seq<Byte>) returns (ok: bool)
      modifies this
      ensures ok ==> file < |old(data)| && data == old(data)[file := Overlay(old(data)[file], offset, first + second)]
      ensures !ok ==>
        data == old(data) || (file < |old(data)| && data == old(data)[file := Overlay(old(data)[file], offset, first)])
      ensures ok <==>
        file < |old(data)| && !writeFails(file, offset, |first|) && !writeFails(file, offset + |first|, |second|)
    {
      ok := PwriteAll(file, offset, first);
      if ok {
        OverlayTwice(data[file], offset, first, second, old(data)[file]);
        ok := PwriteAll(file, offset + |first|, second);
        assert ok ==> data == old(data)[file := Overlay(old(data)[file], offset, first + second)];
      }
    }
  }

  /** Writing past the end leaves a hole of zeros. Writing nothing changes nothing. */
  function Overlay(file: seq<Byte>, offset: nat, bytes: seq<Byte>): (r: seq<Byte>)
    ensures |r| == if bytes == [] then |file| else Max(|file|, offset + |bytes|)
    ensures forall i :: 0 <= i < |r| ==>
      r[i] == if offset <= i < offset + |bytes| then bytes[i - offset] else if i < |file| then file[i] else 0
  {
    if bytes == [] then file
    else
      seq(Max(|file|, offset + |bytes|), i requires 0 <= i =>
        if offset <= i < offset + |bytes| then bytes[i - offset] else if i < |file| then file[i] else 0)
  }

  lemma OverlayTwice(mid: seq<Byte>, offset: nat, first: seq<Byte>, second: seq<Byte>, before: seq<Byte>)
    requires mid == Overlay(before, offset, first)
    ensures Overlay(mid, offset + |first|, second) == Overlay(before, offset, first + second)
  {
  }

  // ---- The torrent as one sequence of bytes -----------------------------------------

  function FileByte(files: seq<FileInfo>, data: seq<seq<Byte>>, i: nat, o: nat): Byte
    requires i < |files|
  {
    if files[i].padding then 0
    else if i < |data| && o < |data[i]| then data[i][o]
    else 0
  }

  /** Byte `b` of the torrent, looked up among the first `k` files. */
  function ByteAmong(files: seq<FileInfo>, data: seq<seq<Byte>>, b: nat, k: nat): Byte
    requires k <= |files|
  {
    if k == 0 then 0
    else if b >= FileStart(files, k - 1) then FileByte(files, data, k - 1, b - FileStart(files, k - 1))
    else ByteAmong(files, data, b, k - 1)
  }

  function TorrentByte(files: seq<FileInfo>, data: seq<seq<Byte>>, b: nat): Byte {
    ByteAmong(files, data, b, |files|)
  }

  function TorrentBytes(files: seq<FileInfo>, data: seq<seq<Byte>>, a: nat, n: nat): seq<Byte> {
    seq(n, j requires 0 <= j => TorrentByte(files, data, a + j))
  }

  lemma {:induction false} ByteInFile(files: seq<FileInfo>, data: seq<seq<Byte>>, i: nat, o: nat, k: nat)
    requires i < k <= |files| && o < files[i].len
    ensures ByteAmong(files, data, FileStart(files, i) + o, k) == FileByte(files, data, i, o)
  {
    if i < k - 1 {
      FileStartMono(files, i + 1, k - 1);
      ByteInFile(files, data, i, o, k - 1);
    }
  }

  function FileBytesAt(files: seq<FileInfo>, data: seq<seq<Byte>>, i: nat, o: nat, n: nat): seq<Byte>
    requires i < |files|
  {
    seq(n, j requires 0 <= j => FileByte(files, data, i, o + j))
  }

  /** A stretch of the torrent inside file `i` is the same stretch of that file. */
  lemma StretchInFile(files: seq<FileInfo>, data: seq<seq<Byte>>, i: nat, o: nat, n: nat)
    requires i < |files| && o + n <= files[i].len
    ensures TorrentBytes(files, data, FileStart(files, i) + o, n) == FileBytesAt(files, data, i, o, n)
  {
    var a, b := TorrentBytes(files, data, FileStart(files, i) + o, n), FileBytesAt(files, data, i, o, n);
    forall j | 0 <= j < n
      ensures a[j] == b[j]
    {
      ByteInFile(files, data, i, o + j, |files|);
      assert a[j] == TorrentByte(files, data, FileStart(files, i) + (o + j));
    }
  }

  lemma StretchJoin(files: seq<FileInfo>, data: seq<seq<Byte>>, a: nat, n: nat, m: nat)
    ensures TorrentBytes(files, data, a, n) + TorrentBytes(files, data, a + n, m) == TorrentBytes(files, data, a, n + m)
  {
  }

  /** Every byte of `[a, a + n)` that lies in a real file exists in that file. */
  ghost predicate Backed(files: seq<FileInfo>, data: seq<seq<Byte>>, a: nat, n: nat) {
    forall i, o ::
      0 <= i < |files| && 0 <= o < files[i].len && !files[i].padding && a <= FileStart(files, i) + o < a + n ==>
        InData(data, i, o)
  }

  predicate InData(data: seq<seq<Byte>>, i: nat, o: nat) {
    i < |data| && o < |data[i]|
  }

  /** Every read inside a real file succeeds. */
  ghost predicate Readable(files: seq<FileInfo>, s: Storage)
    reads s
  {
    forall i, o, n :: 0 <= i < |files| && !files[i].padding && 0 <= o && 0 <= n && o + n <= files[i].len ==>
      s.CanRead(i, o, n)
  }
}
