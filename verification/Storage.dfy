/** A torrent's files seen as one run of bytes. */
module Storage {
  import opened Bytes
  import opened Seqs

  function Max(a: int, b: int): int { if a > b then a else b }

  function Min(a: int, b: int): int { if a < b then a else b }

  // ---------- laying bytes over bytes ----------

  /** now is was with p laid over it from off on; what falls outside is dropped. */
  ghost predicate IsPatch(now: seq<byte>, was: seq<byte>, off: int, p: seq<byte>) {
    && |now| == |was|
    && forall i :: 0 <= i < |now| ==> now[i] == if off <= i < off + |p| then p[i - off] else was[i]
  }

  lemma IsPatchAppend(a': seq<byte>, a: seq<byte>, b': seq<byte>, b: seq<byte>, off: int, p: seq<byte>)
    requires IsPatch(a', a, off, p) && IsPatch(b', b, off - |a|, p)
    ensures IsPatch(a' + b', a + b, off, p)
  {
    forall i | 0 <= i < |a' + b'|
      ensures (a' + b')[i] == if off <= i < off + |p| then p[i - off] else (a + b)[i]
    {
      if i < |a| {
        assert (a' + b')[i] == a'[i] && (a + b)[i] == a[i];
      } else {
        assert (a' + b')[i] == b'[i - |a|] && (a + b)[i] == b[i - |a|];
      }
    }
  }

  lemma IsPatchPrefix(now: seq<byte>, was: seq<byte>, off: int, p: seq<byte>, m: nat)
    requires m <= |p|
    ensures IsPatch(now, was, off, p) && |was| <= off + m ==> IsPatch(now, was, off, p[..m])
    ensures off + m <= 0 ==> IsPatch(was, was, off, p[..m])
    ensures |was| <= off ==> IsPatch(was, was, off, p[..m])
  {
  }

  lemma PatchSlice(now: seq<byte>, was: seq<byte>, off: int, p: seq<byte>, lo: nat, hi: nat)
    requires IsPatch(now, was, off, p) && lo <= hi <= |was|
    ensures hi <= off || off + |p| <= lo ==> now[lo..hi] == was[lo..hi]
    ensures lo == off && hi == off + |p| ==> now[lo..hi] == p
  {
  }

  // ---------- one file ----------

  /** `ftruncate`: cut, or grow with zeros. */
  function Truncated(content: seq<byte>, length: nat): seq<byte> {
    if length <= |content| then content[..length] else content + seq(length - |content|, _ => 0)
  }

  lemma TruncatedKeeps(content: seq<byte>, length: nat)
    ensures |Truncated(content, length)| == length
    ensures forall g :: 0 <= g < length ==>
              Truncated(content, length)[g] == if g < |content| then content[g] else 0
  {
  }

  /** `pwrite`: a write past the end grows the file, filling any gap with zeros. */
  function Written(content: seq<byte>, at: nat, chunk: seq<byte>): seq<byte> {
    var whole := Truncated(content, if at + |chunk| > |content| then at + |chunk| else |content|);
    whole[..at] + chunk + whole[at + |chunk|..]
  }

  /** Writing the part of q that overlaps a file lays q over the file. */
  lemma WrittenIsPatch(content: seq<byte>, at: nat, chunk: seq<byte>, rel: int, q: seq<byte>)
    requires at == Max(rel, 0) && at + |chunk| == Min(rel + |q|, |content|)
    requires chunk == q[at - rel..at - rel + |chunk|]
    ensures IsPatch(Written(content, at, chunk), content, rel, q)
  {
    WrittenInside(content, at, chunk);
    forall i | 0 <= i < |content|
      ensures Written(content, at, chunk)[i] == if rel <= i < rel + |q| then q[i - rel] else content[i]
    {
      WrittenAt(content, at, chunk, rel, q, i);
    }
  }

  lemma WrittenAt(content: seq<byte>, at: nat, chunk: seq<byte>, rel: int, q: seq<byte>, i: nat)
    requires at == Max(rel, 0) && at + |chunk| == Min(rel + |q|, |content|) && i < |content|
    requires chunk == q[at - rel..at - rel + |chunk|]
    ensures (content[..at] + chunk + content[at + |chunk|..])[i]
         == if rel <= i < rel + |q| then q[i - rel] else content[i]
  {
    assert at <= i < at + |chunk| ==> chunk[i - at] == q[i - rel];
  }

  lemma WrittenInside(content: seq<byte>, at: nat, chunk: seq<byte>)
    requires at + |chunk| <= |content|
    ensures Written(content, at, chunk) == content[..at] + chunk + content[at + |chunk|..]
  {
    assert content[..|content|] == content;
  }

  // ---------- the layout ----------

  datatype PhysicalFile = PhysicalFile(length: nat, startOffset: nat, endOffset: nat)

  datatype IOError = NoError | UnexpectedEOF | DiskError

  /** The files stand one after the other, from offset zero. */
  ghost predicate Consecutive(files: seq<PhysicalFile>) {
    forall k {:trigger files[k].startOffset} {:trigger files[k].endOffset} :: 0 <= k < |files| ==>
      && files[k].startOffset == EndOf(files, k)
      && files[k].endOffset == EndOf(files, k) + files[k].length
  }

  /** Where the first k files end. */
  ghost function EndOf(files: seq<PhysicalFile>, k: nat): nat
    requires k <= |files|
  {
    if k == 0 then 0 else EndOf(files, k - 1) + files[k - 1].length
  }

  ghost predicate Sized(files: seq<PhysicalFile>, contents: seq<seq<byte>>) {
    |contents| == |files| && forall k :: 0 <= k < |files| ==> |contents[k]| == files[k].length
  }

  lemma {:induction false} ConcatLength(files: seq<PhysicalFile>, contents: seq<seq<byte>>, k: nat)
    requires Sized(files, contents) && k <= |files|
    ensures |Concat(contents[..k])| == EndOf(files, k)
  {
    if k > 0 {
      ConcatLength(files, contents, k - 1);
      assert contents[..k][..k - 1] == contents[..k - 1];
    }
  }

  /** How many bytes of [off, off + n) lie in [0, end). */
  function Covered(off: int, n: nat, end: nat): nat {
    Max(0, Min(off + n, end) - Max(off, 0))
  }

  // ---------- a write, file by file ----------

  /** The first k files have p laid over them, n bytes in all; the others are as they were. */
  ghost predicate LaidUpTo(
    files: seq<PhysicalFile>, was: seq<seq<byte>>, now: seq<seq<byte>>, off: int, p: seq<byte>, k: nat, n: nat)
    requires |was| == |files| && k <= |files|
  {
    && Sized(files, now)
    && IsPatch(Concat(now[..k]), Concat(was[..k]), off, p)
    && now[k..] == was[k..]
    && n == Covered(off, |p|, EndOf(files, k))
  }

  /** What writing one file's share leaves behind. */
  ghost predicate Share(
    files: seq<PhysicalFile>, k: nat, now: seq<seq<byte>>, before: seq<seq<byte>>,
    off: int, p: seq<byte>, m: nat, n: nat, ok: bool)
    requires k < |files| == |before|
  {
    && Sized(files, now) && now == before[k := now[k]]
    && m <= |p| && (if ok then m == |p| else EndOf(files, k) <= off + m <= EndOf(files, k + 1))
    && IsPatch(now[k], before[k], off - EndOf(files, k), p[..m])
    && n == Covered(off, m, EndOf(files, k + 1)) - Covered(off, |p|, EndOf(files, k))
  }

  /** Where the part of p that overlaps the file at [lo, hi) begins, in p and in the file. */
  ghost predicate Overlap(off: int, len: nat, lo: nat, hi: nat, from: int, at: int) {
    off < hi && lo < off + len && at == Max(off, lo) - lo && from == Max(off, lo) - off
  }

  lemma OverlapFits(off: int, len: nat, lo: nat, hi: nat, from: int, at: int, m: int, n: nat, ok: bool)
    requires lo <= hi && Overlap(off, len, lo, hi, from, at)
    requires n <= Min(off + len, hi) - Max(off, lo) && (ok ==> n == Min(off + len, hi) - Max(off, lo))
    requires m == if ok then len else from + n
    ensures at == Max(off - lo, 0) && at + n == Min(off - lo + m, hi - lo)
    ensures from == at - (off - lo) && 0 <= from <= from + n <= m
  {
  }

  lemma SharePatch(
    content: seq<byte>, off: int, p: seq<byte>, lo: nat, hi: nat, chunk: seq<byte>, from: nat, at: nat,
    m: nat, ok: bool)
    requires lo + |content| == hi && Overlap(off, |p|, lo, hi, from, at)
    requires |chunk| <= Min(off + |p|, hi) - Max(off, lo) && (ok ==> |chunk| == Min(off + |p|, hi) - Max(off, lo))
    requires m <= |p| && m == if ok then |p| else from + |chunk|
    requires from + |chunk| <= |p| && chunk == p[from..from + |chunk|]
    ensures IsPatch(Written(content, at, chunk), content, off - lo, p[..m])
    ensures |Written(content, at, chunk)| == |content|
  {
    hide Written;
    OverlapFits(off, |p|, lo, hi, from, at, m, |chunk|, ok);
    assert chunk == p[..m][from..from + |chunk|];
    WrittenIsPatch(content, at, chunk, off - lo, p[..m]);
  }

  /** A file over which the part of p that overlaps it was laid, n bytes of it, has its share. */
  lemma ShareOf(
    files: seq<PhysicalFile>, k: nat, before: seq<seq<byte>>, content: seq<byte>,
    off: int, p: seq<byte>, m: nat, n: nat, ok: bool)
    requires Sized(files, before) && k < |files| && m <= |p|
    requires var lo, hi := EndOf(files, k), EndOf(files, k + 1);
             && off < hi && lo < off + |p|
             && n <= Min(off + |p|, hi) - Max(off, lo) && (ok ==> n == Min(off + |p|, hi) - Max(off, lo))
             && m == if ok then |p| else Max(off, lo) - off + n
    requires IsPatch(content, before[k], off - EndOf(files, k), p[..m])
    ensures Share(files, k, before[k := content], before, off, p, m, n, ok)
  {
    var lo, hi := EndOf(files, k), EndOf(files, k + 1);
    assert lo <= hi;
    SizedUpdate(files, before, k, content);
    ShareCount(off, |p|, lo, hi, m, n, ok);
  }

  /** A file to which a part of p was written where p overlaps it has its share. */
  lemma ShareWritten(
    files: seq<PhysicalFile>, k: nat, before: seq<seq<byte>>, now: seq<seq<byte>>,
    off: int, p: seq<byte>, chunk: seq<byte>, from: nat, at: nat, m: nat, ok: bool)
    requires Sized(files, before) && k < |files|
    requires var lo, hi := EndOf(files, k), EndOf(files, k + 1);
             && Overlap(off, |p|, lo, hi, from, at)
             && |chunk| <= Min(off + |p|, hi) - Max(off, lo) && (ok ==> |chunk| == Min(off + |p|, hi) - Max(off, lo))
    requires m == if ok then |p| else from + |chunk|
    requires from + |chunk| <= |p| && chunk == p[from..from + |chunk|]
    requires now == before[k := Written(before[k], at, chunk)]
    ensures Share(files, k, now, before, off, p, m, |chunk|, ok)
  {
    var lo, hi := EndOf(files, k), EndOf(files, k + 1);
    assert lo + |before[k]| == hi;
    hide Share, Written, IsPatch, EndOf, Sized, Max, Min;
    SharePatch(before[k], off, p, lo, hi, chunk, from, at, m, ok);
    ShareOf(files, k, before, Written(before[k], at, chunk), off, p, m, |chunk|, ok);
  }

  lemma SizedUpdate(files: seq<PhysicalFile>, before: seq<seq<byte>>, k: nat, content: seq<byte>)
    requires Sized(files, before) && k < |files| && |content| == files[k].length
    ensures Sized(files, before[k := content])
  {
  }

  /** What a write leaves behind: a prefix p[..m] laid over the run, n bytes of it inside. */
  ghost predicate Laid(now: seq<byte>, was: seq<byte>, off: int, p: seq<byte>, m: nat, n: nat) {
    m <= |p| && n == Covered(off, m, |was|) && IsPatch(now, was, off, p[..m])
  }

  lemma LaidNone(files: seq<PhysicalFile>, was: seq<seq<byte>>, off: int, p: seq<byte>)
    requires Sized(files, was)
    ensures LaidUpTo(files, was, was, off, p, 0, 0)
  {
  }

  lemma NothingLaid(flat: seq<byte>, off: int)
    ensures Laid(flat, flat, off, [], 0, 0)
  {
  }

  /** How many of a write's bytes fall to the file at [lo, hi), when n of its share are written. */
  lemma ShareCount(off: int, len: nat, lo: nat, hi: nat, m: int, n: nat, ok: bool)
    requires lo <= hi && off < hi && lo < off + len
    requires n <= Min(off + len, hi) - Max(off, lo) && (ok ==> n == Min(off + len, hi) - Max(off, lo))
    requires m == if ok then len else Max(off, lo) - off + n
    ensures 0 <= m <= len && (ok || lo <= off + m <= hi)
    ensures n == Covered(off, m, hi) - Covered(off, len, lo)
  {
  }

  lemma LaidNext(
    files: seq<PhysicalFile>, was: seq<seq<byte>>, before: seq<seq<byte>>, now: seq<seq<byte>>,
    off: int, p: seq<byte>, k: nat, n0: nat, n: nat)
    requires Sized(files, was) && k < |files| && LaidUpTo(files, was, before, off, p, k, n0)
    requires Share(files, k, now, before, off, p, |p|, n, true)
    ensures LaidUpTo(files, was, now, off, p, k + 1, n0 + n)
  {
    ConcatLength(files, was, k);
    assert p[..|p|] == p;
    assert before[k] == before[k..][0] && was[k] == was[k..][0];
    assert now[..k + 1][..k] == before[..k] && was[..k + 1][..k] == was[..k];
    IsPatchAppend(Concat(before[..k]), Concat(was[..k]), now[k], was[k], off, p);
    assert now[k + 1..] == before[k..][1..] && was[k + 1..] == was[k..][1..];
  }

  /** When the write stops inside file k, what was laid over the run is a prefix of p. */
  lemma Stopped(
    files: seq<PhysicalFile>, was: seq<seq<byte>>, before: seq<seq<byte>>, now: seq<seq<byte>>,
    off: int, p: seq<byte>, m: nat, k: nat, n0: nat, n: nat)
    requires Sized(files, was) && k < |files| && LaidUpTo(files, was, before, off, p, k, n0)
    requires Share(files, k, now, before, off, p, m, n, false)
    ensures Laid(Concat(now), Concat(was), off, p, m, n0 + n)
  {
    ConcatLength(files, was, k);
    ConcatAround(now, k);
    ConcatAround(was, k);
    assert before[k] == before[k..][0] && was[k] == was[k..][0];
    assert now[..k] == before[..k];
    assert now[k + 1..] == before[k..][1..] && was[k + 1..] == was[k..][1..];
    var a', a, rest, q := Concat(before[..k]), Concat(was[..k]), Concat(was[k + 1..]), p[..m];
    IsPatchPrefix(a', a, off, p, m);
    IsPatchAppend(a', a, now[k], was[k], off, q);
    IsPatchPrefix(rest, rest, off - |a + was[k]|, p, m);
    IsPatchAppend(a' + now[k], a + was[k], rest, rest, off, q);
  }

  lemma LaidTurn(
    files: seq<PhysicalFile>, was: seq<seq<byte>>, before: seq<seq<byte>>, now: seq<seq<byte>>,
    off: int, p: seq<byte>, m: nat, k: nat, n0: nat, n: nat, ok: bool)
    requires Sized(files, was) && k < |files| && LaidUpTo(files, was, before, off, p, k, n0)
    requires Share(files, k, now, before, off, p, m, n, ok)
    ensures if ok then LaidUpTo(files, was, now, off, p, k + 1, n0 + n)
            else Laid(Concat(now), Concat(was), off, p, m, n0 + n)
    ensures Sized(files, now)
  {
    if ok {
      LaidNext(files, was, before, now, off, p, k, n0, n);
    } else {
      Stopped(files, was, before, now, off, p, m, k, n0, n);
    }
  }

  lemma Finished(
    files: seq<PhysicalFile>, was: seq<seq<byte>>, now: seq<seq<byte>>, off: int, p: seq<byte>, n: nat)
    requires Sized(files, was) && LaidUpTo(files, was, now, off, p, |files|, n)
    ensures Laid(Concat(now), Concat(was), off, p, |p|, n)
  {
    ConcatLength(files, was, |files|);
    assert p[..|p|] == p && was[..|files|] == was && now[..|files|] == now;
  }

  lemma FileAt(files: seq<PhysicalFile>, k: nat)
    requires Consecutive(files) && k < |files|
    ensures files[k].startOffset == EndOf(files, k) && files[k].endOffset == EndOf(files, k + 1)
    ensures files[k].endOffset == files[k].startOffset + files[k].length
  {
  }

  lemma ShareOutside(files: seq<PhysicalFile>, k: nat, contents: seq<seq<byte>>, off: int, p: seq<byte>)
    requires Sized(files, contents) && k < |files|
    requires off >= EndOf(files, k + 1) || off + |p| <= EndOf(files, k)
    ensures Share(files, k, contents, contents, off, p, |p|, 0, true)
  {
    assert p[..|p|] == p;
  }

  class TorrentStorage {
    const files: seq<PhysicalFile>
    /** The bytes of each file on disk. */
    var contents: seq<seq<byte>>
    /** Whether the operating system has ever failed a write, or a read. */
    var writeFault: bool
    var readFault: bool

    ghost predicate Valid()
      reads this
    {
      Consecutive(files) && Sized(files, contents)
    }

    ghost function Flat(): seq<byte>
      reads this
    {
      Concat(contents)
    }

    constructor (files: seq<PhysicalFile>, contents: seq<seq<byte>>)
      ensures this.files == files && this.contents == contents && !writeFault && !readFault
    {
      this.files := files;
      this.contents := contents;
      writeFault, readFault := false, false;
    }

    /** `os.File.WriteAt` on file k. The disk may fail at any point, leaving a prefix written;
        it reports success only for the whole chunk. */
    method WriteFile(k: nat, chunk: seq<byte>, at: nat) returns (n: nat, ok: bool)
      requires k < |contents|
      modifies this
      ensures n <= |chunk| && (ok ==> n == |chunk|)
      ensures contents == old(contents)[k := Written(old(contents)[k], at, chunk[..n])]
      ensures writeFault == (old(writeFault) || !ok)
    {
      n :| n <= |chunk|;
      ok :| ok ==> n == |chunk|;
      writeFault := writeFault || !ok;
      contents := contents[k := Written(contents[k], at, chunk[..n])];
    }

    /** The write's share of file k, if any. */
    method WriteOverlap(k: nat, p: seq<byte>, off: int) returns (n: nat, ghost m: nat, ok: bool)
      requires Valid() && k < |files|
      modifies this
      ensures Share(files, k, contents, old(contents), off, p, m, n, ok)
      ensures writeFault == (old(writeFault) || !ok)
    {
      FileAt(files, k);
      hide Share, Consecutive, EndOf, Written, Covered;
      var pf, toWrite := files[k], |p|;
      if off >= pf.endOffset || off + toWrite <= pf.startOffset {
        ShareOutside(files, k, contents, off, p);
        return 0, |p|, true;
      }
      var overlapStart := Max(off, pf.startOffset);
      var overlapEnd := Min(off + toWrite, pf.endOffset);
      var physicalOffset := overlapStart - pf.startOffset;
      var bufferOffset := overlapStart - off;
      var chunk := p[bufferOffset..bufferOffset + (overlapEnd - overlapStart)];
      n, ok := WriteFile(k, chunk, physicalOffset);
      m := if ok then |p| else bufferOffset + n;
      assert chunk[..n] == p[bufferOffset..bufferOffset + n];
      ShareWritten(files, k, old(contents), contents, off, p, chunk[..n], bufferOffset, physicalOffset, m, ok);
    }

    /** Exactly the part of [off, off + |p|) inside the torrent is replaced, and its size returned;
        a failure leaves exactly a prefix p[..m] laid. No file ever changes its length. */
    method WriteAt(p: seq<byte>, off: int) returns (n: nat, err: IOError, ghost m: nat)
      requires Valid()
      modifies this
      ensures Valid()
      ensures Laid(Flat(), old(Flat()), off, p, m, n)
      ensures err == DiskError || (err == NoError && m == |p|)
      ensures writeFault == (old(writeFault) || err == DiskError)
    {
      if |p| == 0 {
        NothingLaid(Flat(), off);
        return 0, NoError, 0;
      }
      n, err, m := WriteFiles(p, off);
    }

    /** The loop over the files. */
    method WriteFiles(p: seq<byte>, off: int) returns (n: nat, err: IOError, ghost m: nat)
      requires Valid()
      modifies this
      ensures Valid()
      ensures Laid(Flat(), old(Flat()), off, p, m, n)
      ensures err == DiskError || (err == NoError && m == |p|)
      ensures writeFault == (old(writeFault) || err == DiskError)
    {
      hide LaidUpTo, Share, Laid, Consecutive, Concat;
      n, err, m := 0, NoError, |p|;
      ghost var was := contents;
      LaidNone(files, was, off, p);
      for k := 0 to |files|
        invariant Sized(files, contents) && LaidUpTo(files, was, contents, off, p, k, n)
        invariant writeFault == old(writeFault)
      {
        ghost var before := contents;
        var wn, mk, ok := WriteOverlap(k, p, off);
        LaidTurn(files, was, before, contents, off, p, mk, k, n, wn, ok);
        n := n + wn;
        if !ok {
          return n, DiskError, mk;
        }
      }
      Finished(files, was, contents, off, p, n);
    }

    /** `os.File.ReadAt` on file k into p[lo..hi]; the disk may fail after part of it. */
    method ReadFile(k: nat, p: array<byte>, lo: nat, hi: nat, at: nat) returns (n: nat, ok: bool)
      requires k < |contents| && lo <= hi <= p.Length && at + (hi - lo) <= |contents[k]|
      modifies p, this`readFault
      ensures readFault == (old(readFault) || !ok)
      ensures n <= hi - lo && (ok ==> n == hi - lo)
      ensures forall i :: 0 <= i < p.Length && !(lo <= i < lo + n) ==> p[i] == old(p[i])
      ensures forall i :: lo <= i < lo + n ==> p[i] == contents[k][at + i - lo]
    {
      n :| n <= hi - lo;
      ok :| ok ==> n == hi - lo;
      for i := lo to lo + n
        invariant readFault == old(readFault)
        invariant forall j :: 0 <= j < p.Length && !(lo <= j < i) ==> p[j] == old(p[j])
        invariant forall j :: lo <= j < i ==> p[j] == contents[k][at + j - lo]
      {
        p[i] := contents[k][at + i - lo];
      }
      readFault := readFault || !ok;
    }

    /** The read's share of file k, if any. */
    method ReadOverlap(k: nat, p: array<byte>, toRead: nat, off: int) returns (n: nat, ok: bool)
      requires Valid() && k < |files| && toRead <= p.Length
      modifies p, this`readFault
      ensures readFault == (old(readFault) || !ok)
      ensures p[toRead..] == old(p[toRead..])
      ensures ok ==> ReadShare(files, k, old(p[..]), p[..], toRead, off, contents[k], n)
    {
      FileAt(files, k);
      hide Consecutive, EndOf, ReadShare;
      var pf := files[k];
      ghost var before := p[..];
      if off >= pf.endOffset || off + toRead <= pf.startOffset {
        NothingRead(files, k, before, toRead, off, contents[k]);
        return 0, true;
      }
      var overlapStart := Max(off, pf.startOffset);
      var overlapEnd := Min(off + toRead, pf.endOffset);
      var physicalOffset := overlapStart - pf.startOffset;
      var bufferOffset := overlapStart - off;
      n, ok := ReadFile(k, p, bufferOffset, bufferOffset + (overlapEnd - overlapStart), physicalOffset);
      if ok {
        ReadShareOf(files, k, before, p[..], toRead, off, contents[k], bufferOffset, physicalOffset, n);
      }
    }

    /** Unless the disk fails, p[..toRead] receives the bytes of [off, off + toRead) that lie inside
        the torrent; falling short of toRead is the one other error. The rest of p is left alone. */
    method ReadAt(p: array<byte>, toRead: nat, off: int) returns (n: nat, err: IOError)
      requires Valid() && toRead <= p.Length
      modifies p, this`readFault
      ensures readFault == (old(readFault) || err == DiskError)
      ensures p[toRead..] == old(p[toRead..])
      ensures err != DiskError ==> n == Covered(off, toRead, |Flat()|) && Filled(p[..], toRead, off, Flat())
      ensures err == UnexpectedEOF ==> n < toRead
      ensures err == NoError ==> n == toRead
    {
      n, err := 0, NoError;
      if toRead == 0 {
        return;
      }
      for k := 0 to |files|
        invariant p[toRead..] == old(p[toRead..]) && readFault == old(readFault)
        invariant FilledUpTo(files, contents, k, p[..], toRead, off, n)
      {
        ghost var before := p[..];
        var rn, ok := ReadOverlap(k, p, toRead, off);
        if !ok {
          return n + rn, DiskError;
        }
        FilledNext(files, contents, k, before, p[..], toRead, off, n, rn);
        n := n + rn;
      }
      FilledAll(files, contents, p[..], toRead, off, n);
      if n < toRead {
        err := UnexpectedEOF;
      }
    }
  }

  /** What reading one file's share does to the buffer. */
  ghost predicate ReadShare(
    files: seq<PhysicalFile>, k: nat, before: seq<byte>, now: seq<byte>, toRead: nat, off: int,
    content: seq<byte>, n: nat)
    requires k < |files|
  {
    var lo, hi := EndOf(files, k), EndOf(files, k + 1);
    && toRead <= |now| == |before|
    && n == Covered(off, toRead, hi) - Covered(off, toRead, lo)
    && (forall i :: 0 <= i < toRead && !(lo <= off + i < hi) ==> now[i] == before[i])
    && (forall i :: 0 <= i < toRead && lo <= off + i < hi && off + i - lo < |content| ==>
          now[i] == content[off + i - lo])
  }

  lemma NothingRead(files: seq<PhysicalFile>, k: nat, p: seq<byte>, toRead: nat, off: int, content: seq<byte>)
    requires k < |files| && toRead <= |p|
    requires off >= EndOf(files, k + 1) || off + toRead <= EndOf(files, k)
    ensures ReadShare(files, k, p, p, toRead, off, content, 0)
  {
  }

  /** A buffer that received the part of the file it overlaps has its share. */
  lemma ReadShareOf(
    files: seq<PhysicalFile>, k: nat, before: seq<byte>, now: seq<byte>, toRead: nat, off: int,
    content: seq<byte>, from: nat, at: nat, n: nat)
    requires k < |files| && toRead <= |now| == |before|
    requires var lo, hi := EndOf(files, k), EndOf(files, k + 1);
             Overlap(off, toRead, lo, hi, from, at) && n == Min(off + toRead, hi) - Max(off, lo)
    requires forall i :: 0 <= i < |now| && !(from <= i < from + n) ==> now[i] == before[i]
    requires from + n <= |now| && at + n <= |content|
    requires forall i :: from <= i < from + n ==> now[i] == content[at + i - from]
    ensures ReadShare(files, k, before, now, toRead, off, content, n)
  {
    hide EndOf;
    var lo, hi := EndOf(files, k), EndOf(files, k + 1);
    ShareCount(off, toRead, lo, hi, toRead, n, true);
  }

  /** p[..n] holds the bytes of [off, off + n) that flat has. */
  ghost predicate Filled(p: seq<byte>, n: nat, off: int, flat: seq<byte>)
    requires n <= |p|
  {
    forall i :: 0 <= i < n && 0 <= off + i < |flat| ==> p[i] == flat[off + i]
  }

  /** The first k files have been read into p, n bytes in all. */
  ghost predicate FilledUpTo(
    files: seq<PhysicalFile>, contents: seq<seq<byte>>, k: nat, p: seq<byte>, toRead: nat, off: int, n: nat)
    requires k <= |files| == |contents| && toRead <= |p|
  {
    n == Covered(off, toRead, EndOf(files, k)) && Filled(p, toRead, off, Concat(contents[..k]))
  }

  lemma FilledAll(
    files: seq<PhysicalFile>, contents: seq<seq<byte>>, p: seq<byte>, toRead: nat, off: int, n: nat)
    requires Sized(files, contents) && toRead <= |p| && FilledUpTo(files, contents, |files|, p, toRead, off, n)
    ensures n == Covered(off, toRead, |Concat(contents)|) <= toRead && Filled(p, toRead, off, Concat(contents))
  {
    ConcatLength(files, contents, |files|);
    assert contents[..|files|] == contents;
  }

  lemma FilledNext(
    files: seq<PhysicalFile>, contents: seq<seq<byte>>, k: nat, before: seq<byte>, now: seq<byte>,
    toRead: nat, off: int, n0: nat, n: nat)
    requires Sized(files, contents) && k < |files| && toRead <= |before|
    requires FilledUpTo(files, contents, k, before, toRead, off, n0)
    requires ReadShare(files, k, before, now, toRead, off, contents[k], n)
    ensures FilledUpTo(files, contents, k + 1, now, toRead, off, n0 + n)
  {
    ConcatLength(files, contents, k);
    assert contents[..k + 1][..k] == contents[..k];
  }

  /** A complete read is the slice asked for. */
  lemma ReadExact(p: seq<byte>, toRead: nat, off: int, flat: seq<byte>)
    requires 0 < toRead <= |p| && Filled(p, toRead, off, flat) && Covered(off, toRead, |flat|) == toRead
    ensures 0 <= off && off + toRead <= |flat| && p[..toRead] == flat[off..off + toRead]
  {
  }

  /** A write is complete, all its bytes counted, exactly when it stays inside the torrent. */
  lemma WriteComplete(now: seq<byte>, was: seq<byte>, off: int, p: seq<byte>, n: nat)
    requires Laid(now, was, off, p, |p|, n) && p != []
    ensures n == |p| <==> 0 <= off && off + |p| <= |was|
  {
  }

  /** What a chain of successful WriteAts leaves behind, one flat content after the other. */
  ghost predicate Writes(flats: seq<seq<byte>>, ps: seq<Patch<byte>>) {
    && |flats| == |ps| + 1
    && forall k {:trigger ps[k]} :: 0 <= k < |ps| ==>
         var p := ps[k];
         Laid(flats[k + 1], flats[k], p.offset, p.items, |p.items|, Covered(p.offset, |p.items|, |flats[k]|))
  }

  lemma {:induction false} WritesOverlay(flats: seq<seq<byte>>, ps: seq<Patch<byte>>)
    requires Writes(flats, ps)
    ensures flats[|ps|] == Overlaid(flats[0], ps)
  {
    if ps != [] {
      var n := |ps| - 1;
      var last := ps[n];
      assert Writes(flats[..n + 1], ps[..n]) by {
        assert forall k :: 0 <= k < n ==> ps[..n][k] == ps[k];
      }
      WritesOverlay(flats[..n + 1], ps[..n]);
      assert last.items[..|last.items|] == last.items;
      assert IsPatch(flats[n + 1], flats[n], last.offset, last.items);
    }
  }

  /** Read after write: a complete ReadAt after any chain of successful WriteAts yields, byte by
      byte, the last write that covers it, or what was there before; in particular a range just
      written reads back as written, across any number of files. */
  lemma ReadAfterWrite(flats: seq<seq<byte>>, ps: seq<Patch<byte>>, buf: seq<byte>, n: nat, off: int)
    requires Writes(flats, ps)
    requires var now := flats[|ps|];
             0 < n <= |buf| && Filled(buf, n, off, now) && Covered(off, n, |now|) == n
    ensures 0 <= off && off + n <= |flats[0]| && buf[..n] == Overlaid(flats[0], ps)[off..off + n]
    ensures ps != [] && ps[|ps| - 1].offset == off && |ps[|ps| - 1].items| == n ==> buf[..n] == ps[|ps| - 1].items
  {
    WritesOverlay(flats, ps);
    ReadExact(buf, n, off, flats[|ps|]);
    if ps != [] && ps[|ps| - 1].offset == off && |ps[|ps| - 1].items| == n {
      forall j | 0 <= j < n ensures buf[j] == ps[|ps| - 1].items[j] {
        assert buf[..n][j] == Overlaid(flats[0], ps)[off + j];
        assert LastToCover(ps, off + j, |ps| - 1);
        LastWins(flats[0], ps, off + j);
      }
    }
  }

  /** The files of a torrent laid out one after the other and cut or grown to size; without a
      file list, one file of the total length. opens tells for each file whether its directory
      and the file itself can be opened; a negative length is an error of the truncation. */
  method NewTorrentStorage(entries: seq<int>, existing: seq<seq<byte>>, opens: seq<bool>, totalLength: int)
    returns (ts: TorrentStorage?)
    requires |opens| == |existing| == |FileLengths(entries, totalLength)|
    ensures ts != null <==> CanOpen(FileLengths(entries, totalLength), opens, |existing|)
    ensures ts != null ==> fresh(ts) && ts.Valid() && !ts.writeFault && !ts.readFault
    ensures ts != null ==> Opened(ts.files, ts.contents, FileLengths(entries, totalLength), existing)
    ensures ts != null ==> |ts.Flat()| == Sum(FileLengths(entries, totalLength))
    ensures ts != null ==> ContentsKept(ts.contents, FileLengths(entries, totalLength), existing)
  {
    var lengths := FileLengths(entries, totalLength);
    var ok, files, contents := LayOut(lengths, existing, opens);
    if !ok {
      return null;
    }
    OpenedLength(files, contents, lengths, existing);
    OpenedKeeps(files, contents, lengths, existing);
    ts := new TorrentStorage(files, contents);
  }

  /** The loop over the file list, up to the first file that cannot be opened or sized. */
  method LayOut(lengths: seq<int>, existing: seq<seq<byte>>, opens: seq<bool>)
    returns (ok: bool, files: seq<PhysicalFile>, contents: seq<seq<byte>>)
    requires |existing| == |lengths| == |opens|
    ensures ok <==> CanOpen(lengths, opens, |lengths|)
    ensures ok ==> Opened(files, contents, lengths, existing) && Consecutive(files)
  {
    hide Built, Opened, Consecutive, EndOf;
    var offset: nat := 0;
    files, contents := [], [];
    BuiltNone(lengths, existing);
    for k := 0 to |lengths|
      invariant |files| == |contents| == k && CanOpen(lengths, opens, k)
      invariant Built(files, contents, lengths, existing, offset)
    {
      if !opens[k] {
        return false, files, contents;
      }
      if lengths[k] < 0 {
        return false, files, contents;
      }
      var file := PhysicalFile(lengths[k], offset, offset + lengths[k]);
      BuiltNext(files, contents, lengths, existing, file);
      files := files + [file];
      contents := contents + [Truncated(existing[k], lengths[k])];
      offset := file.endOffset;
    }
    BuiltAll(files, contents, lengths, existing, offset);
    ok := true;
  }

  ghost predicate CanOpen(lengths: seq<int>, opens: seq<bool>, k: nat)
    requires k <= |lengths| == |opens|
  {
    forall j :: 0 <= j < k ==> opens[j] && lengths[j] >= 0
  }

  /** The files laid out so far. */
  ghost predicate Built(
    files: seq<PhysicalFile>, contents: seq<seq<byte>>, lengths: seq<int>, existing: seq<seq<byte>>, offset: nat)
    requires |lengths| == |existing|
  {
    && |files| == |contents| <= |lengths|
    && Opened(files, contents, lengths[..|files|], existing[..|files|])
    && Consecutive(files) && offset == EndOf(files, |files|)
  }

  lemma BuiltNone(lengths: seq<int>, existing: seq<seq<byte>>)
    requires |lengths| == |existing|
    ensures Built([], [], lengths, existing, 0)
  {
  }

  lemma BuiltAll(
    files: seq<PhysicalFile>, contents: seq<seq<byte>>, lengths: seq<int>, existing: seq<seq<byte>>, offset: nat)
    requires |lengths| == |existing| == |files| && Built(files, contents, lengths, existing, offset)
    ensures Opened(files, contents, lengths, existing) && Consecutive(files)
  {
    assert lengths[..|lengths|] == lengths && existing[..|lengths|] == existing;
  }

  /** A file has its length, and what it held before, cut or grown to that length. */
  ghost predicate FileOpened(file: PhysicalFile, content: seq<byte>, length: int, was: seq<byte>) {
    file.length == length && content == Truncated(was, file.length)
  }

  function FileLengths(entries: seq<int>, totalLength: int): seq<int> {
    if entries == [] then [totalLength] else entries
  }

  function Sum(lengths: seq<int>): int {
    if lengths == [] then 0 else Sum(lengths[..|lengths| - 1]) + lengths[|lengths| - 1]
  }

  ghost predicate Opened(
    files: seq<PhysicalFile>, contents: seq<seq<byte>>, lengths: seq<int>, existing: seq<seq<byte>>)
  {
    && |files| == |contents| == |lengths| == |existing|
    && forall k :: 0 <= k < |files| ==> FileOpened(files[k], contents[k], lengths[k], existing[k])
  }

  /** Each file has its length, its old content as far as that goes, and zeros beyond. */
  ghost predicate ContentsKept(contents: seq<seq<byte>>, lengths: seq<int>, existing: seq<seq<byte>>) {
    && |contents| == |lengths| == |existing|
    && (forall k :: 0 <= k < |contents| ==> |contents[k]| == lengths[k])
    && forall k, g :: 0 <= k < |contents| && 0 <= g < |contents[k]| ==>
         contents[k][g] == if g < |existing[k]| then existing[k][g] else 0
  }

  lemma OpenedKeeps(
    files: seq<PhysicalFile>, contents: seq<seq<byte>>, lengths: seq<int>, existing: seq<seq<byte>>)
    requires Opened(files, contents, lengths, existing)
    ensures ContentsKept(contents, lengths, existing)
  {
    forall k | 0 <= k < |contents|
      ensures |contents[k]| == lengths[k]
      ensures forall g :: 0 <= g < |contents[k]| ==>
                contents[k][g] == if g < |existing[k]| then existing[k][g] else 0
    {
      assert FileOpened(files[k], contents[k], lengths[k], existing[k]);
      TruncatedKeeps(existing[k], files[k].length);
    }
  }

  lemma BuiltNext(
    files: seq<PhysicalFile>, contents: seq<seq<byte>>, lengths: seq<int>, existing: seq<seq<byte>>, file: PhysicalFile)
    requires |lengths| == |existing| && Built(files, contents, lengths, existing, file.startOffset)
    requires |files| < |lengths| && file.length == lengths[|files|]
    requires file.endOffset == file.startOffset + file.length
    ensures var k := |files|;
            Built(files + [file], contents + [Truncated(existing[k], lengths[k])], lengths, existing, file.endOffset)
  {
    hide Opened, Consecutive, EndOf, Truncated;
    var k := |files|;
    OpenedNext(files, contents, lengths[..k], existing[..k], file, existing[k]);
    assert lengths[..k + 1] == lengths[..k] + [lengths[k]] && existing[..k + 1] == existing[..k] + [existing[k]];
    ConsecutiveSnoc(files, file);
  }

  lemma OpenedNext(
    files: seq<PhysicalFile>, contents: seq<seq<byte>>, lengths: seq<int>, existing: seq<seq<byte>>,
    file: PhysicalFile, was: seq<byte>)
    requires Opened(files, contents, lengths, existing)
    ensures Opened(files + [file], contents + [Truncated(was, file.length)], lengths + [file.length], existing + [was])
  {
  }

  lemma {:induction false} EndIsSum(files: seq<PhysicalFile>, lengths: seq<int>, k: nat)
    requires k <= |files| == |lengths| && forall j :: 0 <= j < |files| ==> files[j].length == lengths[j]
    ensures EndOf(files, k) == Sum(lengths[..k])
  {
    if k > 0 {
      EndIsSum(files, lengths, k - 1);
      assert lengths[..k][..k - 1] == lengths[..k - 1];
    }
  }

  /** The files together are as long as the lengths add up to. */
  lemma OpenedLength(
    files: seq<PhysicalFile>, contents: seq<seq<byte>>, lengths: seq<int>, existing: seq<seq<byte>>)
    requires Opened(files, contents, lengths, existing)
    ensures Sized(files, contents) && |Concat(contents)| == Sum(lengths)
  {
    var n := |files|;
    assert forall k :: 0 <= k < n ==> FileOpened(files[k], contents[k], lengths[k], existing[k]);
    ConcatLength(files, contents, n);
    EndIsSum(files, lengths, n);
    assert lengths[..n] == lengths && contents[..n] == contents;
  }

  lemma {:induction false} EndOfSnoc(files: seq<PhysicalFile>, file: PhysicalFile, k: nat)
    requires k <= |files|
    ensures EndOf(files + [file], k) == EndOf(files, k)
  {
    if k > 0 { EndOfSnoc(files, file, k - 1); }
  }

  lemma ConsecutiveSnoc(files: seq<PhysicalFile>, file: PhysicalFile)
    requires Consecutive(files)
    requires file.startOffset == EndOf(files, |files|) && file.endOffset == file.startOffset + file.length
    ensures Consecutive(files + [file])
    ensures EndOf(files + [file], |files| + 1) == file.endOffset
  {
    var all := files + [file];
    forall k | 0 <= k < |all|
      ensures all[k].startOffset == EndOf(all, k) && all[k].endOffset == EndOf(all, k) + all[k].length
    {
      EndOfSnoc(files, file, k);
      if k < |files| { assert all[k] == files[k]; }
    }
    EndOfSnoc(files, file, |files|);
    assert all[|files|] == file;
  }
}
