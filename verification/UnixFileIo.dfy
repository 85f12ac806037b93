/** Reading a file through partial and interrupted reads, and preallocating it without
posix_fallocate(). */
module UnixFileIo {

  type Byte = b: int | 0 <= b < 256

  datatype ReadRc = ReadOk | ShortRead | ReadError

  datatype HintRc = HintOk | StatError | TruncateError | WriteError

  /** How many of cnt bytes at an offset the file has. */
  ghost function Available(data: seq<Byte>, offset: nat, cnt: nat): (n: nat)
    ensures n <= cnt && (n > 0 ==> offset + n <= |data|)
    ensures n < cnt ==> n == if offset <= |data| then |data| - offset else 0
  {
    if offset >= |data| then 0 else if offset + cnt <= |data| then cnt else |data| - offset
  }

  /** The bytes a read of cnt at an offset can deliver. */
  ghost function Delivered(data: seq<Byte>, offset: nat, cnt: nat): (s: seq<Byte>)
    ensures |s| == Available(data, offset, cnt)
  {
    if Available(data, offset, cnt) == 0 then [] else data[offset..offset + Available(data, offset, cnt)]
  }

  ghost function Zeros(n: nat): (s: seq<Byte>)
    ensures |s| == n && forall k :: 0 <= k < n ==> s[k] == 0
  {
    seq(n, _ => 0)
  }

  /** C division: towards zero. */
  function CDiv(a: int, b: int): int
    requires b > 0
  {
    if a >= 0 then a / b else -(-a / b)
  }

  /** The size asked for, rounded up to chunks as the code computes it. */
  function ChunkRounded(nByte: int, chunk: int): int
    requires chunk > 0
  {
    CDiv(nByte + chunk - 1, chunk) * chunk
  }

  lemma DivSteps(a: nat, b: nat)
    requires b > 0
    ensures a / b * b <= a < a / b * b + b
  {
  }

  lemma MulMono(a: int, b: int, n: nat)
    requires a <= b
    ensures a * n <= b * n
  {
  }

  /** The least multiple of the chunk size that holds nByte bytes. */
  lemma ChunkRoundedIsLeast(nByte: nat, chunk: nat, k: int)
    requires chunk > 0
    ensures nByte <= ChunkRounded(nByte, chunk) < nByte + chunk
    ensures nByte <= k * chunk ==> ChunkRounded(nByte, chunk) <= k * chunk
  {
    DivSteps(nByte + chunk - 1, chunk);
    var q := (nByte + chunk - 1) / chunk;
    if q <= k {
      MulMono(q, k, chunk);
    } else {
      MulMono(k, q - 1, chunk);
      assert (q - 1) * chunk == q * chunk - chunk;
    }
  }

  /** The first block that starts at or after the old end of the file. */
  function FirstWholeBlock(size: nat, nBlk: nat): nat
    requires nBlk > 0
  {
    (size + nBlk - 1) / nBlk
  }

  lemma FirstWholeBlockIsLeast(size: nat, nBlk: nat, b: int)
    requires nBlk > 0
    ensures b * nBlk >= size <==> b >= FirstWholeBlock(size, nBlk)
  {
    DivSteps(size + nBlk - 1, nBlk);
    var f := FirstWholeBlock(size, nBlk);
    if b >= f {
      MulMono(f, b, nBlk);
    } else {
      MulMono(b, f - 1, nBlk);
      assert (f - 1) * nBlk == f * nBlk - nBlk;
    }
  }

  /** The last byte of block b. */
  function LastByte(b: int, nBlk: nat): int {
    b * nBlk + nBlk - 1
  }

  lemma DivIs(a: nat, b: nat, q: nat)
    requires b > 0 && q * b <= a < q * b + b
    ensures a / b == q
  {
    DivSteps(a, b);
    if a / b < q {
      MulMono(a / b + 1, q, b);
    } else if a / b > q {
      MulMono(q + 1, a / b, b);
    }
  }

  /** The first offset the loop writes is the last byte of that block. */
  lemma FirstWriteOffset(size: nat, nBlk: nat)
    requires nBlk > 0
    ensures CDiv(size + 2 * nBlk - 1, nBlk) * nBlk - 1 == LastByte(FirstWholeBlock(size, nBlk), nBlk)
  {
    var q := (size + nBlk - 1) / nBlk;
    DivSteps(size + nBlk - 1, nBlk);
    NextBlock(q, nBlk);
    DivIs(size + 2 * nBlk - 1, nBlk, q + 1);
  }

  lemma NextBlock(k: nat, nBlk: nat)
    ensures (k + 1) * nBlk == k * nBlk + nBlk && LastByte(k + 1, nBlk) == LastByte(k, nBlk) + nBlk
  {
  }

  /** Once a block ends past the size, so do all later ones. */
  lemma LaterBlocks(k: nat, nBlk: nat, nSize: int)
    requires LastByte(k, nBlk) >= nSize
    ensures forall b :: LastByte(b, nBlk) < nSize ==> b < k
  {
  }

  /** Block b lies wholly in the part of the file from `size` to `nSize`. */
  predicate WholeBlock(b: int, nBlk: nat, size: nat, nSize: int) {
    size <= b * nBlk && LastByte(b, nBlk) < nSize
  }

  lemma WholeBlocksAre(size: nat, nSize: int, nBlk: nat)
    requires nBlk > 0
    ensures forall b :: WholeBlock(b, nBlk, size, nSize) <==>
      b >= FirstWholeBlock(size, nBlk) && LastByte(b, nBlk) < nSize
    ensures LastByte(FirstWholeBlock(size, nBlk), nBlk) >= size
  {
    forall b
      ensures WholeBlock(b, nBlk, size, nSize) <==> b >= FirstWholeBlock(size, nBlk) && LastByte(b, nBlk) < nSize
    {
      FirstWholeBlockIsLeast(size, nBlk, b);
    }
    FirstWholeBlockIsLeast(size, nBlk, FirstWholeBlock(size, nBlk));
  }

  /** The offsets that a successful size hint writes. */
  ghost function Touches(size: nat, nSize: int, nBlk: nat): iset<int> {
    iset b | WholeBlock(b, nBlk, size, nSize) :: LastByte(b, nBlk)
  }

  /** Block b has a byte in the part of the file from `size` to `nSize`. */
  predicate Meets(b: int, nBlk: nat, size: nat, nSize: int) {
    size <= LastByte(b, nBlk) && b * nBlk < nSize
  }

  ghost predicate Touched(b: int, nBlk: nat, offsets: iset<int>) {
    exists o :: o in offsets && b * nBlk <= o <= LastByte(b, nBlk)
  }

  lemma BlockOfLastByte(b: int, c: int, nBlk: nat)
    requires nBlk > 0 && b * nBlk <= LastByte(c, nBlk) <= LastByte(b, nBlk)
    ensures b == c
  {
    if c < b {
      MulMono(c + 1, b, nBlk);
    } else if c > b {
      MulMono(b + 1, c, nBlk);
    }
  }

  /** The blocks that are touched are those that lie wholly in the extension. */
  lemma TouchedIffWhole(b: int, size: nat, nSize: int, nBlk: nat)
    requires nBlk > 0
    ensures Touched(b, nBlk, Touches(size, nSize, nBlk)) <==> WholeBlock(b, nBlk, size, nSize)
  {
    if Touched(b, nBlk, Touches(size, nSize, nBlk)) {
      var o :| o in Touches(size, nSize, nBlk) && b * nBlk <= o <= LastByte(b, nBlk);
      var c :| WholeBlock(c, nBlk, size, nSize) && o == LastByte(c, nBlk);
      BlockOfLastByte(b, c, nBlk);
    }
    if WholeBlock(b, nBlk, size, nSize) {
      assert LastByte(b, nBlk) in Touches(size, nSize, nBlk);
    }
  }

  /** The blocks in which the extension begins and ends. */
  lemma EdgeBlocks(size: nat, nSize: nat, nBlk: nat)
    requires nBlk > 0 && size < nSize
    ensures Meets(size / nBlk, nBlk, size, nSize) && Meets((nSize - 1) / nBlk, nBlk, size, nSize)
    ensures WholeBlock(size / nBlk, nBlk, size, nSize) ==> size % nBlk == 0
    ensures WholeBlock((nSize - 1) / nBlk, nBlk, size, nSize) ==> nSize % nBlk == 0
  {
    DivSteps(size, nBlk);
    DivSteps(nSize - 1, nBlk);
    var q := (nSize - 1) / nBlk;
    NextBlock(q, nBlk);
    if WholeBlock(q, nBlk, size, nSize) {
      DivIs(nSize, nBlk, q + 1);
      assert nSize == nSize / nBlk * nBlk + nSize % nBlk;
    }
  }

  lemma MultipleOf(a: nat, n: nat)
    requires n > 0 && a % n == 0
    ensures a == a / n * n
  {
  }

  lemma AlignedMeetsWhole(b: int, size: nat, nSize: nat, nBlk: nat)
    requires nBlk > 0 && size % nBlk == 0 && nSize % nBlk == 0 && Meets(b, nBlk, size, nSize)
    ensures WholeBlock(b, nBlk, size, nSize)
  {
    MultipleOf(size, nBlk);
    MultipleOf(nSize, nBlk);
    assert (b + 1) * nBlk == b * nBlk + nBlk;
    if b < size / nBlk {
      MulMono(b + 1, size / nBlk, nBlk);
    }
    if b + 1 > nSize / nBlk {
      MulMono(nSize / nBlk, b, nBlk);
    } else {
      MulMono(b + 1, nSize / nBlk, nBlk);
    }
  }

  /** Growing the file touches every block of the extension exactly if the extension begins and ends at
  the boundary of a block. */
  lemma AllTouchedIff(size: nat, nSize: nat, nBlk: nat)
    requires nBlk > 0 && size < nSize
    ensures (forall b :: Meets(b, nBlk, size, nSize) ==> Touched(b, nBlk, Touches(size, nSize, nBlk)))
      <==> size % nBlk == 0 && nSize % nBlk == 0
  {
    hide Touched, Touches;
    forall b
      ensures Touched(b, nBlk, Touches(size, nSize, nBlk)) <==> WholeBlock(b, nBlk, size, nSize)
    {
      TouchedIffWhole(b, size, nSize, nBlk);
    }
    EdgeBlocks(size, nSize, nBlk);
    if size % nBlk == 0 && nSize % nBlk == 0 {
      forall b | Meets(b, nBlk, size, nSize)
        ensures WholeBlock(b, nBlk, size, nSize)
      {
        AlignedMeetsWhole(b, size, nSize, nBlk);
      }
    }
    hide WholeBlock, Meets;
  }

  /** With blocks of 4 bytes, growing a file from 1 byte to 4 leaves the one block it is in untouched, and
  growing it from 0 bytes to 6 leaves the second one untouched. */
  lemma UntouchedBlocks()
    ensures Meets(0, 4, 1, 4) && !Touched(0, 4, Touches(1, 4, 4))
    ensures Meets(1, 4, 0, 6) && !Touched(1, 4, Touches(0, 6, 4))
  {
    TouchedIffWhole(0, 1, 4, 4);
    TouchedIffWhole(1, 0, 6, 4);
  }

  class UnixFile {
    var data: seq<Byte>
    var szChunk: int
    /** How many more times the kernel will interrupt a call. */
    var interrupts: nat
    /** How often a call has failed for another reason. */
    ghost var errors: nat
    /** Offsets that were written. */
    ghost var written: set<int>

    /** pread(): an error, an interruption, or some of the bytes there are; none only if there are none. */
    method Pread(buf: array<Byte>, pos: nat, cnt: nat, offset: nat) returns (got: int, eintr: bool)
      requires pos + cnt <= buf.Length
      modifies buf, this`interrupts, this`errors
      ensures errors == old(errors) + if got == -1 && !eintr then 1 else 0
      ensures -1 <= got <= Available(data, offset, cnt)
      ensures got == 0 <==> got != -1 && Available(data, offset, cnt) == 0
      ensures eintr ==> got == -1 && interrupts < old(interrupts)
      ensures !eintr ==> interrupts == old(interrupts)
      ensures forall k :: 0 <= k < buf.Length && !(pos <= k < pos + got) ==> buf[k] == old(buf[k])
      ensures got > 0 ==> buf[pos..pos + got] == data[offset..offset + got]
    {
      var fails, interrupted := *, *;
      got, eintr := -1, false;
      if fails {
        if interrupted && interrupts > 0 {
          interrupts := interrupts - 1;
          eintr := true;
        } else {
          errors := errors + 1;
        }
        return;
      }
      var there := if offset >= |data| then 0 else if offset + cnt <= |data| then cnt else |data| - offset;
      if there == 0 {
        got := 0;
        return;
      }
      var n :| 1 <= n <= there;
      got := n;
      var k := 0;
      while k < n
        modifies buf
        invariant 0 <= k <= n
        invariant forall j :: 0 <= j < buf.Length && !(pos <= j < pos + k) ==> buf[j] == old(buf[j])
        invariant buf[pos..pos + k] == data[offset..offset + k]
      {
        buf[pos + k] := data[offset + k];
        k := k + 1;
        assert buf[pos..pos + k] == buf[pos..pos + k - 1] + [data[offset + k - 1]];
      }
    }

    /** seekAndRead(): the number of bytes read, or -1. */
    method SeekAndRead(offset: nat, buf: array<Byte>, cnt: nat) returns (total: int)
      requires cnt <= buf.Length && cnt <= 0x1ffff
      modifies buf, this`interrupts, this`errors
      ensures total == if errors > old(errors) then -1 else Available(data, offset, cnt)
      ensures total >= 0 ==> buf[..total] == Delivered(data, offset, cnt)
    {
      var prior, left, at, pos := 0, cnt, offset, 0;
      while true
        invariant 0 <= prior <= cnt && left == cnt - prior && at == offset + prior && pos == prior
        invariant prior <= Available(data, offset, cnt)
        invariant errors == old(errors)
        invariant prior > 0 ==> buf[..prior] == data[offset..offset + prior]
        decreases interrupts, left
      {
        ghost var before := buf[..prior];
        var got, eintr := Pread(buf, pos, left, at);
        assert buf[..prior] == before;
        if got == left {
          Joined(buf[..prior + got], prior, offset);
          return got + prior;
        }
        if got < 0 {
          if eintr {
            continue;
          }
          return -1;
        } else if got > 0 {
          Joined(buf[..prior + got], prior, offset);
          left := left - got;
          at := at + got;
          prior := prior + got;
          pos := pos + got;
        } else {
          return prior;
        }
      }
    }

    /** Two adjacent pieces of the file make one. */
    lemma Joined(s: seq<Byte>, prior: nat, offset: nat)
      requires prior <= |s| && (prior < |s| ==> offset + |s| <= |data|)
      requires prior > 0 ==> offset + prior <= |data| && s[..prior] == data[offset..offset + prior]
      requires prior < |s| ==> s[prior..] == data[offset + prior..offset + |s|]
      ensures |s| > 0 ==> offset + |s| <= |data| && s == data[offset..offset + |s|]
    {
    }

    /** unixRead() */
    method Read(buf: array<Byte>, amt: nat, offset: nat) returns (rc: ReadRc)
      requires amt <= buf.Length && amt <= 0x1ffff
      modifies buf, this`interrupts, this`errors
      ensures rc == ReadError <==> errors > old(errors)
      ensures rc == ReadOk ==> Available(data, offset, amt) == amt
      ensures rc == ReadOk ==> buf[..amt] == Delivered(data, offset, amt)
      ensures rc == ShortRead ==> Available(data, offset, amt) < amt
      ensures rc == ShortRead ==> buf[..amt] == Delivered(data, offset, amt) + Zeros(amt - Available(data, offset, amt))
    {
      var got := SeekAndRead(offset, buf, amt);
      if got == amt {
        rc := ReadOk;
      } else if got < 0 {
        rc := ReadError;
      } else {
        ghost var part := buf[..got];
        forall k | got <= k < amt {
          buf[k] := 0;
        }
        assert buf[..amt] == part + Zeros(amt - got);
        rc := ShortRead;
      }
    }

    /** robust_ftruncate(): growing fills with zeros. */
    method Ftruncate(size: nat) returns (failed: bool)
      requires size >= |data|
      modifies this`data
      ensures data == if failed then old(data) else old(data) + Zeros(size - |old(data)|)
    {
      failed := *;
      if !failed {
        data := data + seq(size - |data|, _ => 0);
      }
    }

    /** seekAndWrite() of one zero byte inside the file. */
    method WriteZero(offset: nat) returns (got: int)
      requires offset < |data|
      modifies this`data, this`written
      ensures got == 1 ==> data == old(data)[offset := 0] && written == old(written) + {offset}
      ensures got != 1 ==> data == old(data) && written == old(written)
    {
      var fails := *;
      if fails {
        return -1;
      }
      data := data[offset := 0];
      written := written + {offset};
      got := 1;
    }

    lemma ZeroIsThere(was: seq<Byte>, offset: nat)
      requires |was| <= offset < |data| && data == was + Zeros(|data| - |was|)
      ensures data[offset := 0] == data
    {
    }

    /** The loop that touches the last byte of every whole block of the extension. */
    method TouchBlocks(was: nat, nBlk: nat, nSize: nat, ghost before: seq<Byte>) returns (rc: HintRc)
      requires nBlk > 0 && was == |before| < nSize == |data| && data == before + Zeros(nSize - was)
      modifies this`data, this`written
      ensures rc == HintOk || rc == WriteError
      ensures data == before + Zeros(nSize - was)
      ensures rc == HintOk ==> forall o :: o in written <==> o in old(written) || o in Touches(was, nSize, nBlk)
      ensures forall o :: o in old(written) ==> o in written
      ensures forall o :: o in written ==> o in old(written) || o in Touches(was, nSize, nBlk)
    {
      ghost var first := FirstWholeBlock(was, nBlk);
      ghost var k := first;
      FirstWriteOffset(was, nBlk);
      WholeBlocksAre(was, nSize, nBlk);
      var iWrite := CDiv(was + 2 * nBlk - 1, nBlk) * nBlk - 1;
      hide LastByte, FirstWholeBlock, WholeBlock, CDiv;
      while iWrite < nSize
        invariant k >= first && iWrite == LastByte(k, nBlk) >= was
        invariant data == before + Zeros(nSize - was)
        invariant forall b :: first <= b < k ==> LastByte(b, nBlk) in written
        invariant forall o :: o in old(written) ==> o in written
        invariant forall o :: o in written ==> o in old(written) || o in Touches(was, nSize, nBlk)
        decreases nSize - iWrite
      {
        assert WholeBlock(k, nBlk, was, nSize);
        ZeroIsThere(before, iWrite);
        var nWrite := WriteZero(iWrite);
        if nWrite != 1 {
          return WriteError;
        }
        NextBlock(k, nBlk);
        k := k + 1;
        iWrite := iWrite + nBlk;
      }
      LaterBlocks(k, nBlk, nSize);
      rc := HintOk;
    }

    /** fcntlSizeHint() where posix_fallocate() is missing; `statFails` is what fstat() answers and nBlk
    the block size it reports.  However it ends, the old bytes stay and what follows them is zero. */
    method SizeHint(nByte: int, statFails: bool, nBlk: nat) returns (rc: HintRc)
      requires nBlk > 0
      modifies this`data, this`written
      ensures szChunk <= 0 ==> rc == HintOk && data == old(data)
      ensures rc == HintOk && szChunk > 0 ==>
        data == old(data) + Zeros(Growth(|old(data)|, ChunkRounded(nByte, szChunk)))
      ensures rc == HintOk && szChunk > 0 ==>
        forall o :: o in written <==> o in old(written) || o in Touches(|old(data)|, ChunkRounded(nByte, szChunk), nBlk)
      ensures szChunk > 0 ==>
        && (forall o :: o in old(written) ==> o in written)
        && (forall o :: o in written ==>
          o in old(written) || o in Touches(|old(data)|, ChunkRounded(nByte, szChunk), nBlk))
      ensures szChunk <= 0 ==> written == old(written)
      ensures exists n :: data == old(data) + Zeros(n)
    {
      assert data == data + Zeros(0);
      if szChunk > 0 {
        if statFails {
          return StatError;
        }
        var size := |data|;
        ghost var before := data;
        var nSize := ChunkRounded(nByte, szChunk);
        if nSize > size {
          var failed := Ftruncate(nSize);
          if failed {
            return TruncateError;
          }
          rc := TouchBlocks(size, nBlk, nSize, before);
          return;
        }
        NoBlocks(size, nSize, nBlk);
      }
      rc := HintOk;
    }

    static function Growth(size: nat, nSize: int): nat {
      if nSize > size then nSize - size else 0
    }

    static lemma NoBlocks(size: nat, nSize: int, nBlk: nat)
      requires nBlk > 0 && nSize <= size
      ensures forall b :: !WholeBlock(b, nBlk, size, nSize)
    {
    }
  }
}
