/** What ext2_write of kernel/ext2.c does where the file has no block yet. */
module Ext2Holes {
  import opened Bytes
  import opened Ext2Layout
  import opened BlockFile
  import opened Ext2File

  /** The block that every hole is given is on the device. */
  predicate CanAllocate(fs: Fs, io: Io) {
    0 < AllocBlock(fs) < |io.disk|
  }

  /** A write of `buf` that stays within the block at the position. */
  ghost predicate OneChunk(fs: Fs, io: Io, buf: seq<byte>) {
    && GoodDisk(fs, io.disk) && fs.blockSize > 0 && buf != [] && io.position + |buf| < WORD
    && OffsetOf(io.position, fs.blockSize) + |buf| <= fs.blockSize && CanAllocate(fs, io)
  }

  /** The device after the given block got the buffer. */
  ghost function Filled(fs: Fs, io: Io, buf: seq<byte>): Disk
    requires OneChunk(fs, io, buf)
  {
    var b := AllocBlock(fs);
    io.disk[b := Splice(io.disk[b], OffsetOf(io.position, fs.blockSize), buf)]
  }

  lemma ChunkRun(fs: Fs, io: Io, buf: seq<byte>)
    requires OneChunk(fs, io, buf) && BlockNo(fs, io.disk, io.inode, IndexOf(io.position, fs.blockSize)) == Some(0)
    ensures var i := IndexOf(io.position, fs.blockSize);
            var r := if i < 12 then WithBlock(io.inode, i, AllocBlock(fs)) else io.inode;
            && Iterated(fs, io, buf) == (true, Grown(io.(disk := Filled(fs, io, buf), inode := r), |buf|))
            && Finished(fs, io, buf) == Iterated(fs, io, buf)
  {
    assert buf[..|buf|] == buf && buf[|buf|..] == [];
    FinishedStep(fs, io, buf);
  }

  /** The block pointers of the record after the write. */
  lemma GrownFields(io: Io, m: nat, k: nat)
    requires io.position + m < WORD && k < 15
    ensures BlockField(Grown(io, m).inode, k) == BlockField(io.inode, k)
  {
    if io.position + m > io.size {
      WithSizeFields(io.inode, io.position + m);
    }
  }

  /** A hole among the direct blocks gets the block, with what it happened to hold around the buffer. */
  lemma DirectHole(fs: Fs, io: Io, buf: seq<byte>, o: nat)
    requires OneChunk(fs, io, buf) && o < fs.blockSize
    requires IndexOf(io.position, fs.blockSize) < 12 && BlockField(io.inode, IndexOf(io.position, fs.blockSize)) == 0
    ensures var (ok, io') := Finished(fs, io, buf);
            var i, off := IndexOf(io.position, fs.blockSize), OffsetOf(io.position, fs.blockSize);
            && ok && |io'.disk| == |io.disk| && io'.disk == Filled(fs, io, buf)
            && At(FileOf(fs, io'.disk, io'.inode), i) == Some(AllocBlock(fs))
            && BlockByte(FileOf(fs, io'.disk, io'.inode), io'.disk, i, o)
               == if off <= o < off + |buf| then buf[o - off] else io.disk[AllocBlock(fs)][o]
  {
    HolePointer(fs, io, buf);
  }

  lemma HolePointer(fs: Fs, io: Io, buf: seq<byte>)
    requires OneChunk(fs, io, buf)
    requires IndexOf(io.position, fs.blockSize) < 12 && BlockField(io.inode, IndexOf(io.position, fs.blockSize)) == 0
    ensures var (ok, io') := Finished(fs, io, buf);
            && ok && io'.disk == Filled(fs, io, buf)
            && At(FileOf(fs, io'.disk, io'.inode), IndexOf(io.position, fs.blockSize)) == Some(AllocBlock(fs))
  {
    var i := IndexOf(io.position, fs.blockSize);
    ChunkRun(fs, io, buf);
    var io' := Finished(fs, io, buf).1;
    WithBlockFields(io.inode, i, AllocBlock(fs), i);
    GrownFields(io.(disk := Filled(fs, io, buf), inode := WithBlock(io.inode, i, AllocBlock(fs))), |buf|, i);
    FileOfAt(fs, io'.disk, io'.inode, i);
  }

  /** Around the buffer the former hole still reads as zeros exactly when the given block was blank there. */
  lemma HoleStaysBlankIff(fs: Fs, io: Io, buf: seq<byte>)
    requires OneChunk(fs, io, buf)
    requires IndexOf(io.position, fs.blockSize) < 12 && BlockField(io.inode, IndexOf(io.position, fs.blockSize)) == 0
    ensures var io' := Finished(fs, io, buf).1;
            var i, off := IndexOf(io.position, fs.blockSize), OffsetOf(io.position, fs.blockSize);
            && Reachable(FileOf(fs, io'.disk, io'.inode), |io'.disk|, i)
            && ((forall o: nat :: o < fs.blockSize && !(off <= o < off + |buf|) ==>
                   BlockByte(FileOf(fs, io'.disk, io'.inode), io'.disk, i, o) == 0)
                <==> (forall o: nat :: o < fs.blockSize && !(off <= o < off + |buf|) ==>
                        io.disk[AllocBlock(fs)][o] == 0))
  {
    DirectHole(fs, io, buf, 0);
    forall o: nat | o < fs.blockSize
      ensures var io' := Finished(fs, io, buf).1;
              var i, off := IndexOf(io.position, fs.blockSize), OffsetOf(io.position, fs.blockSize);
              BlockByte(FileOf(fs, io'.disk, io'.inode), io'.disk, i, o)
              == if off <= o < off + |buf| then buf[o - off] else io.disk[AllocBlock(fs)][o]
    {
      DirectHole(fs, io, buf, o);
    }
  }

  /** A hole behind the indirect block stays one: the write reports success and the buffer is lost. */
  lemma IndirectHole(fs: Fs, io: Io, buf: seq<byte>)
    requires OneChunk(fs, io, buf) && NotIndirect(io.inode, AllocBlock(fs))
    requires IndexOf(io.position, fs.blockSize) >= 12
    requires BlockNo(fs, io.disk, io.inode, IndexOf(io.position, fs.blockSize)) == Some(0)
    ensures var (ok, io') := Finished(fs, io, buf);
            && ok && FileOf(fs, io'.disk, io'.inode) == FileOf(fs, io.disk, io.inode)
            && At(FileOf(fs, io'.disk, io'.inode), IndexOf(io.position, fs.blockSize)) == Some(0)
  {
    ChunkRun(fs, io, buf);
    var io', b := Finished(fs, io, buf).1, AllocBlock(fs);
    StoreKeepsFile(fs, io.disk, io.inode, b, Filled(fs, io, buf)[b]);
    assert Grown(io.(disk := io'.disk), |buf|).inode == Resized(io.inode, io.size, io.position + |buf|, |buf|);
    ResizedSameFile(fs, io'.disk, io.inode, io.size, io.position + |buf|, |buf|);
    FileOfAt(fs, io.disk, io.inode, IndexOf(io.position, fs.blockSize));
  }

  // ----- any number of holes -----

  /** All that the buffer covers from the position on are direct holes. */
  ghost predicate OverHoles(fs: Fs, io: Io, buf: seq<byte>) {
    && GoodDisk(fs, io.disk) && fs.blockSize > 0 && CanAllocate(fs, io) && io.position + |buf| < WORD
    && forall p: nat :: io.position <= p < io.position + |buf| ==> IsHole(fs, io, p)
  }

  ghost predicate IsHole(fs: Fs, io: Io, p: nat)
    requires fs.blockSize > 0
  {
    IndexOf(p, fs.blockSize) < 12 && BlockField(io.inode, IndexOf(p, fs.blockSize)) == 0
  }

  ghost predicate IsGiven(fs: Fs, io: Io, p: nat)
    requires fs.blockSize > 0
  {
    IndexOf(p, fs.blockSize) < 12 && BlockField(io.inode, IndexOf(p, fs.blockSize)) == AllocBlock(fs)
  }

  /** The given block has the byte at the offset of position p. */
  ghost predicate Has(fs: Fs, io: Io, p: nat, x: byte)
    requires GoodDisk(fs, io.disk) && fs.blockSize > 0 && CanAllocate(fs, io)
  {
    io.disk[AllocBlock(fs)][OffsetOf(p, fs.blockSize)] == x
  }

  /** It has the byte of the buffer that was to go to position p. */
  ghost predicate Keeps(fs: Fs, io: Io, p0: nat, buf: seq<byte>, p: nat)
    requires GoodDisk(fs, io.disk) && fs.blockSize > 0 && CanAllocate(fs, io) && p0 <= p < p0 + |buf|
  {
    Has(fs, io, p, buf[p - p0])
  }

  /** After w bytes: the indices covered so far all have the same block, the others are still holes, and the block
      holds the last bytes written, as many as it has room for. */
  ghost predicate Filling(fs: Fs, p0: nat, io: Io, buf: seq<byte>, w: nat) {
    && GoodDisk(fs, io.disk) && fs.blockSize > 0 && CanAllocate(fs, io) && p0 + |buf| < WORD
    && w <= |buf| && io.position == p0 + w && (0 < w < |buf| ==> OffsetOf(p0 + w, fs.blockSize) == 0)
    && (forall p: nat :: p0 <= p < p0 + w ==> IsGiven(fs, io, p))
    && (forall p: nat :: p0 + w <= p < p0 + |buf| ==> IsHole(fs, io, p))
    && (forall p: nat :: p0 <= p < p0 + w <= p + fs.blockSize ==> Keeps(fs, io, p0, buf, p))
  }

  /** Positions with the same offset are whole blocks apart. */
  lemma SameOffset(x: nat, y: nat, d: nat)
    requires d > 0 && OffsetOf(x, d) == OffsetOf(y, d) && x < y
    ensures x + d <= y
  {
    PositionParts(x, d);
    PositionParts(y, d);
    MulGap(IndexOf(y, d), IndexOf(x, d), d);
    MulGap(IndexOf(x, d), IndexOf(y, d), d);
  }

  /** Past the end of the block at p the index is another. */
  lemma PastBlock(p: nat, q: nat, d: nat)
    requires d > 0 && p + (d - OffsetOf(p, d)) <= q
    ensures IndexOf(q, d) != IndexOf(p, d)
  {
    if IndexOf(q, d) == IndexOf(p, d) {
      BlockStretch(p, q, d);
    }
  }

  lemma {:induction false} NextStart(p: nat, d: nat)
    requires d > 0
    ensures OffsetOf(p + (d - OffsetOf(p, d)), d) == 0
    decreases p
  {
    if p >= d {
      NextStart(p - d, d);
      assert p + (d - OffsetOf(p, d)) - d == p - d + (d - OffsetOf(p - d, d));
    }
  }

  /** One iteration over a hole, with more to come or not. */
  lemma HoleIteration(fs: Fs, io: Io, rest: seq<byte>)
    requires OverHoles(fs, io, rest) && rest != []
    ensures var i, b, m := IndexOf(io.position, fs.blockSize), AllocBlock(fs), Piece(fs, io.position, |rest|);
            && i < 12
            && var block := Splice(io.disk[b], OffsetOf(io.position, fs.blockSize), rest[..m]);
               Iterated(fs, io, rest)
               == (true, Grown(io.(disk := io.disk[b := block], inode := WithBlock(io.inode, i, b)), m))
  {
    assert IsHole(fs, io, io.position);
  }

  /** The pointers after it. */
  lemma FillPointer(fs: Fs, io: Io, rest: seq<byte>, j: nat)
    requires OverHoles(fs, io, rest) && rest != [] && j < 12
    ensures BlockField(Iterated(fs, io, rest).1.inode, j)
            == if j == IndexOf(io.position, fs.blockSize) then AllocBlock(fs) else BlockField(io.inode, j)
  {
    var i, b, m := IndexOf(io.position, fs.blockSize), AllocBlock(fs), Piece(fs, io.position, |rest|);
    HoleIteration(fs, io, rest);
    WithBlockFields(io.inode, i, b, j);
    GrownFields(io.(disk := io.disk[b := Splice(io.disk[b], OffsetOf(io.position, fs.blockSize), rest[..m])],
                    inode := WithBlock(io.inode, i, b)), m, j);
  }

  /** A position of the last d before the end of a piece has its offset in the piece only if it lies there. */
  lemma OffsetInPiece(q: nat, p: nat, m: nat, d: nat)
    requires d > 0 && OffsetOf(q, d) + m <= d && p < q + m <= p + d
    ensures p >= q ==> OffsetOf(p, d) == OffsetOf(q, d) + (p - q)
    ensures p < q ==> !(OffsetOf(q, d) <= OffsetOf(p, d) < OffsetOf(q, d) + m)
  {
    if p >= q {
      SameBlock(q, p - q, d);
    } else if OffsetOf(q, d) <= OffsetOf(p, d) < OffsetOf(q, d) + m {
      var k := OffsetOf(p, d) - OffsetOf(q, d);
      SameBlock(q, k, d);
      SameOffset(p, q + k, d);
    }
  }

  /** What the given block holds after it: at offsets in the piece the new bytes, elsewhere what it held. */
  lemma FillContent(fs: Fs, io: Io, rest: seq<byte>, p: nat, x: byte)
    requires OverHoles(fs, io, rest) && rest != []
    requires var m := Piece(fs, io.position, |rest|);
             && p < io.position + m <= p + fs.blockSize
             && (if p >= io.position then x == rest[p - io.position] else Has(fs, io, p, x))
    ensures CanAllocate(fs, Iterated(fs, io, rest).1) && Has(fs, Iterated(fs, io, rest).1, p, x)
  {
    HoleIteration(fs, io, rest);
    OffsetInPiece(io.position, p, Piece(fs, io.position, |rest|), fs.blockSize);
  }

  lemma FillStep(fs: Fs, p0: nat, io: Io, buf: seq<byte>, w: nat) returns (m: nat)
    requires Filling(fs, p0, io, buf, w) && w < |buf|
    ensures m == Piece(fs, io.position, |buf| - w) && OverHoles(fs, io, buf[w..])
    ensures Iterated(fs, io, buf[w..]).0 && Filling(fs, p0, Iterated(fs, io, buf[w..]).1, buf, w + m)
  {
    var rest := buf[w..];
    m := Piece(fs, io.position, |rest|);
    HoleIteration(fs, io, rest);
    var io' := Iterated(fs, io, rest).1;
    NextStart(io.position, fs.blockSize);
    forall p: nat | p0 <= p < p0 + w + m
      ensures IsGiven(fs, io', p)
    {
      GivenStep(fs, p0, io, buf, w, p);
    }
    forall p: nat | p0 + w + m <= p < p0 + |buf|
      ensures IsHole(fs, io', p)
    {
      assert IsHole(fs, io, p);
      PastBlock(io.position, p, fs.blockSize);
      FillPointer(fs, io, rest, IndexOf(p, fs.blockSize));
    }
    forall p: nat | p0 <= p < p0 + w + m <= p + fs.blockSize
      ensures Keeps(fs, io', p0, buf, p)
    {
      assert p < p0 + w ==> Keeps(fs, io, p0, buf, p);
      FillContent(fs, io, rest, p, buf[p - p0]);
    }
  }

  lemma GivenStep(fs: Fs, p0: nat, io: Io, buf: seq<byte>, w: nat, p: nat)
    requires Filling(fs, p0, io, buf, w) && w < |buf| && OverHoles(fs, io, buf[w..])
    requires p0 <= p < p0 + w + Piece(fs, io.position, |buf| - w)
    ensures IsGiven(fs, Iterated(fs, io, buf[w..]).1, p)
  {
    if p >= io.position {
      SameBlock(io.position, p - io.position, fs.blockSize);
      assert IsHole(fs, io, io.position);
    } else {
      assert IsGiven(fs, io, p);
    }
    FillPointer(fs, io, buf[w..], IndexOf(p, fs.blockSize));
  }

  lemma {:induction false} FillRun(fs: Fs, p0: nat, io: Io, buf: seq<byte>, w: nat)
    requires Filling(fs, p0, io, buf, w)
    ensures OverHoles(fs, io, buf[w..])
    ensures var (ok, io') := Finished(fs, io, buf[w..]); ok && Filling(fs, p0, io', buf, |buf|)
    decreases |buf| - w
  {
    if w < |buf| {
      var m := FillStep(fs, p0, io, buf, w);
      FinishedStep(fs, io, buf[w..]);
      assert buf[w..][m..] == buf[w + m..];
      FillRun(fs, p0, Iterated(fs, io, buf[w..]).1, buf, w + m);
    }
  }

  /** The last byte of the buffer that goes to the same offset as byte k. */
  function LastAt(k: nat, n: nat, d: nat): (r: nat)
    requires k < n && d > 0
    ensures k <= r < n <= r + d
    decreases n - k
  {
    if k + d < n then LastAt(k + d, n, d) else k
  }

  lemma {:induction false} LastOffset(p: nat, k: nat, n: nat, d: nat)
    requires k < n && d > 0
    ensures OffsetOf(p + LastAt(k, n, d), d) == OffsetOf(p + k, d)
    decreases n - k
  {
    if k + d < n {
      LastOffset(p, k + d, n, d);
      assert p + (k + d) - d == p + k;
    }
  }

  lemma GivenByte(fs: Fs, io: Io, p: nat, x: byte)
    requires GoodDisk(fs, io.disk) && fs.blockSize > 0 && CanAllocate(fs, io) && IsGiven(fs, io, p) && Has(fs, io, p, x)
    ensures HasByte(FileOf(fs, io.disk, io.inode), |io.disk|, p)
    ensures ByteAt(FileOf(fs, io.disk, io.inode), io.disk, p) == x
  {
    FileOfAt(fs, io.disk, io.inode, IndexOf(p, fs.blockSize));
  }

  lemma FilledByte(fs: Fs, p0: nat, io: Io, buf: seq<byte>, k: nat)
    requires Filling(fs, p0, io, buf, |buf|) && k < |buf|
    ensures HasByte(FileOf(fs, io.disk, io.inode), |io.disk|, p0 + k)
    ensures ByteAt(FileOf(fs, io.disk, io.inode), io.disk, p0 + k) == buf[LastAt(k, |buf|, fs.blockSize)]
  {
    var last := LastAt(k, |buf|, fs.blockSize);
    assert Keeps(fs, io, p0, buf, p0 + last);
    LastOffset(p0, k, |buf|, fs.blockSize);
    GivenByte(fs, io, p0 + k, buf[last]);
  }

  /** Each byte of a write over holes reads back as the last byte written to its offset. */
  lemma HoleByte(fs: Fs, io: Io, buf: seq<byte>, k: nat)
    requires OverHoles(fs, io, buf) && k < |buf|
    ensures var (ok, io') := Finished(fs, io, buf);
            && ok && HasByte(FileOf(fs, io'.disk, io'.inode), |io'.disk|, io.position + k)
            && ByteAt(FileOf(fs, io'.disk, io'.inode), io'.disk, io.position + k)
               == buf[LastAt(k, |buf|, fs.blockSize)]
  {
    assert buf[0..] == buf;
    FillRun(fs, io.position, io, buf, 0);
    FilledByte(fs, io.position, Finished(fs, io, buf).1, buf, k);
  }

  /** The buffer repeats itself from block to block. */
  ghost predicate Repeats(buf: seq<byte>, d: nat) {
    forall k: nat :: k + d < |buf| ==> buf[k] == buf[k + d]
  }

  lemma {:induction false} RepeatsToLast(buf: seq<byte>, k: nat, d: nat)
    requires k < |buf| && d > 0 && Repeats(buf, d)
    ensures buf[LastAt(k, |buf|, d)] == buf[k]
    decreases |buf| - k
  {
    if k + d < |buf| {
      RepeatsToLast(buf, k + d, d);
    }
  }

  /** The file after the write, and whether it has the buffer at the position. */
  ghost predicate ReadsBack(fs: Fs, io: Io, buf: seq<byte>)
    requires OverHoles(fs, io, buf)
  {
    var io' := Finished(fs, io, buf).1;
    Delivers(FileOf(fs, io'.disk, io'.inode), io'.disk, io.position, buf)
  }

  /** A write over direct holes, of any position and length, succeeds, and it can be read back exactly when the
      buffer repeats itself from block to block: all holes are given the same block. */
  lemma HolesReadBackIff(fs: Fs, io: Io, buf: seq<byte>)
    requires OverHoles(fs, io, buf)
    ensures Finished(fs, io, buf).0
    ensures ReadsBack(fs, io, buf) <==> Repeats(buf, fs.blockSize)
  {
    var d, p0, io' := fs.blockSize, io.position, Finished(fs, io, buf).1;
    var f := FileOf(fs, io'.disk, io'.inode);
    if buf != [] {
      HoleByte(fs, io, buf, 0);
    }
    forall p: nat | p0 <= p < p0 + |buf|
      ensures HasByte(f, |io'.disk|, p) && ByteAt(f, io'.disk, p) == buf[LastAt(p - p0, |buf|, d)]
    {
      HoleByte(fs, io, buf, p - p0);
    }
    BackIffRepeats(f, io'.disk, p0, buf, d);
  }

  lemma BackIffRepeats(f: File, disk: Disk, p0: nat, buf: seq<byte>, d: nat)
    requires Fits(f, disk) && d > 0
    requires forall p: nat :: p0 <= p < p0 + |buf| ==>
               HasByte(f, |disk|, p) && ByteAt(f, disk, p) == buf[LastAt(p - p0, |buf|, d)]
    ensures Delivers(f, disk, p0, buf) <==> Repeats(buf, d)
  {
    if Repeats(buf, d) {
      forall p: nat | p0 <= p < p0 + |buf|
        ensures HasByte(f, |disk|, p) && buf[p - p0] == ByteAt(f, disk, p)
      {
        RepeatsToLast(buf, p - p0, d);
      }
    }
    if Delivers(f, disk, p0, buf) {
      forall k: nat | k + d < |buf|
        ensures buf[k] == buf[k + d]
      {
        var p, q := p0 + k, p0 + k + d;
        assert buf[p - p0] == ByteAt(f, disk, p) && buf[q - p0] == ByteAt(f, disk, q);
      }
    }
  }

  /** So two whole blocks read back exactly when they are the same. */
  lemma TwoHolesReadBackIff(fs: Fs, io: Io, a: seq<byte>, b: seq<byte>)
    requires OverHoles(fs, io, a + b) && |a| == |b| == fs.blockSize
    ensures ReadsBack(fs, io, a + b) <==> a == b
  {
    HolesReadBackIff(fs, io, a + b);
    var d := fs.blockSize;
    assert forall k: nat :: k < d ==> (a + b)[k] == a[k] && (a + b)[k + d] == b[k];
    if a != b {
      var k: nat :| k < d && a[k] != b[k];
      assert (a + b)[k] != (a + b)[k + d];
    }
  }

  lemma {:induction false} ZeroWord(s: seq<byte>)
    requires forall k :: 0 <= k < |s| ==> s[k] == 0
    ensures LittleEndian(s) == 0
  {
    if s != [] {
      ZeroWord(s[1..]);
    }
  }

  lemma NoPointers(r: Inode, k: nat)
    requires k < 15 && forall j :: 0 <= j < 124 ==> r[j] == 0
    ensures BlockField(r, k) == 0
  {
    ZeroWord(r[40 + 4 * k..40 + 4 * k + 4]);
  }

  /** A volume with blocks of 1 KiB, ten of them, and one group whose inode table starts at block 1; on it a new
      file. Whatever up to 12 KiB are written there meet the conditions. */
  lemma NewFileExample(fs: Fs, io: Io, buf: seq<byte>)
    requires fs == Fs(1024, 8, 128, [1], [1]) && GoodDisk(fs, io.disk) && |io.disk| == 10
    requires io.position == 0 && (forall j :: 0 <= j < 124 ==> io.inode[j] == 0) && |buf| <= 12 * 1024
    ensures AllocBlock(fs) == 9 && OverHoles(fs, io, buf)
  {
    forall p: nat | p < |buf|
      ensures IsHole(fs, io, p)
    {
      IndexIsQuotient(p, 1024);
      NoPointers(io.inode, IndexOf(p, 1024));
    }
  }
}
