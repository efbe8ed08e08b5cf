/** ext2_get_block_number, ext2_read and ext2_write of kernel/ext2.c over direct and single-indirect
    blocks. */
module Ext2File {
  import opened Bytes
  import opened Ext2Layout
  import opened BlockFile

  // ----- from an inode to the blocks of its file -----

  /** ext2_get_block_number; None is its error result, 0 a hole. */
  function BlockNo(fs: Fs, disk: Disk, r: Inode, index: nat): Option<nat>
    requires GoodDisk(fs, disk)
  {
    if index < 12 then Some(BlockField(r, index))
    else if index < 12 + fs.blockSize / 4 then
      var indirect := BlockField(r, 12);
      if indirect == 0 then Some(0)
      else if indirect >= |disk| then None
      else Some(U32(disk[indirect], 4 * (index - 12)))
    else None
  }

  function BlockList(fs: Fs, disk: Disk, r: Inode, k: nat): (s: seq<Option<nat>>)
    requires GoodDisk(fs, disk)
    ensures |s| == k
  {
    if k == 0 then [] else BlockList(fs, disk, r, k - 1) + [BlockNo(fs, disk, r, k - 1)]
  }

  function FileOf(fs: Fs, disk: Disk, r: Inode): File
    requires GoodDisk(fs, disk) && fs.blockSize > 0
  {
    Extents(fs.blockSize, BlockList(fs, disk, r, 12 + fs.blockSize / 4))
  }

  lemma {:induction false} BlockListAt(fs: Fs, disk: Disk, r: Inode, k: nat, i: nat)
    requires GoodDisk(fs, disk) && i < k
    ensures BlockList(fs, disk, r, k)[i] == BlockNo(fs, disk, r, i)
  {
    if i < k - 1 {
      BlockListAt(fs, disk, r, k - 1, i);
    }
  }

  /** The file has at each index what ext2_get_block_number answers, errors included. */
  lemma FileOfAt(fs: Fs, disk: Disk, r: Inode, i: nat)
    requires GoodDisk(fs, disk) && fs.blockSize > 0
    ensures At(FileOf(fs, disk, r), i) == BlockNo(fs, disk, r, i)
  {
    if i < 12 + fs.blockSize / 4 {
      BlockListAt(fs, disk, r, 12 + fs.blockSize / 4, i);
    }
  }

  /** Block b is not the one that holds the file's indirect pointers. */
  predicate NotIndirect(r: Inode, b: nat) {
    BlockField(r, 12) == 0 || b != BlockField(r, 12)
  }

  lemma {:induction false} BlockListStays(fs: Fs, disk: Disk, r: Inode, b: nat, block: Block, k: nat)
    requires GoodDisk(fs, disk) && b < |disk| && |block| == fs.blockSize && NotIndirect(r, b)
    ensures BlockList(fs, disk[b := block], r, k) == BlockList(fs, disk, r, k)
  {
    if k > 0 {
      BlockListStays(fs, disk, r, b, block, k - 1);
    }
  }

  /** A write to any other block leaves the file its blocks. */
  lemma StoreKeepsFile(fs: Fs, disk: Disk, r: Inode, b: nat, block: Block)
    requires GoodDisk(fs, disk) && fs.blockSize > 0 && b < |disk| && |block| == fs.blockSize && NotIndirect(r, b)
    ensures FileOf(fs, disk[b := block], r) == FileOf(fs, disk, r)
  {
    BlockListStays(fs, disk, r, b, block, 12 + fs.blockSize / 4);
  }

  /** Records with the same block pointers describe the same file. */
  ghost predicate SameBlocks(r: Inode, r': Inode) {
    forall k: nat :: k < 15 ==> BlockField(r', k) == BlockField(r, k)
  }

  lemma {:induction false} SameBlocksSameList(fs: Fs, disk: Disk, r: Inode, r': Inode, k: nat)
    requires GoodDisk(fs, disk) && SameBlocks(r, r')
    ensures BlockList(fs, disk, r', k) == BlockList(fs, disk, r, k)
  {
    if k > 0 {
      SameBlocksSameList(fs, disk, r, r', k - 1);
    }
  }

  // ----- the inode record -----

  function Max(a: nat, b: nat): nat {
    if a < b then b else a
  }

  /** The inode record after a write that ends at `end`. */
  function Resized(r: Inode, size: nat, end: nat, count: nat): Inode
    requires end < WORD
  {
    if count > 0 && end > size then WithSize(r, end) else r
  }

  lemma ResizedSameFile(fs: Fs, disk: Disk, r: Inode, size: nat, end: nat, count: nat)
    requires GoodDisk(fs, disk) && fs.blockSize > 0 && end < WORD
    ensures FileOf(fs, disk, Resized(r, size, end, count)) == FileOf(fs, disk, r)
    ensures BlockField(Resized(r, size, end, count), 12) == BlockField(r, 12)
  {
    var r' := Resized(r, size, end, count);
    if count > 0 && end > size {
      WithSizeFields(r, end);
    }
    SameBlocksSameList(fs, disk, r, r', 12 + fs.blockSize / 4);
  }

  /** Growing the size chunk by chunk ends where growing it once does. */
  lemma ResizedStep(r: Inode, size0: nat, mid: nat, count: nat, m: nat)
    requires mid + m < WORD && m > 0
    ensures var size := if count == 0 then size0 else Max(size0, mid);
            Resized(Resized(r, size0, mid, count), size, mid + m, m) == Resized(r, size0, mid + m, count + m)
  {
    assert WithSize(WithSize(r, mid), mid + m) == WithSize(r, mid + m);
  }

  // ----- what a write asks of the file -----

  /** Index i has a block of its own, apart from the block of indirect pointers. */
  ghost predicate Own(f: File, size: nat, r: Inode, i: nat) {
    Mapped(f, size, i) && Alone(f, size, i) && NotIndirect(r, At(f, i).value)
  }

  /** The touched indices have blocks of their own, and the inode-table block `inodeBlock` is neither a
      data block of the file nor its indirect block. */
  ghost predicate CanWrite(f: File, size: nat, r: Inode, inodeBlock: nat, from: nat, to: nat) {
    && (forall p: nat :: from <= p < to ==> Own(f, size, r, IndexOf(p, f.bs)))
    && NotIndirect(r, inodeBlock) && inodeBlock != 0 && NoData(f, inodeBlock)
  }

  ghost predicate NoData(f: File, b: nat) {
    forall i: nat :: At(f, i) != Some(b)
  }

  lemma InodeBlockIsNoData(f: File, b: nat, from: nat, to: nat)
    requires NoData(f, b)
    ensures !IsDataOf(f, from, to, b)
  {
  }

  /** A write to a block without data, such as one of the inode table, disturbs no byte of the file. */
  lemma SpareWrite(f: File, disk0: Disk, disk: Disk, b: nat, block: Block, from: nat, buf: seq<byte>)
    requires Spliced(f, disk0, disk, from, buf) && OnlyTouches(f, disk0, disk, from, from + |buf|, b)
    requires b < |disk| && |block| == f.bs && b != 0 && NoData(f, b)
    ensures Spliced(f, disk0, disk[b := block], from, buf)
    ensures OnlyTouches(f, disk0, disk[b := block], from, from + |buf|, b)
  {
    var disk' := disk[b := block];
    forall q: nat | HasByte(f, |disk0|, q)
      ensures ByteAt(f, disk', q) == if from <= q < from + |buf| then buf[q - from] else ByteAt(f, disk0, q)
    {
      assert ByteAt(f, disk', q) == ByteAt(f, disk, q);
    }
  }

  lemma TakeMore(buf: seq<byte>, w: nat, m: nat)
    requires w + m <= |buf|
    ensures buf[..w] + buf[w..w + m] == buf[..w + m]
  {
  }

  // ----- ext2_write as a function -----

  /** The device together with what an open file keeps in memory. */
  datatype Io = Io(disk: Disk, inode: Inode, position: nat, size: nat)

  /** ext2_alloc_block: the block that follows so many blocks after the inode table of the first group with a
      free one. Nothing is marked as taken. */
  function AllocFrom(fs: Fs, g: nat): (b: nat)
    ensures b < WORD
    decreases |fs.inodeTables| - g
  {
    if g >= |fs.inodeTables| then 0
    else if g < |fs.freeBlocks| && fs.freeBlocks[g] > 0 then (fs.inodeTables[g] + fs.inodesPerGroup) % WORD
    else AllocFrom(fs, g + 1)
  }

  function AllocBlock(fs: Fs): (b: nat)
    ensures b < WORD
  {
    AllocFrom(fs, 0)
  }

  /** The block that an iteration writes to, and the inode by then: a hole gets a block, which is recorded
      for the direct indices only. */
  function Target(fs: Fs, disk: Disk, r: Inode, index: nat): (Option<nat>, Inode)
    requires GoodDisk(fs, disk)
  {
    var n := BlockNo(fs, disk, r, index);
    if n != Some(0) then (n, r)
    else if AllocBlock(fs) == 0 then (None, r)
    else (Some(AllocBlock(fs)), if index < 12 then WithBlock(r, index, AllocBlock(fs)) else r)
  }

  /** How many of n bytes go into the block at the position. */
  function Piece(fs: Fs, position: nat, n: nat): (m: nat)
    requires fs.blockSize > 0
    ensures m <= n && OffsetOf(position, fs.blockSize) + m <= fs.blockSize && (n > 0 ==> m > 0)
  {
    Min(fs.blockSize - OffsetOf(position, fs.blockSize), n)
  }

  /** One iteration of ext2_write with `rest` still to be written. */
  function Iterated(fs: Fs, io: Io, rest: seq<byte>): (r: (bool, Io))
    requires GoodDisk(fs, io.disk) && fs.blockSize > 0 && rest != [] && io.position + |rest| < WORD
    ensures GoodDisk(fs, r.1.disk) && (r.0 ==> r.1.position == io.position + Piece(fs, io.position, |rest|))
  {
    var (t, inode) := Target(fs, io.disk, io.inode, IndexOf(io.position, fs.blockSize));
    if t.None? then (false, io)
    else if t.value >= |io.disk| then (false, io.(inode := inode))
    else
      var m := Piece(fs, io.position, |rest|);
      var block := Splice(io.disk[t.value], OffsetOf(io.position, fs.blockSize), rest[..m]);
      (true, Grown(io.(disk := io.disk[t.value := block], inode := inode), m))
  }

  /** The bookkeeping that ends each iteration. */
  function Grown(io: Io, m: nat): Io
    requires io.position + m < WORD
  {
    var end := io.position + m;
    if end > io.size then Io(io.disk, WithSize(io.inode, end), end, end) else io.(position := end)
  }

  /** The loop of ext2_write. */
  function WriteRun(fs: Fs, io: Io, rest: seq<byte>): (r: (bool, Io))
    requires GoodDisk(fs, io.disk) && fs.blockSize > 0 && io.position + |rest| < WORD
    ensures GoodDisk(fs, r.1.disk)
    decreases |rest|
  {
    if rest == [] then (true, io)
    else
      var (ok, io') := Iterated(fs, io, rest);
      if !ok then (false, io') else WriteRun(fs, io', rest[Piece(fs, io.position, |rest|)..])
  }

  ghost function Finished(fs: Fs, io: Io, rest: seq<byte>): (r: (bool, Io))
    requires GoodDisk(fs, io.disk) && fs.blockSize > 0 && io.position + |rest| < WORD
    ensures GoodDisk(fs, r.1.disk)
  {
    WriteRun(fs, io, rest)
  }

  lemma FinishedStep(fs: Fs, io: Io, rest: seq<byte>)
    requires GoodDisk(fs, io.disk) && fs.blockSize > 0 && io.position + |rest| < WORD && rest != []
    ensures var (ok, io') := Iterated(fs, io, rest);
            Finished(fs, io, rest)
            == if ok then Finished(fs, io', rest[Piece(fs, io.position, |rest|)..]) else (false, io')
  {
  }

  /** ext2_write: the inode record is written only if the loop got through. */
  ghost function Written(fs: Fs, io: Io, num: nat, buf: seq<byte>): (int, Io)
    requires GoodDisk(fs, io.disk) && fs.blockSize > 0 && io.position + |buf| < WORD
  {
    var (ok, io') := Finished(fs, io, buf);
    if !ok then (-1, io')
    else if HasInode(fs, io'.disk, num) then (|buf|, io'.(disk := WriteInode(fs, io'.disk, num, io'.inode)))
    else (|buf|, io')
  }

  // ----- writing over existing blocks -----

  /** What the loop has done after w bytes. */
  ghost predicate Progress(fs: Fs, io0: Io, io: Io, buf: seq<byte>, w: nat, f: File)
    requires w <= |buf| && io0.position + |buf| < WORD && fs.blockSize > 0
  {
    && GoodDisk(fs, io.disk) && |io.disk| == |io0.disk| && FileOf(fs, io.disk, io0.inode) == f
    && io.position == io0.position + w
    && io.size == (if w == 0 then io0.size else Max(io0.size, io.position))
    && io.inode == Resized(io0.inode, io0.size, io.position, w)
    && Spliced(f, io0.disk, io.disk, io0.position, buf[..w])
    && OnlyTouches(f, io0.disk, io.disk, io0.position, io.position, |io0.disk|)
  }

  /** One iteration over a block that is there. */
  lemma IteratedMapped(fs: Fs, io: Io, rest: seq<byte>, f: File)
    requires GoodDisk(fs, io.disk) && fs.blockSize > 0 && rest != [] && io.position + |rest| < WORD
    requires FileOf(fs, io.disk, io.inode) == f && Mapped(f, |io.disk|, IndexOf(io.position, f.bs))
    ensures var m := Stretch(f, io.position, |rest|);
            && m == Piece(fs, io.position, |rest|)
            && var d := Stored(f, io.disk, IndexOf(io.position, f.bs), OffsetOf(io.position, f.bs), rest[..m]);
               Iterated(fs, io, rest) == (true, Grown(io.(disk := d), m))
  {
    FileOfAt(fs, io.disk, io.inode, IndexOf(io.position, f.bs));
  }

  /** It leaves the file its blocks. */
  lemma StoredKeepsFile(fs: Fs, disk: Disk, r: Inode, f: File, i: nat, off: nat, s: seq<byte>)
    requires GoodDisk(fs, disk) && fs.blockSize > 0 && FileOf(fs, disk, r) == f && off + |s| <= f.bs
    requires Mapped(f, |disk|, i) && NotIndirect(r, At(f, i).value)
    ensures GoodDisk(fs, Stored(f, disk, i, off, s)) && FileOf(fs, Stored(f, disk, i, off, s), r) == f
  {
    StoreKeepsFile(fs, disk, r, At(f, i).value, Splice(disk[At(f, i).value], off, s));
  }

  lemma GrownIsResized(io0: Io, io: Io, w: nat, m: nat)
    requires io.position == io0.position + w && io.position + m < WORD && m > 0
    requires io.size == if w == 0 then io0.size else Max(io0.size, io.position)
    requires io.inode == Resized(io0.inode, io0.size, io.position, w)
    ensures var g := Grown(io, m);
            && g.disk == io.disk && g.position == io.position + m && g.size == Max(io0.size, g.position)
            && g.inode == Resized(io0.inode, io0.size, g.position, w + m)
  {
    ResizedStep(io0.inode, io0.size, io.position, w, m);
  }

  lemma ProgressStep(fs: Fs, io0: Io, io: Io, buf: seq<byte>, w: nat, f: File) returns (m: nat)
    requires w < |buf| && io0.position + |buf| < WORD && fs.blockSize > 0 && Progress(fs, io0, io, buf, w, f)
    requires Own(f, |io0.disk|, io0.inode, IndexOf(io.position, f.bs))
    ensures m == Piece(fs, io.position, |buf| - w)
    ensures Iterated(fs, io, buf[w..]).0 && Progress(fs, io0, Iterated(fs, io, buf[w..]).1, buf, w + m, f)
  {
    var p, s := io.position, buf[w..];
    m := Stretch(f, p, |s|);
    ResizedSameFile(fs, io.disk, io0.inode, io0.size, p, w);
    IteratedMapped(fs, io, s, f);
    StoredKeepsFile(fs, io.disk, io0.inode, f, IndexOf(p, f.bs), OffsetOf(p, f.bs), s[..m]);
    SplicedStep(f, io0.disk, io.disk, io0.position, buf[..w], p, s[..m]);
    TouchesStep(f, io0.disk, io.disk, io0.position, p, s[..m], |io0.disk|);
    GrownIsResized(io0, io.(disk := Stored(f, io.disk, IndexOf(p, f.bs), OffsetOf(p, f.bs), s[..m])), w, m);
    TakeMore(buf, w, m);
  }

  lemma {:induction false} RunSplices(
      fs: Fs, io0: Io, io: Io, buf: seq<byte>, w: nat, f: File, rest: seq<byte>, last: (bool, Io))
    requires w <= |buf| && io0.position + |buf| < WORD && fs.blockSize > 0 && Progress(fs, io0, io, buf, w, f)
    requires rest == buf[w..] && last == Finished(fs, io, rest)
    requires forall p: nat :: io0.position <= p < io0.position + |buf| ==>
               Own(f, |io0.disk|, io0.inode, IndexOf(p, f.bs))
    ensures last.0 && Progress(fs, io0, last.1, buf, |buf|, f)
    decreases |buf| - w
  {
    if w < |buf| {
      var m := ProgressStep(fs, io0, io, buf, w, f);
      FinishedStep(fs, io, rest);
      RunSplices(fs, io0, Iterated(fs, io, rest).1, buf, w + m, f, rest[m..], last);
    }
  }

  /** ext2_write over blocks that are there: the buffer is spliced into the file at the position, the size
      grows to cover it, and apart from the touched data blocks only this inode's record changes. */
  lemma WriteSplices(fs: Fs, io: Io, num: nat, buf: seq<byte>)
    requires HasInode(fs, io.disk, num) && fs.blockSize > 0 && io.position + |buf| < WORD
    requires CanWrite(FileOf(fs, io.disk, io.inode), |io.disk|, io.inode, InodeBlock(fs, num),
                      io.position, io.position + |buf|)
    ensures var (code, io') := Written(fs, io, num, buf);
            var f, n, at := FileOf(fs, io.disk, io.inode), InodeBlock(fs, num), InodeOffset(fs, num);
            && code == |buf| && io'.position == io.position + |buf|
            && io'.size == (if buf == [] then io.size else Max(io.size, io'.position))
            && io'.inode == Resized(io.inode, io.size, io'.position, |buf|)
            && GoodDisk(fs, io'.disk) && |io'.disk| == |io.disk| && FileOf(fs, io'.disk, io'.inode) == f
            && Spliced(f, io.disk, io'.disk, io.position, buf)
            && OnlyTouches(f, io.disk, io'.disk, io.position, io'.position, n)
            && at + 124 <= fs.blockSize && io'.disk[n] == Splice(io.disk[n], at, io'.inode)
  {
    var f, n, at := FileOf(fs, io.disk, io.inode), InodeBlock(fs, num), InodeOffset(fs, num);
    SlotFits(fs, io.disk, num);
    assert buf[..|buf|] == buf && buf[0..] == buf && buf[..0] == [];
    RunSplices(fs, io, io, buf, 0, f, buf, Finished(fs, io, buf));
    var io1 := Finished(fs, io, buf).1;
    InodeBlockIsNoData(f, n, io.position, io.position + |buf|);
    var block := Splice(io1.disk[n], at, io1.inode);
    SpareWrite(f, io.disk, io1.disk, n, block, io.position, buf);
    StoreKeepsFile(fs, io1.disk, io.inode, n, block);
    ResizedSameFile(fs, io1.disk[n := block], io.inode, io.size, io1.position, |buf|);
  }

  // ----- where a write stops -----

  /** ext2_alloc_block answers for the first group with a free block, and 0 if there is none. */
  lemma {:induction false} AllocIs(fs: Fs, g: nat, h: nat)
    requires g <= h <= |fs.inodeTables| && |fs.freeBlocks| == |fs.inodeTables|
    requires forall i :: g <= i < h ==> fs.freeBlocks[i] == 0
    ensures h == |fs.inodeTables| ==> AllocFrom(fs, g) == 0
    ensures h < |fs.inodeTables| && fs.freeBlocks[h] > 0 && fs.inodeTables[h] + fs.inodesPerGroup < 0x1_0000_0000 ==>
              AllocFrom(fs, g) == fs.inodeTables[h] + fs.inodesPerGroup
    decreases h - g
  {
    if g < h {
      AllocIs(fs, g + 1, h);
    }
  }

  /** No block can be written at the position: the index has none, or one beyond the device; or it is a hole, and
      there is no block to give it or one beyond the device. */
  predicate Stuck(fs: Fs, io: Io)
    requires GoodDisk(fs, io.disk) && fs.blockSize > 0
  {
    match BlockNo(fs, io.disk, io.inode, io.position / fs.blockSize)
    case None => true
    case Some(b) => b >= |io.disk| || (b == 0 && (AllocBlock(fs) == 0 || AllocBlock(fs) >= |io.disk|))
  }

  lemma TargetRecorded(fs: Fs, disk: Disk, r: Inode, index: nat)
    requires GoodDisk(fs, disk)
    ensures var (t, r') := Target(fs, disk, r, index);
            BlockNo(fs, disk, r', index) == if index < 12 && t.Some? then t else BlockNo(fs, disk, r, index)
  {
    if index < 12 {
      WithBlockFields(r, index, AllocBlock(fs), index);
    }
  }

  /** One iteration gets nothing done exactly when it is stuck, and stays so. */
  lemma IteratedStops(fs: Fs, io: Io, rest: seq<byte>)
    requires GoodDisk(fs, io.disk) && fs.blockSize > 0 && rest != [] && io.position + |rest| < WORD
    ensures var (ok, io') := Iterated(fs, io, rest);
            && ok == !Stuck(fs, io) && |io'.disk| == |io.disk|
            && (!ok ==> Stuck(fs, io') && io'.disk == io.disk && io'.position == io.position && io'.size == io.size)
            && (ok ==> io'.position > io.position && io'.size == Max(io.size, io'.position))
  {
    var i := IndexOf(io.position, fs.blockSize);
    IndexIsQuotient(io.position, fs.blockSize);
    TargetRecorded(fs, io.disk, io.inode, i);
  }

  /** ext2_write of any buffer to any file, holes or blocks: it gets through or stops at the first place where it is
      stuck. Until there the position has moved and the size covers it; the number of blocks stays. */
  lemma {:induction false} RunStops(fs: Fs, io: Io, rest: seq<byte>)
    requires GoodDisk(fs, io.disk) && fs.blockSize > 0 && io.position + |rest| < WORD
    ensures var (ok, io') := WriteRun(fs, io, rest);
            && |io'.disk| == |io.disk| && io.position <= io'.position <= io.position + |rest|
            && ok == (io'.position == io.position + |rest|)
            && (!ok ==> Stuck(fs, io'))
            && (rest != [] && Stuck(fs, io) ==> !ok && io'.disk == io.disk && io'.position == io.position)
            && io'.size == (if io'.position == io.position then io.size else Max(io.size, io'.position))
    decreases |rest|
  {
    if rest != [] {
      IteratedStops(fs, io, rest);
      var (ok, io') := Iterated(fs, io, rest);
      if ok {
        RunStops(fs, io', rest[Piece(fs, io.position, |rest|)..]);
      }
    }
  }

  /** It answers with the length or with -1, and in the second case it has not written the inode record. */
  lemma WriteAnswers(fs: Fs, io: Io, num: nat, buf: seq<byte>)
    requires GoodDisk(fs, io.disk) && fs.blockSize > 0 && io.position + |buf| < WORD
    ensures var (code, io') := Written(fs, io, num, buf);
            && (code == |buf| || code == -1) && (code == -1 <==> io'.position < io.position + |buf|)
            && (code == -1 ==> Stuck(fs, io') && io' == Finished(fs, io, buf).1)
            && (buf != [] && Stuck(fs, io) ==> code == -1 && io'.disk == io.disk && io'.position == io.position)
  {
    RunStops(fs, io, buf);
  }

  // ----- the open file -----

  class Volume {
    const fs: Fs
    var disk: Disk

    constructor (fs: Fs, disk: Disk)
      ensures this.fs == fs && this.disk == disk
    {
      this.fs, this.disk := fs, disk;
    }

    ghost predicate Valid()
      reads this
    {
      fs.blockSize > 0 && GoodDisk(fs, disk)
    }

    /** ext2_read_inode; fails for a number without a slot on the device. */
    method ReadRecord(num: nat) returns (r: Option<Inode>)
      requires Valid() && GoodTables(fs)
      ensures r.Some? <==> HasInode(fs, disk, num)
      ensures r.Some? ==> r.value == ReadInode(fs, disk, num)
    {
      var n := InodeBlock(fs, num);
      if n == 0 || n >= |disk| {
        return None;
      }
      SlotFits(fs, disk, num);
      var at := InodeOffset(fs, num);
      return Some(disk[n][at..at + 124]);
    }

    /** ext2_write_inode: read, change, write back. */
    method WriteRecord(num: nat, r: Inode) returns (ok: bool)
      requires Valid() && GoodTables(fs)
      modifies this`disk
      ensures ok == old(HasInode(fs, disk, num))
      ensures ok ==> disk == WriteInode(fs, old(disk), num, r)
      ensures !ok ==> disk == old(disk)
    {
      var n := InodeBlock(fs, num);
      if n == 0 || n >= |disk| {
        return false;
      }
      SlotFits(fs, disk, num);
      var block := disk[n];
      block := Splice(block, InodeOffset(fs, num), r);
      disk := disk[n := block];
      return true;
    }
  }

  class OpenFile {
    const vol: Volume
    const inodeNum: nat
    var inode: Inode
    var position: nat
    var size: nat

    constructor (vol: Volume, inodeNum: nat, inode: Inode)
      ensures this.vol == vol && this.inodeNum == inodeNum && this.inode == inode
      ensures position == 0 && size == SizeField(inode)
    {
      this.vol, this.inodeNum, this.inode := vol, inodeNum, inode;
      position, size := 0, SizeField(inode);
    }

    ghost function File(): File
      requires vol.Valid()
      reads this, vol
    {
      FileOf(vol.fs, vol.disk, inode)
    }

    /** `position / block_size` and `position % block_size`. */
    method Locate() returns (index: nat, off: nat)
      requires vol.fs.blockSize > 0
      ensures index == IndexOf(position, vol.fs.blockSize) && off == OffsetOf(position, vol.fs.blockSize)
    {
      index, off := position / vol.fs.blockSize, position % vol.fs.blockSize;
      IndexIsQuotient(position, vol.fs.blockSize);
    }

    method GetBlockNumber(index: nat) returns (n: Option<nat>)
      requires vol.Valid()
      ensures n == At(File(), index)
    {
      n := BlockNo(vol.fs, vol.disk, inode, index);
      FileOfAt(vol.fs, vol.disk, inode, index);
    }

    /** How many bytes a read of `count` may deliver. */
    function Wanted(count: nat): nat
      reads this
    {
      if position >= size then 0 else Min(count, size - position)
    }

    /** One piece of one block. */
    method Fetch(ghost f: File, ghost d: Disk, index: nat, off: nat, m: nat) returns (ok: bool, piece: seq<byte>)
      requires vol.Valid() && f == File() && d == vol.disk && off + m <= f.bs
      ensures ok == Reachable(f, |d|, index)
      ensures ok ==> piece == Chunk(f, d, index, off, m)
    {
      var n := GetBlockNumber(index);
      if n.None? || (n.value != 0 && n.value >= |vol.disk|) {
        return false, [];
      }
      if n.value == 0 {
        return true, ZeroBytes(m);
      } else {
        return true, vol.disk[n.value][off..off + m];
      }
    }

    /** One iteration of ext2_read, with `count` and `size - position` bytes to go at most. */
    method ReadOne(ghost f: File, ghost d: Disk, count: nat, buf: seq<byte>) returns (ok: bool, buf': seq<byte>)
      requires vol.Valid() && f == File() && d == vol.disk && count > 0 && position < size
      modifies this`position
      ensures ok == HasByte(f, |d|, old(position))
      ensures !ok ==> buf' == buf && position == old(position)
      ensures ok ==>
                var m := Stretch(f, old(position), old(Wanted(count)));
                && position == old(position) + m
                && buf' == buf + Chunk(f, d, IndexOf(old(position), f.bs), OffsetOf(old(position), f.bs), m)
    {
      var index, off := Locate();
      var m := vol.fs.blockSize - off;
      if m > count {
        m := count;
      }
      if m > size - position {
        m := size - position;
      }
      var piece;
      ok, piece := Fetch(f, d, index, off, m);
      if !ok {
        return false, buf;
      }
      buf' := buf + piece;
      position := position + m;
    }

    /** ext2_read: all the bytes asked for that the file has, or -1 exactly when one of them lies in a
        block the code cannot reach; even then the bytes before that block have been delivered. */
    method Read(count: nat) returns (code: int, buf: seq<byte>)
      requires vol.Valid()
      modifies this`position
      ensures Delivers(File(), vol.disk, old(position), buf) && position == old(position) + |buf|
      ensures |buf| <= count && (buf == [] || position <= size)
      ensures code >= 0 ==> code == |buf| && (|buf| == count || position >= size)
      ensures if HasBytes(File(), |vol.disk|, old(position), old(position) + old(Wanted(count)))
              then code == |buf| == old(Wanted(count))
              else code == -1 && |buf| < old(Wanted(count)) && !HasByte(File(), |vol.disk|, position)
    {
      ghost var f, d, p0, want := File(), vol.disk, position, Wanted(count);
      buf := [];
      while |buf| < count && position < size
        invariant vol.disk == d && File() == f
        invariant |buf| <= want && position == p0 + |buf|
        invariant Delivers(f, d, p0, buf)
        decreases size - position
      {
        if HasByte(f, |d|, position) {
          ChunkExtends(f, d, p0, buf, position, Stretch(f, position, want - |buf|));
        }
        var ok;
        ok, buf := ReadOne(f, d, count - |buf|, buf);
        if !ok {
          return -1, buf;
        }
      }
      return |buf|, buf;
    }

    ghost function State(): Io
      reads this, vol
    {
      Io(vol.disk, inode, position, size)
    }

    /** The block to write to; a hole is given one first. */
    method GetOrAllocate(index: nat) returns (n: Option<nat>)
      requires vol.Valid()
      modifies this`inode
      ensures (n, inode) == Target(vol.fs, vol.disk, old(inode), index)
    {
      n := GetBlockNumber(index);
      FileOfAt(vol.fs, vol.disk, inode, index);
      if n == Some(0) {
        var block := AllocBlock(vol.fs);
        if block == 0 {
          return None;
        }
        if index < 12 {
          inode := WithBlock(inode, index, block);
        }
        n := Some(block);
      }
    }

    /** The bookkeeping that ends each iteration. */
    method Advance(m: nat)
      requires position + m < WORD
      modifies this`inode, this`position, this`size
      ensures State() == Grown(old(State()), m)
    {
      position := position + m;
      if position > size {
        size := position;
        inode := WithSize(inode, size);
      }
    }

    /** One iteration of ext2_write, with `rest` still to be written. */
    method WriteOne(rest: seq<byte>) returns (ok: bool, m: nat)
      requires vol.Valid() && rest != [] && position + |rest| < WORD
      modifies this`inode, this`position, this`size, vol`disk
      ensures vol.Valid() && (ok, State()) == Iterated(vol.fs, old(State()), rest)
      ensures m == Piece(vol.fs, old(position), |rest|)
    {
      var index, off := Locate();
      m := vol.fs.blockSize - off;
      if m > |rest| {
        m := |rest|;
      }
      var n := GetOrAllocate(index);
      if n.None? || n.value >= |vol.disk| {
        return false, m;
      }
      var block := vol.disk[n.value];
      block := Splice(block, off, rest[..m]);
      vol.disk := vol.disk[n.value := block];
      Advance(m);
      return true, m;
    }

    /** The loop of ext2_write. */
    method WriteBlocks(buf: seq<byte>) returns (ok: bool)
      requires vol.Valid() && position + |buf| < WORD
      modifies this`inode, this`position, this`size, vol`disk
      ensures vol.Valid() && (ok, State()) == Finished(vol.fs, old(State()), buf)
    {
      var rest := buf;
      ghost var final := Finished(vol.fs, State(), buf);
      while rest != []
        invariant vol.Valid() && position + |rest| == old(position) + |buf|
        invariant Finished(vol.fs, State(), rest) == final
        decreases |rest|
      {
        FinishedStep(vol.fs, State(), rest);
        var m;
        ok, m := WriteOne(rest);
        if !ok {
          return;
        }
        rest := rest[m..];
      }
      return true;
    }

    /** ext2_write, for every file and buffer. */
    method Write(buf: seq<byte>) returns (code: int)
      requires vol.Valid() && GoodTables(vol.fs) && position + |buf| < WORD
      modifies this`inode, this`position, this`size, vol`disk
      ensures vol.Valid() && (code, State()) == Written(vol.fs, old(State()), inodeNum, buf)
    {
      var ok := WriteBlocks(buf);
      if !ok {
        return -1;
      }
      ok := vol.WriteRecord(inodeNum, inode);
      return |buf|;
    }

    /** ext2_write over blocks that are there already. */
    method Overwrite(buf: seq<byte>) returns (code: int)
      requires vol.Valid() && position + |buf| < WORD && HasInode(vol.fs, vol.disk, inodeNum)
      requires CanWrite(File(), |vol.disk|, inode, InodeBlock(vol.fs, inodeNum), position, position + |buf|)
      modifies this`inode, this`position, this`size, vol`disk
      ensures code == |buf| && vol.Valid() && position == old(position) + |buf|
      ensures inode == Resized(old(inode), old(size), position, |buf|)
      ensures |vol.disk| == |old(vol.disk)| && File() == old(File())
      ensures Spliced(File(), old(vol.disk), vol.disk, old(position), buf)
      ensures InodeOffset(vol.fs, inodeNum) + 124 <= vol.fs.blockSize
              && vol.disk[InodeBlock(vol.fs, inodeNum)]
                 == Splice(old(vol.disk)[InodeBlock(vol.fs, inodeNum)], InodeOffset(vol.fs, inodeNum), inode)
    {
      WriteSplices(vol.fs, State(), inodeNum, buf);
      code := Write(buf);
    }
  }

  lemma RecordReadsBack(disk: Disk, n: nat, at: nat, block: Block, r: Inode)
    requires n < |disk| && at + 124 <= |block| && disk[n] == Splice(block, at, r)
    ensures ReadInodeAt(disk, n, at) == r
  {
  }

  lemma ResizedField(r: Inode, end: nat, count: nat)
    requires end < WORD && count > 0
    ensures SizeField(Resized(r, SizeField(r), end, count)) == Max(SizeField(r), end)
  {
    if end > SizeField(r) {
      WithSizeFields(r, end);
    }
  }

  /** What was written comes back through the device: the file opened again from its inode record has
      the buffer at the place it was written to. */
  method WriteReopenRead(file: OpenFile, buf: seq<byte>) returns (code: int, back: seq<byte>)
    requires file.vol.Valid() && HasInode(file.vol.fs, file.vol.disk, file.inodeNum)
    requires file.size == SizeField(file.inode) && buf != [] && file.position + |buf| < WORD
    requires CanWrite(file.File(), |file.vol.disk|, file.inode, InodeBlock(file.vol.fs, file.inodeNum),
                      file.position, file.position + |buf|)
    modifies file`inode, file`position, file`size, file.vol`disk
    ensures code >= 0 <==> old(HasBytes(file.File(), |file.vol.disk|, 0, file.position + |buf|))
    ensures code >= 0 ==> code == |back| == old(file.position) + |buf| && back[old(file.position)..] == buf
  {
    ghost var f, p0, disk0 := file.File(), file.position, file.vol.disk;
    ghost var n, at := InodeBlock(file.vol.fs, file.inodeNum), InodeOffset(file.vol.fs, file.inodeNum);
    ResizedField(file.inode, file.position + |buf|, |buf|);
    code := file.Overwrite(buf);
    RecordReadsBack(file.vol.disk, n, at, disk0[n], file.inode);
    var r := file.vol.ReadRecord(file.inodeNum);
    var again := new OpenFile(file.vol, file.inodeNum, r.value);
    code, back := again.Read(file.position);
    if code >= 0 {
      Tail(f, file.vol.disk, back, p0);
      ReadsBack(f, disk0, file.vol.disk, p0, buf, back[p0..]);
    }
  }

  lemma Tail(f: File, disk: Disk, s: seq<byte>, p: nat)
    requires Fits(f, disk) && Delivers(f, disk, 0, s) && p <= |s|
    ensures Delivers(f, disk, p, s[p..])
  {
    forall q: nat | p <= q < |s|
      ensures HasByte(f, |disk|, q) && s[p..][q - p] == ByteAt(f, disk, q)
    {
      assert s[q - 0] == ByteAt(f, disk, q);
    }
  }
}
