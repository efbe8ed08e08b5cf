/** The on-disk layout that kernel/ext2.c works with: little-endian words, inode records, the slot of
    each inode in its group's table, and the block behind each index of a file. */
module Ext2Layout {
  import opened Bytes

  type Block = seq<byte>

  /** The device seen in filesystem blocks, all of the same size; sector arithmetic below that is
      not part of this model. */
  type Disk = seq<Block>

  const WORD: nat := 0x1_0000_0000

  // ----- little-endian words -----

  function LittleEndian(s: seq<byte>): nat {
    if s == [] then 0 else s[0] as nat + 0x100 * LittleEndian(s[1..])
  }

  function U32(s: seq<byte>, at: nat): nat
    requires at + 4 <= |s|
  {
    LittleEndian(s[at..at + 4])
  }

  function Digits(n: nat, count: nat): (s: seq<byte>)
    ensures |s| == count
  {
    if count == 0 then [] else [(n % 0x100) as byte] + Digits(n / 0x100, count - 1)
  }

  function Le32(n: nat): (s: seq<byte>)
    requires n < WORD
    ensures |s| == 4
  {
    Digits(n, 4)
  }

  function Power256(k: nat): nat {
    if k == 0 then 1 else 0x100 * Power256(k - 1)
  }

  lemma {:induction false} BytesRoundTrip(n: nat, count: nat)
    requires n < Power256(count)
    ensures LittleEndian(Digits(n, count)) == n
  {
    if count > 0 {
      BytesRoundTrip(n / 0x100, count - 1);
      assert Digits(n, count)[1..] == Digits(n / 0x100, count - 1);
    }
  }

  lemma WordRoundTrip(n: nat)
    requires n < WORD
    ensures U32(Le32(n), 0) == n
  {
    assert Power256(4) == 0x100 * Power256(3) && Power256(3) == 0x100 * Power256(2);
    assert Power256(2) == 0x100 * Power256(1);
    BytesRoundTrip(n, 4);
    assert Le32(n)[0..0 + 4] == Le32(n);
  }

  // ----- splicing: memcpy into a buffer -----

  function Splice(s: seq<byte>, at: nat, m: seq<byte>): (r: seq<byte>)
    requires at + |m| <= |s|
    ensures |r| == |s|
  {
    s[..at] + m + s[at + |m|..]
  }

  // ----- inode records -----

  /** sizeof(ext2_inode_t), packed. */
  type Inode = r: seq<byte> | |r| == 124 witness seq(124, _ => 0)

  function SizeField(r: Inode): nat {
    U32(r, 4)
  }

  /** i_block[k]. */
  function BlockField(r: Inode, k: nat): nat
    requires k < 15
  {
    U32(r, 40 + 4 * k)
  }

  function WithSize(r: Inode, n: nat): Inode
    requires n < WORD
  {
    Splice(r, 4, Le32(n))
  }

  /** Setting the size keeps every other field, the block pointers among them. */
  lemma WithSizeFields(r: Inode, n: nat)
    requires n < WORD
    ensures SizeField(WithSize(r, n)) == n
    ensures forall k: nat :: k < 15 ==> BlockField(WithSize(r, n), k) == BlockField(r, k)
    ensures forall i :: 0 <= i < 124 && !(4 <= i < 8) ==> WithSize(r, n)[i] == r[i]
  {
    WordRoundTrip(n);
    var s, w := WithSize(r, n), Le32(n);
    assert s[4..4 + 4] == w[0..0 + 4];
    forall k: nat | k < 15
      ensures BlockField(s, k) == BlockField(r, k)
    {
      assert s[40 + 4 * k..40 + 4 * k + 4] == r[40 + 4 * k..40 + 4 * k + 4];
    }
  }

  function WithBlock(r: Inode, k: nat, b: nat): Inode
    requires k < 15 && b < WORD
  {
    Splice(r, 40 + 4 * k, Le32(b))
  }

  /** Setting one block pointer keeps the others and the size. */
  lemma WithBlockFields(r: Inode, k: nat, b: nat, j: nat)
    requires k < 15 && b < WORD && j < 15
    ensures BlockField(WithBlock(r, k, b), j) == if j == k then b else BlockField(r, j)
    ensures SizeField(WithBlock(r, k, b)) == SizeField(r)
  {
    WordRoundTrip(b);
    var s, w := WithBlock(r, k, b), Le32(b);
    assert s[40 + 4 * k..40 + 4 * k + 4] == w[0..0 + 4];
    assert s[4..4 + 4] == r[4..4 + 4];
    if j != k {
      assert s[40 + 4 * j..40 + 4 * j + 4] == r[40 + 4 * j..40 + 4 * j + 4];
    }
  }

  // ----- filesystem parameters -----

  /** The last two hold bg_inode_table and bg_free_blocks_count of each group. */
  datatype Fs = Fs(blockSize: nat, inodesPerGroup: nat, inodeSize: nat, inodeTables: seq<nat>, freeBlocks: seq<nat>)

  ghost predicate GoodDisk(fs: Fs, disk: Disk) {
    forall i :: 0 <= i < |disk| ==> |disk[i]| == fs.blockSize
  }

  // ----- division with a variable divisor -----

  lemma {:induction false} MulGap(a: nat, b: nat, d: nat)
    ensures a < b ==> a * d + d <= b * d
    ensures a <= b ==> a * d <= b * d
    decreases b
  {
    if a < b {
      assert b * d == (b - 1) * d + d;
      MulGap(a, b - 1, d);
    }
  }

  lemma DivModUnique(x: nat, d: nat, q: nat, r: nat)
    requires d > 0 && x == q * d + r && r < d
    ensures x / d == q && x % d == r
  {
    assert x == x / d * d + x % d;
    MulGap(q, x / d, d);
    MulGap(x / d, q, d);
  }

  // ----- positions in a file -----

  /** The block index and the offset in it of position p, for blocks of d bytes: quotient and
      remainder, written out so that no proof has to divide by a variable. */
  function IndexOf(p: nat, d: nat): nat
    requires d > 0
  {
    if p < d then 0 else 1 + IndexOf(p - d, d)
  }

  function OffsetOf(p: nat, d: nat): (o: nat)
    requires d > 0
    ensures o < d
  {
    if p < d then p else OffsetOf(p - d, d)
  }

  lemma {:induction false} PositionParts(p: nat, d: nat)
    requires d > 0
    ensures p == IndexOf(p, d) * d + OffsetOf(p, d)
  {
    if p >= d {
      PositionParts(p - d, d);
      assert (1 + IndexOf(p - d, d)) * d == d + IndexOf(p - d, d) * d;
    }
  }

  lemma IndexIsQuotient(p: nat, d: nat)
    requires d > 0
    ensures p / d == IndexOf(p, d) && p % d == OffsetOf(p, d)
  {
    PositionParts(p, d);
    DivModUnique(p, d, IndexOf(p, d), OffsetOf(p, d));
  }

  /** Moving on within a block changes the offset and not the index. */
  lemma {:induction false} SameBlock(p: nat, k: nat, d: nat)
    requires d > 0 && OffsetOf(p, d) + k < d
    ensures IndexOf(p + k, d) == IndexOf(p, d) && OffsetOf(p + k, d) == OffsetOf(p, d) + k
    decreases p
  {
    if p >= d {
      SameBlock(p - d, k, d);
      assert p + k - d == p - d + k;
    }
  }

  /** Two positions of one block are as far apart as their offsets. */
  lemma {:induction false} BlockStretch(p: nat, q: nat, d: nat)
    requires d > 0 && IndexOf(p, d) == IndexOf(q, d)
    ensures q - OffsetOf(q, d) == p - OffsetOf(p, d)
    decreases p
  {
    if p >= d {
      BlockStretch(p - d, q - d, d);
    }
  }

  /** A stretch inside one block, in positions and in offsets. */
  lemma InChunk(p: nat, q: nat, m: nat, d: nat)
    requires d > 0 && OffsetOf(p, d) + m <= d
    ensures p <= q < p + m <==> IndexOf(q, d) == IndexOf(p, d) && OffsetOf(p, d) <= OffsetOf(q, d) < OffsetOf(p, d) + m
    ensures p <= q < p + m ==> OffsetOf(q, d) - OffsetOf(p, d) == q - p
  {
    if IndexOf(q, d) == IndexOf(p, d) {
      BlockStretch(p, q, d);
    }
    if p <= q < p + m {
      SameBlock(p, q - p, d);
    }
  }

  // ----- inode slots -----

  /** The table fits whole records into blocks, and nothing wraps. */
  ghost predicate GoodTables(fs: Fs) {
    && 124 <= fs.inodeSize && fs.inodesPerGroup > 0
    && fs.blockSize > 0 && fs.blockSize % fs.inodeSize == 0
    && fs.inodesPerGroup * fs.inodeSize < WORD
    && (forall g :: 0 <= g < |fs.inodeTables| ==> fs.inodeTables[g] > 0)
  }

  /** Blocks of one group's inode table. */
  function TableBlocks(fs: Fs): nat
    requires fs.blockSize > 0
  {
    IndexOf(fs.inodesPerGroup * fs.inodeSize + fs.blockSize - 1, fs.blockSize)
  }

  ghost predicate TablesApart(tables: seq<nat>, len: nat) {
    forall g, h :: 0 <= g < |tables| && 0 <= h < |tables| && g != h ==>
      tables[g] + len <= tables[h] || tables[h] + len <= tables[g]
  }

  ghost predicate TablesDisjoint(fs: Fs)
    requires fs.blockSize > 0
  {
    TablesApart(fs.inodeTables, TableBlocks(fs))
  }

  /** ext2_inode_to_block; 0 for inode number 0 and for a group past the end. */
  function InodeBlock(fs: Fs, num: nat): nat
    requires fs.inodesPerGroup > 0 && fs.blockSize > 0
  {
    if num == 0 then 0
    else
      var group, index := IndexOf(num - 1, fs.inodesPerGroup), OffsetOf(num - 1, fs.inodesPerGroup);
      if group >= |fs.inodeTables| then 0
      else fs.inodeTables[group] + IndexOf(index * fs.inodeSize, fs.blockSize)
  }

  function InodeOffset(fs: Fs, num: nat): nat
    requires fs.inodesPerGroup > 0 && fs.blockSize > 0 && num > 0
  {
    OffsetOf(OffsetOf(num - 1, fs.inodesPerGroup) * fs.inodeSize, fs.blockSize)
  }

  /** ... in the source's own operators. */
  lemma InodeArithmetic(fs: Fs, num: nat)
    requires fs.inodesPerGroup > 0 && fs.blockSize > 0 && num > 0
    ensures InodeOffset(fs, num) == (num - 1) % fs.inodesPerGroup * fs.inodeSize % fs.blockSize
    ensures (num - 1) / fs.inodesPerGroup < |fs.inodeTables| ==>
              InodeBlock(fs, num) == fs.inodeTables[(num - 1) / fs.inodesPerGroup]
                                     + (num - 1) % fs.inodesPerGroup * fs.inodeSize / fs.blockSize
  {
    IndexIsQuotient(num - 1, fs.inodesPerGroup);
    IndexIsQuotient(OffsetOf(num - 1, fs.inodesPerGroup) * fs.inodeSize, fs.blockSize);
  }

  ghost predicate IsInode(fs: Fs, num: nat)
    requires fs.inodesPerGroup > 0
  {
    num > 0 && IndexOf(num - 1, fs.inodesPerGroup) < |fs.inodeTables|
  }

  lemma Distribute(a: nat, b: nat, c: nat)
    ensures (a + b) * c == a * c + b * c
  {
  }

  /** Record `index` of a table: which block, and where in it. */
  lemma {:induction false} SlotArithmetic(index: nat, size: nat, perBlock: nat)
    requires size > 0 && perBlock > 0
    ensures perBlock * size > 0
    ensures IndexOf(index * size, perBlock * size) == IndexOf(index, perBlock)
    ensures OffsetOf(index * size, perBlock * size) == OffsetOf(index, perBlock) * size
    ensures OffsetOf(index, perBlock) * size + size <= perBlock * size
    decreases index
  {
    MulGap(0, perBlock, size);
    if index < perBlock {
      MulGap(index, perBlock, size);
    } else {
      Distribute(index - perBlock, perBlock, size);
      SlotArithmetic(index - perBlock, size, perBlock);
    }
  }

  /** The slot of an inode, with the block size written as a number of records. */
  lemma SlotOf(fs: Fs, num: nat) returns (perBlock: nat)
    requires GoodTables(fs) && IsInode(fs, num)
    ensures perBlock == fs.blockSize / fs.inodeSize && perBlock > 0
    ensures var index := OffsetOf(num - 1, fs.inodesPerGroup);
            && InodeBlock(fs, num) == fs.inodeTables[IndexOf(num - 1, fs.inodesPerGroup)] + IndexOf(index, perBlock)
            && InodeOffset(fs, num) == OffsetOf(index, perBlock) * fs.inodeSize
    ensures InodeOffset(fs, num) + fs.inodeSize <= fs.blockSize
  {
    perBlock := fs.blockSize / fs.inodeSize;
    assert fs.blockSize == perBlock * fs.inodeSize;
    SlotArithmetic(OffsetOf(num - 1, fs.inodesPerGroup), fs.inodeSize, perBlock);
  }

  lemma {:induction false} IndexMonotone(x: nat, y: nat, d: nat)
    requires d > 0 && x <= y
    ensures IndexOf(x, d) <= IndexOf(y, d)
    decreases x
  {
    if x >= d {
      IndexMonotone(x - d, y - d, d);
    }
  }

  lemma TableBound(index: nat, n: nat, size: nat, d: nat)
    requires index < n && size > 0 && d > 0
    ensures IndexOf(index * size, d) < IndexOf(n * size + d - 1, d)
  {
    MulGap(index, n, size);
    var x := index * size;
    assert IndexOf(x + d, d) == 1 + IndexOf(x, d);
    IndexMonotone(x + d, n * size + d - 1, d);
  }

  /** Two records overlap nowhere. */
  predicate SlotsApart(fs: Fs, a: nat, b: nat)
    requires fs.inodesPerGroup > 0 && fs.blockSize > 0 && a > 0 && b > 0
  {
    || InodeBlock(fs, a) != InodeBlock(fs, b)
    || InodeOffset(fs, a) + 124 <= InodeOffset(fs, b)
    || InodeOffset(fs, b) + 124 <= InodeOffset(fs, a)
  }

  lemma OtherTableOtherBlock(tables: seq<nat>, len: nat, g: nat, h: nat, x: nat, y: nat)
    requires TablesApart(tables, len) && g < |tables| && h < |tables| && g != h && x < len && y < len
    ensures tables[g] + x != tables[h] + y
  {
  }

  lemma OtherGroupOtherBlock(fs: Fs, a: nat, b: nat)
    requires GoodTables(fs) && TablesDisjoint(fs) && IsInode(fs, a) && IsInode(fs, b)
    requires IndexOf(a - 1, fs.inodesPerGroup) != IndexOf(b - 1, fs.inodesPerGroup)
    ensures InodeBlock(fs, a) != InodeBlock(fs, b)
  {
    var i, j := OffsetOf(a - 1, fs.inodesPerGroup), OffsetOf(b - 1, fs.inodesPerGroup);
    TableBound(i, fs.inodesPerGroup, fs.inodeSize, fs.blockSize);
    TableBound(j, fs.inodesPerGroup, fs.inodeSize, fs.blockSize);
    OtherTableOtherBlock(fs.inodeTables, TableBlocks(fs), IndexOf(a - 1, fs.inodesPerGroup),
                         IndexOf(b - 1, fs.inodesPerGroup),
                         IndexOf(i * fs.inodeSize, fs.blockSize), IndexOf(j * fs.inodeSize, fs.blockSize));
  }

  /** Records i and j of one table, k to a block. */
  lemma RecordsApart(i: nat, j: nat, k: nat, size: nat)
    requires i != j && k > 0
    ensures || IndexOf(i, k) != IndexOf(j, k)
            || OffsetOf(i, k) * size + size <= OffsetOf(j, k) * size
            || OffsetOf(j, k) * size + size <= OffsetOf(i, k) * size
  {
    PositionParts(i, k);
    PositionParts(j, k);
    MulGap(OffsetOf(i, k), OffsetOf(j, k), size);
    MulGap(OffsetOf(j, k), OffsetOf(i, k), size);
  }

  lemma SameGroupApart(fs: Fs, a: nat, b: nat)
    requires GoodTables(fs) && IsInode(fs, a) && IsInode(fs, b) && a != b
    requires IndexOf(a - 1, fs.inodesPerGroup) == IndexOf(b - 1, fs.inodesPerGroup)
    ensures SlotsApart(fs, a, b)
  {
    var k := SlotOf(fs, a);
    var k' := SlotOf(fs, b);
    PositionParts(a - 1, fs.inodesPerGroup);
    PositionParts(b - 1, fs.inodesPerGroup);
    RecordsApart(OffsetOf(a - 1, fs.inodesPerGroup), OffsetOf(b - 1, fs.inodesPerGroup), k, fs.inodeSize);
  }

  /** Distinct inode numbers have disjoint records, each within one block. */
  lemma DistinctInodesApart(fs: Fs, a: nat, b: nat)
    requires GoodTables(fs) && TablesDisjoint(fs) && IsInode(fs, a) && IsInode(fs, b) && a != b
    ensures SlotsApart(fs, a, b)
  {
    if IndexOf(a - 1, fs.inodesPerGroup) != IndexOf(b - 1, fs.inodesPerGroup) {
      OtherGroupOtherBlock(fs, a, b);
    } else {
      SameGroupApart(fs, a, b);
    }
  }

  // ----- reading and writing inode records -----

  ghost predicate HasInode(fs: Fs, disk: Disk, num: nat) {
    && GoodTables(fs) && GoodDisk(fs, disk) && IsInode(fs, num) && InodeBlock(fs, num) < |disk|
  }

  function ReadInodeAt(disk: Disk, n: nat, at: nat): Inode
    requires n < |disk| && at + 124 <= |disk[n]|
  {
    disk[n][at..at + 124]
  }

  function WriteInodeAt(disk: Disk, n: nat, at: nat, r: Inode): Disk
    requires n < |disk| && at + 124 <= |disk[n]|
  {
    disk[n := Splice(disk[n], at, r)]
  }

  lemma SlotFits(fs: Fs, disk: Disk, num: nat)
    requires HasInode(fs, disk, num)
    ensures InodeOffset(fs, num) + 124 <= |disk[InodeBlock(fs, num)]|
  {
    var k := SlotOf(fs, num);
  }

  function ReadInode(fs: Fs, disk: Disk, num: nat): Inode
    requires HasInode(fs, disk, num)
  {
    SlotFits(fs, disk, num);
    ReadInodeAt(disk, InodeBlock(fs, num), InodeOffset(fs, num))
  }

  function WriteInode(fs: Fs, disk: Disk, num: nat, r: Inode): Disk
    requires HasInode(fs, disk, num)
  {
    SlotFits(fs, disk, num);
    WriteInodeAt(disk, InodeBlock(fs, num), InodeOffset(fs, num), r)
  }

  /** An inode written is the inode read back, and every other inode reads as before. */
  lemma InodeRoundTrip(fs: Fs, disk: Disk, num: nat, r: Inode, other: nat)
    requires HasInode(fs, disk, num) && HasInode(fs, disk, other) && TablesDisjoint(fs)
    ensures HasInode(fs, WriteInode(fs, disk, num, r), other)
    ensures ReadInode(fs, WriteInode(fs, disk, num, r), other) == if other == num then r else ReadInode(fs, disk, other)
  {
    SlotFits(fs, disk, num);
    SlotFits(fs, disk, other);
    var disk' := WriteInode(fs, disk, num, r);
    assert GoodDisk(fs, disk');
    if other != num {
      DistinctInodesApart(fs, num, other);
    }
  }
}
