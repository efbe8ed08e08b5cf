/** What the bytes on the device mean, written down the other way round: lists of block numbers and
    inode records are laid out as images, and kernel/ext2.c finds in the images what went into them. */
module Ext2Image {
  import opened Bytes
  import opened Ext2Layout
  import opened BlockFile
  import opened Ext2File

  // ----- arrays of 32-bit words -----

  /** The lowest byte comes first. */
  lemma WordBytes(s: seq<byte>, at: nat)
    requires at + 4 <= |s|
    ensures U32(s, at) == s[at] as nat + 256 * (s[at + 1] as nat) + 65536 * (s[at + 2] as nat)
                          + 16777216 * (s[at + 3] as nat)
  {
    var w := s[at..at + 4];
    assert w[1..] == s[at + 1..at + 4] && w[1..][1..] == s[at + 2..at + 4];
    assert s[at + 2..at + 4][1..] == s[at + 3..at + 4] && s[at + 3..at + 4][1..] == [];
    assert LittleEndian(s[at + 3..at + 4]) == s[at + 3] as nat;
    assert LittleEndian(w) == w[0] as nat + 256 * LittleEndian(w[1..]);
    assert LittleEndian(s[at + 1..at + 4]) == s[at + 1] as nat + 256 * LittleEndian(s[at + 2..at + 4]);
    assert LittleEndian(s[at + 2..at + 4]) == s[at + 2] as nat + 256 * (s[at + 3] as nat);
  }

  type Word = n: nat | n < WORD witness 0

  /** An array of words as it lies in memory. */
  function Words(ws: seq<Word>): (s: seq<byte>)
    ensures |s| == 4 * |ws|
  {
    if ws == [] then [] else Le32(ws[0]) + Words(ws[1..])
  }

  lemma {:induction false} WordsSlice(ws: seq<Word>, k: nat)
    requires k < |ws|
    ensures Words(ws)[4 * k..4 * k + 4] == Le32(ws[k])
  {
    if k > 0 {
      WordsSlice(ws[1..], k - 1);
      assert Words(ws)[4..] == Words(ws[1..]);
      assert Words(ws)[4 * k..4 * k + 4] == Words(ws)[4..][4 * (k - 1)..4 * (k - 1) + 4];
    }
  }

  lemma SliceOfSlice(s: seq<byte>, a: nat, t: seq<byte>, i: nat, j: nat)
    requires a + |t| <= |s| && s[a..a + |t|] == t && i <= j <= |t|
    ensures t[i..j] == s[a + i..a + j]
  {
    forall k | 0 <= k < j - i
      ensures t[i..j][k] == s[a + i..a + j][k]
    {
      assert t[i + k] == s[a + (i + k)];
    }
  }

  lemma WordHere(s: seq<byte>, at: nat, n: Word)
    requires at + 4 <= |s| && s[at..at + 4] == Le32(n)
    ensures U32(s, at) == n
  {
    WordRoundTrip(n);
    assert Le32(n)[0..0 + 4] == Le32(n);
  }

  lemma WordWithin(s: seq<byte>, a: nat, t: seq<byte>, i: nat, n: Word)
    requires a + |t| <= |s| && s[a..a + |t|] == t && i + 4 <= |t| && t[i..i + 4] == Le32(n)
    ensures U32(s, a + i) == n
  {
    SliceOfSlice(s, a, t, i, i + 4);
    WordHere(s, a + i, n);
  }

  /** An array is read as the words it was made of, wherever it lies and whatever follows. */
  lemma WordsRead(s: seq<byte>, at: nat, ws: seq<Word>, k: nat)
    requires k < |ws| && at + |Words(ws)| <= |s| && s[at..at + |Words(ws)|] == Words(ws)
    ensures U32(s, at + 4 * k) == ws[k]
  {
    WordsSlice(ws, k);
    WordWithin(s, at, Words(ws), 4 * k, ws[k]);
  }

  // ----- inode records -----

  type Half = n: nat | n < 65536 witness 0

  /** The members of ext2_inode_t in their order; `rest` is what follows the block pointers. */
  datatype InodeFields = InodeFields(
    mode: Half, uid: Half, size: Word, atime: Word, ctime: Word, mtime: Word, dtime: Word, gid: Half, links: Half,
    blocks: Word, flags: Word, osd1: Word, block: seq<Word>, rest: seq<byte>)

  predicate IsRecord(e: InodeFields) {
    |e.block| == 15 && |e.rest| == 24
  }

  /** The members one behind the other, without padding. */
  function Packed(e: InodeFields): Inode
    requires IsRecord(e)
  {
    Digits(e.mode, 2) + Digits(e.uid, 2) + Le32(e.size) + Words([e.atime, e.ctime, e.mtime, e.dtime])
    + Digits(e.gid, 2) + Digits(e.links, 2) + Words([e.blocks, e.flags, e.osd1]) + Words(e.block) + e.rest
  }

  /** The size and the block pointers of a record are the members of those names. */
  lemma PackedFields(e: InodeFields, k: nat)
    requires IsRecord(e) && k < 15
    ensures SizeField(Packed(e)) == e.size && BlockField(Packed(e), k) == e.block[k]
  {
    var r := Packed(e);
    assert r[4..4 + 4] == Le32(e.size);
    WordHere(r, 4, e.size);
    assert r[40..40 + 60] == Words(e.block);
    WordsRead(r, 40, e.block, k);
  }

  /** Setting the size in the record is changing that member, */
  lemma PackedSize(e: InodeFields, n: Word)
    requires IsRecord(e)
    ensures WithSize(Packed(e), n) == Packed(e.(size := n))
  {
    var back := Packed(e)[8..];
    assert Packed(e) == Digits(e.mode, 2) + Digits(e.uid, 2) + Le32(e.size) + back;
  }

  /** and so is setting a block pointer. */
  lemma PackedBlock(e: InodeFields, k: nat, n: Word)
    requires IsRecord(e) && k < 15
    ensures WithBlock(Packed(e), k, n) == Packed(e.(block := e.block[k := n]))
  {
    OneWord(e.block, k, n);
    var front := Packed(e)[..40];
    assert Packed(e) == front + Words(e.block) + e.rest;
  }

  lemma {:induction false} OneWord(ws: seq<Word>, k: nat, n: Word)
    requires k < |ws|
    ensures Words(ws[k := n]) == Splice(Words(ws), 4 * k, Le32(n))
  {
    if k == 0 {
      assert ws[0 := n][1..] == ws[1..];
    } else {
      OneWord(ws[1..], k - 1, n);
      assert ws[k := n][1..] == ws[1..][k - 1 := n];
    }
  }

  // ----- the blocks of a file -----

  function Somes(ns: seq<nat>): seq<Option<nat>> {
    seq(|ns|, i requires 0 <= i < |ns| => Some(ns[i]))
  }

  function Holes(k: nat): (ns: seq<nat>) {
    seq(k, _ => 0)
  }

  function Errors(k: nat): seq<Option<nat>> {
    seq(k, _ => None)
  }

  /** The blocks behind the first twelve indices are the first twelve pointers. */
  lemma DirectBlocks(fs: Fs, disk: Disk, e: InodeFields)
    requires GoodDisk(fs, disk) && fs.blockSize > 0 && IsRecord(e)
    ensures FileOf(fs, disk, Packed(e)).blocks[..12] == Somes(e.block[..12])
    ensures |FileOf(fs, disk, Packed(e)).blocks| == 12 + fs.blockSize / 4
  {
    forall k | 0 <= k < 12
      ensures FileOf(fs, disk, Packed(e)).blocks[k] == Some(e.block[k])
    {
      FileOfAt(fs, disk, Packed(e), k);
      PackedFields(e, k);
    }
  }

  lemma IndirectBlock(fs: Fs, disk: Disk, e: InodeFields, k: nat)
    requires GoodDisk(fs, disk) && fs.blockSize > 0 && IsRecord(e) && k < fs.blockSize / 4
    ensures var b := At(FileOf(fs, disk, Packed(e)), 12 + k);
            && (e.block[12] == 0 ==> b == Some(0))
            && (0 < e.block[12] < |disk| ==> b == Some(U32(disk[e.block[12]], 4 * k)))
            && (0 < e.block[12] && |disk| <= e.block[12] ==> b == None)
  {
    FileOfAt(fs, disk, Packed(e), 12 + k);
    PackedFields(e, 12);
  }

  /** The file of an inode record: the twelve direct blocks, then those listed in the indirect block, and none beyond.
      Without an indirect block the rest are holes; if it lies beyond the device, errors. */
  lemma FileOfImage(fs: Fs, disk: Disk, e: InodeFields, ws: seq<Word>, pad: seq<byte>)
    requires GoodDisk(fs, disk) && fs.blockSize > 0 && IsRecord(e) && |ws| == fs.blockSize / 4
    ensures var f, n := FileOf(fs, disk, Packed(e)), e.block[12];
            && f.bs == fs.blockSize && |f.blocks| == 12 + |ws|
            && (0 < n < |disk| && disk[n] == Words(ws) + pad ==> f.blocks == Somes(e.block[..12] + ws))
            && (n == 0 ==> f.blocks == Somes(e.block[..12] + Holes(|ws|)))
            && (0 < n && |disk| <= n ==> f.blocks == Somes(e.block[..12]) + Errors(|ws|))
  {
    var f, n := FileOf(fs, disk, Packed(e)), e.block[12];
    DirectBlocks(fs, disk, e);
    forall j: nat | 12 <= j < |f.blocks|
      ensures n == 0 ==> f.blocks[j] == Some(0)
      ensures 0 < n < |disk| && disk[n] == Words(ws) + pad ==> f.blocks[j] == Some(ws[j - 12])
      ensures 0 < n && |disk| <= n ==> f.blocks[j] == None
    {
      IndirectBlock(fs, disk, e, j - 12);
      if 0 < n < |disk| && disk[n] == Words(ws) + pad {
        WordsRead(disk[n], 0, ws, j - 12);
      }
    }
    assert f.blocks == f.blocks[..12] + f.blocks[12..];
  }
}
