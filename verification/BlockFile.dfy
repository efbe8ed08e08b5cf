/** A file as the block-wise loops of kernel/ext2.c see it: a list of block numbers over a device,
    against the flat sequence of bytes that the file is. */
module BlockFile {
  import opened Bytes
  import opened Ext2Layout

  // ----- the file as bytes -----

  /** The block behind each index, as ext2_get_block_number answers: Some(0) is a hole, None an error. */
  datatype Extents = Extents(bs: nat, blocks: seq<Option<nat>>)

  type File = f: Extents | f.bs > 0 witness Extents(1, [])

  function At(f: File, i: nat): Option<nat> {
    if i < |f.blocks| then f.blocks[i] else None
  }

  ghost predicate Fits(f: File, disk: Disk) {
    forall b :: 0 <= b < |disk| ==> |disk[b]| == f.bs
  }

  /** The code can deliver this block: it is a hole or on a device of `size` blocks. */
  predicate Reachable(f: File, size: nat, i: nat) {
    At(f, i).Some? && (At(f, i).value == 0 || At(f, i).value < size)
  }

  function BlockByte(f: File, disk: Disk, i: nat, off: nat): byte
    requires Fits(f, disk) && Reachable(f, |disk|, i) && off < f.bs
  {
    if At(f, i).value == 0 then 0 else disk[At(f, i).value][off]
  }

  predicate HasByte(f: File, size: nat, p: nat) {
    Reachable(f, size, IndexOf(p, f.bs))
  }

  /** Byte p of the file; holes read as zero. */
  function ByteAt(f: File, disk: Disk, p: nat): byte
    requires Fits(f, disk) && HasByte(f, |disk|, p)
  {
    BlockByte(f, disk, IndexOf(p, f.bs), OffsetOf(p, f.bs))
  }

  ghost predicate HasBytes(f: File, size: nat, from: nat, to: nat) {
    forall p: nat :: from <= p < to ==> HasByte(f, size, p)
  }

  /** `bytes` are the bytes of the file from position `from`. */
  ghost predicate Delivers(f: File, disk: Disk, from: nat, bytes: seq<byte>)
    requires Fits(f, disk)
  {
    forall p: nat :: from <= p < from + |bytes| ==> HasByte(f, |disk|, p) && bytes[p - from] == ByteAt(f, disk, p)
  }

  // ----- reading -----

  function Min(a: nat, b: nat): nat {
    if a < b then a else b
  }

  /** How much of the rest one iteration takes. */
  function Stretch(f: File, p: nat, rest: nat): (m: nat)
    ensures m <= rest && OffsetOf(p, f.bs) + m <= f.bs
    ensures rest > 0 ==> m > 0
  {
    Min(f.bs - OffsetOf(p, f.bs), rest)
  }

  function ZeroBytes(m: nat): (s: seq<byte>)
    ensures |s| == m && forall k :: 0 <= k < m ==> s[k] == 0
  {
    if m == 0 then [] else [0] + ZeroBytes(m - 1)
  }

  /** What one iteration of ext2_read copies: zeros for a hole, else part of one block. */
  function Chunk(f: File, disk: Disk, i: nat, off: nat, m: nat): (s: seq<byte>)
    requires Fits(f, disk) && Reachable(f, |disk|, i) && off + m <= f.bs
    ensures |s| == m
  {
    if At(f, i).value == 0 then ZeroBytes(m) else disk[At(f, i).value][off..off + m]
  }

  lemma ChunkByte(f: File, disk: Disk, p: nat, m: nat, k: nat)
    requires Fits(f, disk) && HasByte(f, |disk|, p) && OffsetOf(p, f.bs) + m <= f.bs && k < m
    ensures HasByte(f, |disk|, p + k)
    ensures Chunk(f, disk, IndexOf(p, f.bs), OffsetOf(p, f.bs), m)[k] == ByteAt(f, disk, p + k)
  {
    SameBlock(p, k, f.bs);
  }

  /** One iteration of the read loop: the bytes of the file so far, and the chunk after them. */
  lemma ChunkExtends(f: File, disk: Disk, from: nat, acc: seq<byte>, p: nat, m: nat)
    requires Fits(f, disk) && Delivers(f, disk, from, acc) && p == from + |acc|
    requires HasByte(f, |disk|, p) && OffsetOf(p, f.bs) + m <= f.bs
    ensures Delivers(f, disk, from, acc + Chunk(f, disk, IndexOf(p, f.bs), OffsetOf(p, f.bs), m))
  {
    var s := Chunk(f, disk, IndexOf(p, f.bs), OffsetOf(p, f.bs), m);
    forall x: nat | from <= x < p + m
      ensures HasByte(f, |disk|, x) && (acc + s)[x - from] == ByteAt(f, disk, x)
    {
      if x >= p {
        ChunkByte(f, disk, p, m, x - p);
      }
    }
  }

  /** Block i of the file: zeros for a hole, else the whole block of the device. */
  function WholeBlock(f: File, disk: Disk, i: nat): (s: seq<byte>)
    requires Fits(f, disk) && Reachable(f, |disk|, i)
    ensures |s| == f.bs
  {
    if At(f, i) == Some(0) then ZeroBytes(f.bs) else disk[At(f, i).value]
  }

  /** The first n blocks one behind the other. */
  function Content(f: File, disk: Disk, n: nat): (s: seq<byte>)
    requires Fits(f, disk) && forall i: nat :: i < n ==> Reachable(f, |disk|, i)
    ensures |s| == n * f.bs
  {
    if n == 0 then [] else Content(f, disk, n - 1) + WholeBlock(f, disk, n - 1)
  }

  lemma {:induction false} ContentAt(f: File, disk: Disk, n: nat, p: nat)
    requires Fits(f, disk) && p < n * f.bs && forall i: nat :: i < n ==> Reachable(f, |disk|, i)
    ensures HasByte(f, |disk|, p) && Content(f, disk, n)[p] == ByteAt(f, disk, p)
    decreases n
  {
    var front := (n - 1) * f.bs;
    assert n * f.bs == front + f.bs;
    if p < front {
      ContentAt(f, disk, n - 1, p);
    } else {
      DivModUnique(p, f.bs, n - 1, p - front);
      IndexIsQuotient(p, f.bs);
    }
  }

  /** The bytes of a file are its blocks one behind the other: what is delivered is that stretch of them. */
  lemma DeliversContent(f: File, disk: Disk, n: nat, from: nat, s: seq<byte>)
    requires Fits(f, disk) && Delivers(f, disk, from, s) && from + |s| <= n * f.bs
    requires forall i: nat :: i < n ==> Reachable(f, |disk|, i)
    ensures s == Content(f, disk, n)[from..from + |s|]
  {
    forall k | 0 <= k < |s|
      ensures s[k] == Content(f, disk, n)[from..from + |s|][k]
    {
      var p: nat := from + k;
      ContentAt(f, disk, n, p);
      assert s[p - from] == ByteAt(f, disk, p);
    }
  }

  // ----- writing -----

  /** The block behind an index is on the device and not a hole. */
  predicate Mapped(f: File, size: nat, i: nat) {
    At(f, i).Some? && 0 < At(f, i).value < size
  }

  /** No other index shares its block. */
  ghost predicate Alone(f: File, size: nat, i: nat) {
    forall j: nat :: Mapped(f, size, j) && At(f, j) == At(f, i) ==> j == i
  }

  /** One read-modify-write of ext2_write. */
  function Stored(f: File, disk: Disk, i: nat, off: nat, s: seq<byte>): (d: Disk)
    requires Fits(f, disk) && Mapped(f, |disk|, i) && off + |s| <= f.bs
    ensures Fits(f, d) && |d| == |disk|
  {
    disk[At(f, i).value := Splice(disk[At(f, i).value], off, s)]
  }

  lemma StoredBlockByte(f: File, disk: Disk, i: nat, off: nat, s: seq<byte>, j: nat, o: nat)
    requires Fits(f, disk) && Mapped(f, |disk|, i) && Alone(f, |disk|, i) && off + |s| <= f.bs
    requires Reachable(f, |disk|, j) && o < f.bs
    ensures BlockByte(f, Stored(f, disk, i, off, s), j, o)
         == if j == i && off <= o < off + |s| then s[o - off] else BlockByte(f, disk, j, o)
  {
  }

  lemma StoredByte(f: File, disk: Disk, p: nat, s: seq<byte>, q: nat)
    requires Fits(f, disk) && Mapped(f, |disk|, IndexOf(p, f.bs)) && Alone(f, |disk|, IndexOf(p, f.bs))
    requires OffsetOf(p, f.bs) + |s| <= f.bs && HasByte(f, |disk|, q)
    ensures ByteAt(f, Stored(f, disk, IndexOf(p, f.bs), OffsetOf(p, f.bs), s), q)
         == if p <= q < p + |s| then s[q - p] else ByteAt(f, disk, q)
  {
    InChunk(p, q, |s|, f.bs);
    StoredBlockByte(f, disk, IndexOf(p, f.bs), OffsetOf(p, f.bs), s, IndexOf(q, f.bs), OffsetOf(q, f.bs));
  }

  /** The bytes of the file are as before, but for `buf` at `from`. */
  ghost predicate Spliced(f: File, disk: Disk, disk': Disk, from: nat, buf: seq<byte>)
  {
    && Fits(f, disk) && Fits(f, disk') && |disk'| == |disk|
    && forall q: nat :: HasByte(f, |disk|, q) ==>
         ByteAt(f, disk', q) == if from <= q < from + |buf| then buf[q - from] else ByteAt(f, disk, q)
  }

  /** Block b holds one of the bytes [from, to) of the file. */
  ghost predicate IsDataOf(f: File, from: nat, to: nat, b: nat) {
    exists p: nat :: from <= p < to && At(f, IndexOf(p, f.bs)) == Some(b)
  }

  /** No block differs but those holding the stretch, and `spare`. */
  ghost predicate OnlyTouches(f: File, disk: Disk, disk': Disk, from: nat, to: nat, spare: nat) {
    && |disk'| == |disk|
    && forall b: nat :: b < |disk| && b != spare && !IsDataOf(f, from, to, b) ==> disk'[b] == disk[b]
  }

  /** One iteration of the write loop: what has been spliced in so far, and the chunk after it. */
  lemma SplicedStep(f: File, disk0: Disk, disk: Disk, from: nat, done: seq<byte>, p: nat, s: seq<byte>)
    requires Spliced(f, disk0, disk, from, done) && p == from + |done|
    requires Mapped(f, |disk|, IndexOf(p, f.bs)) && Alone(f, |disk|, IndexOf(p, f.bs))
    requires OffsetOf(p, f.bs) + |s| <= f.bs
    ensures Spliced(f, disk0, Stored(f, disk, IndexOf(p, f.bs), OffsetOf(p, f.bs), s), from, done + s)
  {
    var disk' := Stored(f, disk, IndexOf(p, f.bs), OffsetOf(p, f.bs), s);
    forall q: nat | HasByte(f, |disk0|, q)
      ensures ByteAt(f, disk', q) == if from <= q < p + |s| then (done + s)[q - from] else ByteAt(f, disk0, q)
    {
      StoredByte(f, disk, p, s, q);
    }
  }

  lemma TouchesStep(f: File, disk0: Disk, disk: Disk, from: nat, p: nat, s: seq<byte>, spare: nat)
    requires Fits(f, disk) && OnlyTouches(f, disk0, disk, from, p, spare) && from <= p && s != []
    requires Mapped(f, |disk|, IndexOf(p, f.bs)) && OffsetOf(p, f.bs) + |s| <= f.bs
    ensures OnlyTouches(f, disk0, Stored(f, disk, IndexOf(p, f.bs), OffsetOf(p, f.bs), s), from, p + |s|, spare)
  {
    var disk' := Stored(f, disk, IndexOf(p, f.bs), OffsetOf(p, f.bs), s);
    forall b: nat | b < |disk| && b != spare && !IsDataOf(f, from, p + |s|, b)
      ensures disk'[b] == disk0[b]
    {
      assert At(f, IndexOf(p, f.bs)) != Some(b);
      assert !IsDataOf(f, from, p, b);
    }
  }

  /** Reading back what was written returns it, whatever was there before. */
  lemma ReadsBack(f: File, disk: Disk, disk': Disk, p: nat, buf: seq<byte>, s: seq<byte>)
    requires Spliced(f, disk, disk', p, buf) && Delivers(f, disk', p, s) && |s| == |buf|
    ensures s == buf
  {
    forall k: nat | k < |buf|
      ensures s[k] == buf[k]
    {
      var q := p + k;
      assert s[q - p] == ByteAt(f, disk', q);
    }
  }
}
