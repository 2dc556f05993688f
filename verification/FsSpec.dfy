/**
  The file system image: raw blocks (bitmap, indirect and data blocks alike) and
  the in-memory inodes, what the pointers in them mean, and the rule that every
  block has one owner.
 */
module FsSpec {

  const BSIZE := 1024
  const NDIRECT := 12
  const NINDIRECT := BSIZE / 4
  const MAXFILE := NDIRECT + NINDIRECT
  const BPB := BSIZE * 8
  const IPB := 16
  const UINT := 0x1_0000_0000

  type byte = x: int | 0 <= x < 256
  type Block = b: seq<byte> | |b| == BSIZE witness seq(BSIZE, _ => 0)

  /** What memset(bp->data, 0, BSIZE) leaves. */
  function ZeroBlock(): (b: Block)
    ensures forall i :: 0 <= i < BSIZE ==> b[i] == 0
  {
    seq(BSIZE, _ => 0)
  }

  /** Superblock fields, and `first`, the first block past the metadata. */
  datatype Super = Super(size: nat, inodestart: nat, bmapstart: nat, first: nat) {
    predicate Valid() {
      0 < bmapstart && bmapstart + size / BPB + 1 <= first <= size < UINT
    }
  }

  /** ip->addrs and ip->size. */
  datatype Inode = Inode(addrs: seq<nat>, size: nat)

  datatype Image = Image(blocks: seq<Block>, inodes: seq<Inode>)

  // ----- words of an indirect block -----

  function Word(b: Block, i: int): (v: int)
    requires 0 <= i < NINDIRECT
    ensures 0 <= v < UINT
  {
    var x: int, y: int, z: int, w: int := b[4 * i], b[4 * i + 1], b[4 * i + 2], b[4 * i + 3];
    x + 256 * (y + 256 * (z + 256 * w))
  }

  function SetWord(b: Block, i: int, v: int): Block
    requires 0 <= i < NINDIRECT && 0 <= v < UINT
  {
    var v1 := v / 256;
    var v2 := v1 / 256;
    b[4 * i := v % 256][4 * i + 1 := v1 % 256][4 * i + 2 := v2 % 256][4 * i + 3 := v2 / 256]
  }

  /** A stored word reads back, and no other word changes. */
  lemma WordSet(b: Block, i: int, v: int, j: int)
    requires 0 <= i < NINDIRECT && 0 <= v < UINT && 0 <= j < NINDIRECT
    ensures Word(SetWord(b, i, v), j) == if j == i then v else Word(b, j)
  {
  }

  // ----- the free bitmap -----

  /** 1 << k. */
  function Mask(k: nat): (m: nat)
    ensures m > 0
  {
    if k == 0 then 1 else 2 * Mask(k - 1)
  }

  /** (x >> k) & 1. */
  predicate Bit(x: nat, k: nat) {
    if k == 0 then x % 2 == 1 else Bit(x / 2, k - 1)
  }

  /** Setting the clear bit k, x | (1 << k), sets bit k and no other. */
  lemma {:induction false} BitSetAt(x: nat, k: nat, j: nat)
    requires !Bit(x, k)
    ensures Bit(x + Mask(k), j) <==> j == k || Bit(x, j)
  {
    if k > 0 && j > 0 {
      assert (x + Mask(k)) / 2 == x / 2 + Mask(k - 1);
      BitSetAt(x / 2, k - 1, j - 1);
    } else if k == 0 && j > 0 {
      assert (x + 1) / 2 == x / 2;
    }
  }

  /** Clearing the set bit k, x & ~(1 << k), clears bit k and no other. */
  lemma {:induction false} BitClearedAt(x: nat, k: nat, j: nat)
    requires Bit(x, k)
    ensures x >= Mask(k)
    ensures Bit(x - Mask(k), j) <==> j != k && Bit(x, j)
  {
    if k > 0 {
      BitClearedAt(x / 2, k - 1, if j > 0 then j - 1 else 0);
      HalfLess(x, Mask(k - 1));
    } else if j > 0 {
      assert (x - 1) / 2 == x / 2;
    }
  }

  lemma HalfLess(x: nat, m: nat)
    requires m <= x / 2
    ensures 2 * m <= x && (x - 2 * m) / 2 == x / 2 - m && (x - 2 * m) % 2 == x % 2
  {
    assert x == 2 * (x / 2) + x % 2;
  }

  lemma {:induction false} BitSetRange(x: nat, k: nat, n: nat)
    requires x < Mask(n) && k < n && !Bit(x, k)
    ensures x + Mask(k) < Mask(n)
  {
    if k > 0 {
      BitSetRange(x / 2, k - 1, n - 1);
      assert x <= 2 * (x / 2) + 1;
    } else {
      assert Mask(n) == 2 * Mask(n - 1);
    }
  }

  function BitSet(x: byte, k: nat): byte
    requires k < 8 && !Bit(x, k)
  {
    assert Mask(8) == 256 by { assert Mask(4) == 16; }
    BitSetRange(x, k, 8);
    x + Mask(k)
  }

  function BitCleared(x: byte, k: nat): byte
    requires k < 8 && Bit(x, k)
  {
    BitClearedAt(x, k, 0);
    x - Mask(k)
  }

  /** BBLOCK(b, sb): the bitmap block holding the bit of block b. */
  function BBlock(sb: Super, b: int): (c: int)
    requires sb.Valid() && 0 <= b < sb.size
    ensures sb.bmapstart <= c < sb.first && c <= sb.bmapstart + (sb.size - 1) / BPB
  {
    b / BPB + sb.bmapstart
  }

  /** bi / 8 for bi = b % BPB: the byte within that block. */
  function ByteIndex(b: int): (i: int)
    ensures 0 <= i < BSIZE
  {
    b % BPB / 8
  }

  /** bi % 8: the bit within that byte. */
  function BitIndex(b: int): (k: nat)
    ensures k < 8
  {
    b % BPB % 8
  }

  /** Bitmap block, byte and bit together determine the block number. */
  lemma BitPosition(sb: Super, b: int, c: int)
    requires sb.Valid() && 0 <= b < sb.size && 0 <= c < sb.size
    requires BBlock(sb, b) == BBlock(sb, c) && ByteIndex(b) == ByteIndex(c) && BitIndex(b) == BitIndex(c)
    ensures b == c
  {
    var x, y := b % BPB, c % BPB;
    assert x == 8 * (x / 8) + x % 8 && y == 8 * (y / 8) + y % 8;
  }

  predicate Used(sb: Super, blocks: seq<Block>, b: int)
    requires sb.Valid() && |blocks| == sb.size && 0 <= b < sb.size
  {
    Bit(blocks[BBlock(sb, b)][ByteIndex(b)], BitIndex(b))
  }

  function WithByte(blocks: seq<Block>, c: int, i: int, x: byte): seq<Block>
    requires 0 <= c < |blocks| && 0 <= i < BSIZE
  {
    blocks[c := blocks[c][i := x]]
  }

  function Marked(sb: Super, blocks: seq<Block>, b: int): (r: seq<Block>)
    requires sb.Valid() && |blocks| == sb.size && 0 <= b < sb.size && !Used(sb, blocks, b)
    ensures |r| == |blocks|
  {
    WithByte(blocks, BBlock(sb, b), ByteIndex(b), BitSet(blocks[BBlock(sb, b)][ByteIndex(b)], BitIndex(b)))
  }

  function Unmarked(sb: Super, blocks: seq<Block>, b: int): (r: seq<Block>)
    requires sb.Valid() && |blocks| == sb.size && 0 <= b < sb.size && Used(sb, blocks, b)
    ensures |r| == |blocks|
  {
    WithByte(blocks, BBlock(sb, b), ByteIndex(b), BitCleared(blocks[BBlock(sb, b)][ByteIndex(b)], BitIndex(b)))
  }

  /** Setting a bit of the map marks that block and no other. */
  lemma MarkedUsed(sb: Super, blocks: seq<Block>, b: int, c: int)
    requires sb.Valid() && |blocks| == sb.size && 0 <= b < sb.size && !Used(sb, blocks, b) && 0 <= c < sb.size
    ensures Used(sb, Marked(sb, blocks, b), c) <==> c == b || Used(sb, blocks, c)
  {
    hide Bit, Mask, BBlock, ByteIndex, BitIndex;
    if BBlock(sb, b) == BBlock(sb, c) && ByteIndex(b) == ByteIndex(c) {
      BitSetAt(blocks[BBlock(sb, b)][ByteIndex(b)], BitIndex(b), BitIndex(c));
      if BitIndex(b) == BitIndex(c) { BitPosition(sb, b, c); }
    }
  }

  /** Clearing a bit of the map frees that block and no other. */
  lemma UnmarkedUsed(sb: Super, blocks: seq<Block>, b: int, c: int)
    requires sb.Valid() && |blocks| == sb.size && 0 <= b < sb.size && Used(sb, blocks, b) && 0 <= c < sb.size
    ensures Used(sb, Unmarked(sb, blocks, b), c) <==> c != b && Used(sb, blocks, c)
  {
    hide Bit, Mask, BBlock, ByteIndex, BitIndex;
    if BBlock(sb, b) == BBlock(sb, c) && ByteIndex(b) == ByteIndex(c) {
      BitClearedAt(blocks[BBlock(sb, b)][ByteIndex(b)], BitIndex(b), BitIndex(c));
      if BitIndex(b) == BitIndex(c) { BitPosition(sb, b, c); }
    }
  }

  // ----- pointers and ownership -----

  const NREFS := NDIRECT + 1 + NINDIRECT

  predicate Sane(sb: Super, img: Image) {
    && sb.Valid() && |img.blocks| == sb.size
    && forall i :: 0 <= i < |img.inodes| ==>
         && |img.inodes[i].addrs| == NDIRECT + 1 && img.inodes[i].addrs[NDIRECT] < sb.size
         && img.inodes[i].size <= MAXFILE * BSIZE
  }

  /** Pointer slot k of inode i: 12 direct ones, the indirect one, then its 256 entries. */
  function Ref(sb: Super, img: Image, i: int, k: int): int
    requires Sane(sb, img) && 0 <= i < |img.inodes| && 0 <= k < NREFS
  {
    var addrs := img.inodes[i].addrs;
    if k <= NDIRECT then addrs[k]
    else if addrs[NDIRECT] == 0 then 0
    else Word(img.blocks[addrs[NDIRECT]], k - NDIRECT - 1)
  }

  /** The slot of the bn-th block of a file. */
  function Slot(bn: int): int {
    if bn < NDIRECT then bn else bn + 1
  }

  ghost predicate RefOk(sb: Super, img: Image, i: int, k: int)
    requires Sane(sb, img) && 0 <= i < |img.inodes| && 0 <= k < NREFS
  {
    var b := Ref(sb, img, i, k);
    b != 0 ==> sb.first <= b < sb.size && Used(sb, img.blocks, b)
  }

  /** Metadata and referenced blocks are marked used, and no block is referenced twice. */
  ghost predicate Inv(sb: Super, img: Image) {
    && Sane(sb, img)
    && (forall b :: 0 <= b < sb.first ==> Used(sb, img.blocks, b))
    && (forall i, k :: 0 <= i < |img.inodes| && 0 <= k < NREFS ==> RefOk(sb, img, i, k))
    && (forall i, k, j, l ::
      0 <= i < |img.inodes| && 0 <= k < NREFS && 0 <= j < |img.inodes| && 0 <= l < NREFS
      && Ref(sb, img, i, k) == Ref(sb, img, j, l) != 0
      ==> i == j && k == l)
  }

  /** No pointer names b. */
  ghost predicate Unreferenced(sb: Super, img: Image, b: int)
    requires Sane(sb, img)
  {
    forall i, k :: 0 <= i < |img.inodes| && 0 <= k < NREFS ==> Ref(sb, img, i, k) != b
  }

  /** Slot k of inode i became b and every other pointer is as before. */
  ghost predicate Repointed(sb: Super, img: Image, img': Image, i: int, k: int, b: int)
    requires Sane(sb, img) && Sane(sb, img')
  {
    && |img'.inodes| == |img.inodes|
    && forall j, l :: 0 <= j < |img.inodes| && 0 <= l < NREFS ==>
         Ref(sb, img', j, l) == if j == i && l == k then b else Ref(sb, img, j, l)
  }

  ghost predicate StillUsed(sb: Super, img: Image, img': Image)
    requires Sane(sb, img) && Sane(sb, img')
  {
    forall c :: 0 <= c < sb.size && Used(sb, img.blocks, c) ==> Used(sb, img'.blocks, c)
  }

  ghost predicate SameBitmap(sb: Super, img: Image, img': Image)
    requires Sane(sb, img) && Sane(sb, img')
  {
    forall c :: sb.bmapstart <= c < sb.first ==> img'.blocks[c] == img.blocks[c]
  }

  lemma SameBitmapUsed(sb: Super, img: Image, img': Image)
    requires Sane(sb, img) && Sane(sb, img') && SameBitmap(sb, img, img')
    ensures forall c :: 0 <= c < sb.size ==> (Used(sb, img'.blocks, c) <==> Used(sb, img.blocks, c))
  {
    hide BBlock;
  }

  /** Storing a used, unreferenced block in one slot keeps every block with one owner. */
  lemma RepointKeepsInv(sb: Super, img: Image, img': Image, i: int, k: int, b: int)
    requires Inv(sb, img) && Sane(sb, img')
    requires Repointed(sb, img, img', i, k, b) && StillUsed(sb, img, img')
    requires b == 0 || (sb.first <= b < sb.size && Used(sb, img'.blocks, b) && Unreferenced(sb, img, b))
    ensures Inv(sb, img')
  {
    hide Ref, Used;
    forall j, l | 0 <= j < |img'.inodes| && 0 <= l < NREFS
      ensures RefOk(sb, img', j, l)
    {
      assert RefOk(sb, img, j, l);
    }
  }

  lemma ZeroWords(i: int)
    requires 0 <= i < NINDIRECT
    ensures Word(ZeroBlock(), i) == 0
  {
  }

  // ----- the steps of balloc and bmap -----

  /** balloc's effect: the bit is set and the block zeroed. */
  function Allocated(sb: Super, img: Image, b: int): Image
    requires sb.Valid() && |img.blocks| == sb.size && 0 <= b < sb.size && !Used(sb, img.blocks, b)
  {
    img.(blocks := Marked(sb, img.blocks, b)[b := ZeroBlock()])
  }

  lemma AllocatedUsed(sb: Super, img: Image, b: int)
    requires Inv(sb, img) && 0 <= b < sb.size && !Used(sb, img.blocks, b)
    ensures sb.first <= b && Unreferenced(sb, img, b)
    ensures forall c :: 0 <= c < sb.size ==>
      (Used(sb, Allocated(sb, img, b).blocks, c) <==> c == b || Used(sb, img.blocks, c))
  {
    hide Bit, ByteIndex, BitIndex, BBlock, Ref;
    forall c | 0 <= c < sb.size
      ensures Used(sb, Allocated(sb, img, b).blocks, c) <==> c == b || Used(sb, img.blocks, c)
    {
      MarkedUsed(sb, img.blocks, b, c);
      assert BBlock(sb, c) != b;
    }
    forall i, k | 0 <= i < |img.inodes| && 0 <= k < NREFS
      ensures Ref(sb, img, i, k) != b
    {
      assert RefOk(sb, img, i, k);
    }
  }

  lemma AllocatedRefs(sb: Super, img: Image, b: int)
    requires Inv(sb, img) && 0 <= b < sb.size && !Used(sb, img.blocks, b)
    ensures Sane(sb, Allocated(sb, img, b))
    ensures Repointed(sb, img, Allocated(sb, img, b), -1, -1, 0)
  {
    hide Bit, ByteIndex, BitIndex, BBlock, Used, Word;
    var img' := Allocated(sb, img, b);
    forall j, l | 0 <= j < |img.inodes| && 0 <= l < NREFS
      ensures Ref(sb, img', j, l) == Ref(sb, img, j, l)
    {
      assert RefOk(sb, img, j, NDIRECT);
      AllocatedUsed(sb, img, b);
      assert Ref(sb, img, j, NDIRECT) != b;
    }
  }

  function WithAddr(img: Image, i: int, k: int, b: nat): Image
    requires 0 <= i < |img.inodes| && 0 <= k < |img.inodes[i].addrs|
  {
    img.(inodes := img.inodes[i := img.inodes[i].(addrs := img.inodes[i].addrs[k := b])])
  }

  /** a[e] = b in the indirect block of inode i. */
  function WithEntry(img: Image, i: int, e: int, b: nat): Image
    requires 0 <= i < |img.inodes| && |img.inodes[i].addrs| == NDIRECT + 1
    requires img.inodes[i].addrs[NDIRECT] < |img.blocks| && 0 <= e < NINDIRECT && b < UINT
  {
    var ind := img.inodes[i].addrs[NDIRECT];
    img.(blocks := img.blocks[ind := SetWord(img.blocks[ind], e, b)])
  }

  /** A slot of inode i went from empty to the freshly allocated, zeroed block b. */
  ghost predicate Grew(sb: Super, img: Image, img': Image, i: int, k: int, b: int)
    requires Inv(sb, img) && 0 <= i < |img.inodes| && 0 <= k < NREFS
  {
    && Inv(sb, img') && Repointed(sb, img, img', i, k, b)
    && 0 < b < sb.size && !Used(sb, img.blocks, b) && img'.blocks[b] == ZeroBlock()
    && (forall j :: 0 <= j < |img.inodes| ==> img'.inodes[j].size == img.inodes[j].size)
    && (forall c :: sb.first <= c < sb.size && Used(sb, img.blocks, c) && (k <= NDIRECT || c != Ref(sb, img, i, NDIRECT))
          ==> img'.blocks[c] == img.blocks[c])
    && (forall c :: 0 <= c < sb.size ==> (Used(sb, img'.blocks, c) <==> c == b || Used(sb, img.blocks, c)))
  }

  lemma AllocatedInv(sb: Super, img: Image, b: int)
    requires Inv(sb, img) && 0 <= b < sb.size && !Used(sb, img.blocks, b)
    ensures Inv(sb, Allocated(sb, img, b)) && Unreferenced(sb, Allocated(sb, img, b), b)
    ensures Repointed(sb, img, Allocated(sb, img, b), -1, -1, 0)
  {
    hide Used, Ref;
    AllocatedUsed(sb, img, b);
    AllocatedRefs(sb, img, b);
    RepointKeepsInv(sb, img, Allocated(sb, img, b), -1, -1, 0);
  }

  /** Taking a block for a direct or the indirect pointer. */
  lemma GrowAddr(sb: Super, img: Image, i: int, k: int, b: int)
    requires Inv(sb, img) && 0 <= i < |img.inodes| && 0 <= k <= NDIRECT && img.inodes[i].addrs[k] == 0
    requires 0 <= b < sb.size && !Used(sb, img.blocks, b)
    ensures Grew(sb, img, WithAddr(Allocated(sb, img, b), i, k, b), i, k, b)
  {
    hide Used, Word, Bit, BBlock;
    var mid := Allocated(sb, img, b);
    var img' := WithAddr(mid, i, k, b);
    AllocatedInv(sb, img, b);
    AllocatedUsed(sb, img, b);
    forall j, l | 0 <= j < |img.inodes| && 0 <= l < NREFS
      ensures Ref(sb, img', j, l) == if j == i && l == k then b else Ref(sb, mid, j, l)
    {
      if l > NDIRECT { ZeroWords(l - NDIRECT - 1); }
    }
    assert Repointed(sb, mid, img', i, k, b);
    RepointKeepsInv(sb, mid, img', i, k, b);
  }

  /** Taking a block for an entry of the indirect block. */
  lemma GrowEntry(sb: Super, img: Image, i: int, e: int, b: int)
    requires Inv(sb, img) && 0 <= i < |img.inodes| && 0 <= e < NINDIRECT
    requires img.inodes[i].addrs[NDIRECT] != 0 && Ref(sb, img, i, NDIRECT + 1 + e) == 0
    requires 0 <= b < sb.size && !Used(sb, img.blocks, b)
    ensures Grew(sb, img, WithEntry(Allocated(sb, img, b), i, e, b), i, NDIRECT + 1 + e, b)
  {
    hide Used, Word, SetWord, Bit, BBlock;
    var mid := Allocated(sb, img, b);
    var img' := WithEntry(mid, i, e, b);
    var ind := img.inodes[i].addrs[NDIRECT];
    AllocatedInv(sb, img, b);
    AllocatedUsed(sb, img, b);
    assert RefOk(sb, img, i, NDIRECT) && Ref(sb, img, i, NDIRECT) == ind;
    SameBitmapUsed(sb, mid, img');
    forall j, l | 0 <= j < |img.inodes| && 0 <= l < NREFS
      ensures Ref(sb, img', j, l) == if j == i && l == NDIRECT + 1 + e then b else Ref(sb, mid, j, l)
    {
      assert Ref(sb, mid, j, NDIRECT) == ind ==> j == i;
      if l > NDIRECT { WordSet(mid.blocks[ind], e, b, l - NDIRECT - 1); }
    }
    assert Repointed(sb, mid, img', i, NDIRECT + 1 + e, b);
    RepointKeepsInv(sb, mid, img', i, NDIRECT + 1 + e, b);
  }

  // ----- files -----

  /** The block holding the bn-th block of file i, or 0. */
  function DataRef(sb: Super, img: Image, i: int, bn: int): int
    requires Sane(sb, img) && 0 <= i < |img.inodes| && 0 <= bn < MAXFILE
  {
    Ref(sb, img, i, Slot(bn))
  }

  /** The contents of the bn-th block of file i; a missing block reads as zeros. */
  ghost function FileBlock(sb: Super, img: Image, i: int, bn: int): Block
    requires Inv(sb, img) && 0 <= i < |img.inodes| && 0 <= bn < MAXFILE
  {
    if DataRef(sb, img, i, bn) == 0 then ZeroBlock()
    else
      assert RefOk(sb, img, i, Slot(bn));
      img.blocks[DataRef(sb, img, i, bn)]
  }

  ghost predicate SameFileBlocks(sb: Super, img: Image, img': Image)
    requires Inv(sb, img) && Inv(sb, img') && |img'.inodes| == |img.inodes|
  {
    forall j, m :: 0 <= j < |img.inodes| && 0 <= m < MAXFILE ==>
      FileBlock(sb, img', j, m) == FileBlock(sb, img, j, m)
  }

  /** Taking a block for a file changes no byte of any file. */
  lemma GrewFiles(sb: Super, img: Image, img': Image, i: int, k: int, b: int)
    requires Inv(sb, img) && 0 <= i < |img.inodes| && 0 <= k < NREFS && Ref(sb, img, i, k) == 0
    requires Grew(sb, img, img', i, k, b)
    ensures SameFileBlocks(sb, img, img')
  {
    hide Used, Ref, ZeroBlock;
    forall j, m | 0 <= j < |img.inodes| && 0 <= m < MAXFILE
      ensures FileBlock(sb, img', j, m) == FileBlock(sb, img, j, m)
    {
      assert RefOk(sb, img, j, Slot(m)) && RefOk(sb, img', j, Slot(m));
      assert Ref(sb, img, j, Slot(m)) == Ref(sb, img, i, NDIRECT) != 0 ==> Slot(m) == NDIRECT;
    }
  }

  /** bmap's effect, whatever path it took: only the mapping of block bn of file i may change. */
  ghost predicate Mapped(sb: Super, img: Image, img': Image, i: int, bn: int, r: int)
    requires Inv(sb, img) && 0 <= i < |img.inodes| && 0 <= bn < MAXFILE
  {
    && Inv(sb, img') && |img'.inodes| == |img.inodes|
    && (forall j :: 0 <= j < |img.inodes| ==> img'.inodes[j].size == img.inodes[j].size)
    && (forall j, m :: 0 <= j < |img.inodes| && 0 <= m < MAXFILE ==>
          DataRef(sb, img', j, m) == if j == i && m == bn then r else DataRef(sb, img, j, m))
    && SameFileBlocks(sb, img, img')
    && (Ref(sb, img, i, NDIRECT) != 0 ==> Ref(sb, img', i, NDIRECT) == Ref(sb, img, i, NDIRECT))
    && (DataRef(sb, img, i, bn) != 0 ==> img' == img)
    && (r == 0 ==> forall c :: 0 <= c < sb.size ==> Used(sb, img'.blocks, c))
  }

  /** A present block, or a full disk, leaves everything as it is. */
  lemma MappedAlready(sb: Super, img: Image, i: int, bn: int)
    requires Inv(sb, img) && 0 <= i < |img.inodes| && 0 <= bn < MAXFILE
    requires DataRef(sb, img, i, bn) != 0 || forall c :: 0 <= c < sb.size ==> Used(sb, img.blocks, c)
    ensures Mapped(sb, img, img, i, bn, DataRef(sb, img, i, bn))
  {
  }

  lemma GrewMaps(sb: Super, img: Image, img': Image, i: int, bn: int, b: int)
    requires Inv(sb, img) && 0 <= i < |img.inodes| && 0 <= bn < MAXFILE && DataRef(sb, img, i, bn) == 0
    requires Grew(sb, img, img', i, Slot(bn), b)
    ensures Mapped(sb, img, img', i, bn, b)
  {
    hide Ref, Used, FileBlock, RefOk;
    GrewFiles(sb, img, img', i, Slot(bn), b);
  }

  /** bmap beyond the direct blocks when the indirect block has to be allocated first. */
  lemma MapsThroughIndirect(sb: Super, img: Image, mid: Image, img': Image, i: int, bn: int, ind: int, r: int)
    requires Inv(sb, img) && 0 <= i < |img.inodes| && NDIRECT <= bn < MAXFILE && Ref(sb, img, i, NDIRECT) == 0
    requires Grew(sb, img, mid, i, NDIRECT, ind) && Mapped(sb, mid, img', i, bn, r)
    ensures Mapped(sb, img, img', i, bn, r)
  {
    assert DataRef(sb, img, i, bn) == 0;
    hide Ref, Used, FileBlock, RefOk;
    GrewFiles(sb, img, mid, i, NDIRECT, ind);
    forall j, m | 0 <= j < |img.inodes| && 0 <= m < MAXFILE
      ensures FileBlock(sb, img', j, m) == FileBlock(sb, img, j, m)
    {
      assert FileBlock(sb, img', j, m) == FileBlock(sb, mid, j, m) == FileBlock(sb, img, j, m);
    }
  }

  /** Overwriting the bn-th block of file i. */
  function Overwritten(sb: Super, img: Image, i: int, bn: int, data: Block): Image
    requires Sane(sb, img) && 0 <= i < |img.inodes| && 0 <= bn < MAXFILE
    requires DataRef(sb, img, i, bn) < sb.size
  {
    img.(blocks := img.blocks[DataRef(sb, img, i, bn) := data])
  }

  /** Because blocks have one owner, a data write changes one block of one file and nothing else. */
  lemma OverwrittenFiles(sb: Super, img: Image, i: int, bn: int, data: Block)
    requires Inv(sb, img) && 0 <= i < |img.inodes| && 0 <= bn < MAXFILE
    requires 0 != DataRef(sb, img, i, bn) < sb.size
    ensures var img' := Overwritten(sb, img, i, bn, data);
      && Inv(sb, img') && Repointed(sb, img, img', -1, -1, 0) && SameBitmap(sb, img, img')
      && forall j, m :: 0 <= j < |img.inodes| && 0 <= m < MAXFILE ==>
           FileBlock(sb, img', j, m) == if j == i && m == bn then data else FileBlock(sb, img, j, m)
  {
    hide Used, Word, ZeroBlock;
    var img' := Overwritten(sb, img, i, bn, data);
    var d := DataRef(sb, img, i, bn);
    assert RefOk(sb, img, i, Slot(bn));
    forall j, l | 0 <= j < |img.inodes| && 0 <= l < NREFS
      ensures Ref(sb, img', j, l) == Ref(sb, img, j, l)
    {
      assert Ref(sb, img, j, NDIRECT) == img.inodes[j].addrs[NDIRECT];
    }
    assert Repointed(sb, img, img', -1, -1, 0);
    SameBitmapUsed(sb, img, img');
    RepointKeepsInv(sb, img, img', -1, -1, 0);
    forall j, m | 0 <= j < |img.inodes| && 0 <= m < MAXFILE
      ensures FileBlock(sb, img', j, m) == if j == i && m == bn then data else FileBlock(sb, img, j, m)
    {
      assert RefOk(sb, img, j, Slot(m)) && RefOk(sb, img', j, Slot(m));
      assert Ref(sb, img, j, Slot(m)) == d ==> j == i && m == bn;
    }
  }

  // ----- a file is a byte sequence -----

  ghost function ByteAt(sb: Super, img: Image, i: int, x: int): byte
    requires Inv(sb, img) && 0 <= i < |img.inodes| && 0 <= x < MAXFILE * BSIZE
  {
    FileBlock(sb, img, i, x / BSIZE)[x % BSIZE]
  }

  ghost function FileData(sb: Super, img: Image, i: int): (s: seq<byte>)
    requires Inv(sb, img) && 0 <= i < |img.inodes|
    ensures |s| == img.inodes[i].size
  {
    seq(img.inodes[i].size, x requires 0 <= x < img.inodes[i].size => ByteAt(sb, img, i, x))
  }

  /** Every block below the size is present. */
  ghost predicate NoHoles(sb: Super, img: Image, i: int)
    requires Sane(sb, img) && 0 <= i < |img.inodes|
  {
    forall m :: 0 <= m < MAXFILE && m * BSIZE < img.inodes[i].size ==> DataRef(sb, img, i, m) != 0
  }

  /** The bytes of `data` with `s` written over them from `off` on. */
  function Overlay(data: seq<byte>, off: nat, s: seq<byte>): (r: seq<byte>)
    requires off <= |data|
    ensures |r| == if off + |s| > |data| then off + |s| else |data|
    ensures forall x :: 0 <= x < |r| ==> r[x] == if off <= x < off + |s| then s[x - off] else data[x]
  {
    if off + |s| > |data| then data[..off] + s else data[..off] + s + data[off + |s|..]
  }

  /** The blocks that mapping and writing blocks lo .. hi of file i may log. */
  ghost predicate MayLog(sb: Super, img: Image, i: int, lo: int, hi: int, c: int)
    requires Sane(sb, img) && 0 <= i < |img.inodes|
  {
    || sb.bmapstart <= c <= sb.bmapstart + (sb.size - 1) / BPB
    || c == Ref(sb, img, i, NDIRECT) != 0
    || exists m :: 0 <= lo <= m <= hi < MAXFILE && c == DataRef(sb, img, i, m) != 0
  }

  /** A block with `chunk` copied into it at offset o. */
  function Spliced(b: Block, o: nat, chunk: seq<byte>): (r: Block)
    requires o + |chunk| <= BSIZE
    ensures forall x :: 0 <= x < BSIZE ==> r[x] == if o <= x < o + |chunk| then chunk[x - o] else b[x]
  {
    b[..o] + chunk + b[o + |chunk|..]
  }

  /** img' is img with `chunk` written into file i at offset `off`, and nothing else changed. */
  ghost predicate Patched(sb: Super, img: Image, img': Image, i: int, off: int, chunk: seq<byte>)
    requires Inv(sb, img) && 0 <= i < |img.inodes|
  {
    && Inv(sb, img') && |img'.inodes| == |img.inodes|
    && (forall j :: 0 <= j < |img.inodes| ==> img'.inodes[j].size == img.inodes[j].size)
    && (forall x :: 0 <= x < MAXFILE * BSIZE ==>
          ByteAt(sb, img', i, x) == if off <= x < off + |chunk| then chunk[x - off] else ByteAt(sb, img, i, x))
    && (forall j, m :: 0 <= j < |img.inodes| && 0 <= m < MAXFILE && j != i ==>
          FileBlock(sb, img', j, m) == FileBlock(sb, img, j, m) && DataRef(sb, img', j, m) == DataRef(sb, img, j, m))
    && (forall m :: 0 <= m < MAXFILE && DataRef(sb, img, i, m) != 0 ==> DataRef(sb, img', i, m) == DataRef(sb, img, i, m))
    && (forall m :: 0 <= m < MAXFILE && off <= m * BSIZE + BSIZE - 1 && m * BSIZE < off + |chunk| ==> DataRef(sb, img', i, m) != 0)
    && (Ref(sb, img, i, NDIRECT) != 0 ==> Ref(sb, img', i, NDIRECT) == Ref(sb, img, i, NDIRECT))
  }

  lemma SplicedBytes(sb: Super, img: Image, img': Image, i: int, off: nat, chunk: seq<byte>)
    requires Inv(sb, img) && Inv(sb, img') && 0 <= i < |img.inodes| == |img'.inodes|
    requires off % BSIZE + |chunk| <= BSIZE && off < MAXFILE * BSIZE
    requires forall m :: 0 <= m < MAXFILE ==>
      FileBlock(sb, img', i, m) ==
      if m == off / BSIZE then Spliced(FileBlock(sb, img, i, m), off % BSIZE, chunk) else FileBlock(sb, img, i, m)
    ensures forall x :: 0 <= x < MAXFILE * BSIZE ==>
      ByteAt(sb, img', i, x) == if off <= x < off + |chunk| then chunk[x - off] else ByteAt(sb, img, i, x)
  {
    hide FileBlock, Inv, Spliced;
    forall x | 0 <= x < MAXFILE * BSIZE
      ensures ByteAt(sb, img', i, x) == if off <= x < off + |chunk| then chunk[x - off] else ByteAt(sb, img, i, x)
    {
      SamePlace(x, off, |chunk|);
    }
  }

  lemma SamePlace(x: nat, off: nat, n: nat)
    requires off % BSIZE + n <= BSIZE
    ensures off <= x < off + n <==> x / BSIZE == off / BSIZE && off % BSIZE <= x % BSIZE < off % BSIZE + n
    ensures off <= x < off + n ==> x % BSIZE - off % BSIZE == x - off
  {
    assert x == BSIZE * (x / BSIZE) + x % BSIZE && off == BSIZE * (off / BSIZE) + off % BSIZE;
  }

  /** bmap, then copying the chunk into the block it returned. */
  lemma MapAndOverwrite(sb: Super, img: Image, mid: Image, i: int, off: nat, r: int, chunk: seq<byte>)
    requires Inv(sb, img) && 0 <= i < |img.inodes| && off < MAXFILE * BSIZE
    requires off % BSIZE + |chunk| <= BSIZE
    requires Mapped(sb, img, mid, i, off / BSIZE, r) && r != 0
    ensures r < sb.size && DataRef(sb, mid, i, off / BSIZE) == r
    ensures Patched(sb, img, Overwritten(sb, mid, i, off / BSIZE, Spliced(mid.blocks[r], off % BSIZE, chunk)), i, off, chunk)
  {
    hide Ref, Used, ByteAt, Spliced;
    var bn := off / BSIZE;
    assert DataRef(sb, mid, i, bn) == r && RefOk(sb, mid, i, Slot(bn));
    var data := Spliced(mid.blocks[r], off % BSIZE, chunk);
    var img' := Overwritten(sb, mid, i, bn, data);
    OverwrittenFiles(sb, mid, i, bn, data);
    assert forall m :: 0 <= m < MAXFILE ==> FileBlock(sb, mid, i, m) == FileBlock(sb, img, i, m);
    SplicedBytes(sb, img, img', i, off, chunk);
    forall m | 0 <= m < MAXFILE && off <= m * BSIZE + BSIZE - 1 && m * BSIZE < off + |chunk|
      ensures DataRef(sb, img', i, m) != 0
    {
      assert m == bn;
    }
  }

  /** Writing two adjacent chunks is writing their concatenation. */
  lemma PatchedTwice(sb: Super, img: Image, mid: Image, img': Image, i: int, off: nat, s: seq<byte>, chunk: seq<byte>)
    requires Inv(sb, img) && 0 <= i < |img.inodes|
    requires Patched(sb, img, mid, i, off, s) && Patched(sb, mid, img', i, off + |s|, chunk)
    ensures Patched(sb, img, img', i, off, s + chunk)
  {
    hide Ref, FileBlock, ByteAt, RefOk, Used;
    forall m | 0 <= m < MAXFILE && off <= m * BSIZE + BSIZE - 1 && m * BSIZE < off + |s + chunk|
      ensures DataRef(sb, img', i, m) != 0
    {
      if m * BSIZE < off + |s| {
        assert DataRef(sb, mid, i, m) != 0;
      }
    }
  }

  lemma PatchedNothing(sb: Super, img: Image, img': Image, i: int, bn: int, r: int, off: nat)
    requires Inv(sb, img) && 0 <= i < |img.inodes| && 0 <= bn < MAXFILE
    requires Mapped(sb, img, img', i, bn, r) && (DataRef(sb, img, i, bn) != 0 ==> r != 0)
    requires off % BSIZE == 0 || (off / BSIZE < MAXFILE && DataRef(sb, img, i, off / BSIZE) != 0)
    ensures Patched(sb, img, img', i, off, [])
  {
    hide Ref, FileBlock, RefOk, Used;
    forall m | 0 <= m < MAXFILE && off <= m * BSIZE + BSIZE - 1 && m * BSIZE < off
      ensures DataRef(sb, img', i, m) != 0
    {
      assert m == off / BSIZE;
    }
  }

  ghost function WithSize(img: Image, i: int, size: nat): Image
    requires 0 <= i < |img.inodes|
  {
    img.(inodes := img.inodes[i := img.inodes[i].(size := size)])
  }

  ghost function SizeAfter(img: Image, i: int, end: nat): nat
    requires 0 <= i < |img.inodes|
  {
    if end > img.inodes[i].size then end else img.inodes[i].size
  }

  /**
    writei's last step, raising the size to the end of s, makes the file the old
    one overlaid with what was written, cut off at that size.
   */
  lemma PatchedThenSized(sb: Super, img: Image, img': Image, i: int, off: nat, s: seq<byte>, torn: seq<byte>)
    requires Inv(sb, img) && 0 <= i < |img.inodes| && Patched(sb, img, img', i, off, s + torn)
    requires off <= img.inodes[i].size && off + |s| <= MAXFILE * BSIZE
    ensures
      var size := SizeAfter(img, i, off + |s|);
      var img'' := WithSize(img', i, size);
      && Inv(sb, img'')
      && FileData(sb, img'', i) == Overlay(FileData(sb, img, i), off, s + torn)[..size]
      && (NoHoles(sb, img, i) ==> NoHoles(sb, img'', i))
  {
    var size := SizeAfter(img, i, off + |s|);
    var img'' := WithSize(img', i, size);
    SizedInv(sb, img', i, size);
    hide Ref, FileBlock, RefOk, Used;
    forall x | 0 <= x < size
      ensures FileData(sb, img'', i)[x] == Overlay(FileData(sb, img, i), off, s + torn)[x]
    {
      assert ByteAt(sb, img'', i, x) == ByteAt(sb, img', i, x);
    }
    assert FileData(sb, img'', i) == Overlay(FileData(sb, img, i), off, s + torn)[..size];
  }

  /** Every other file is as it was. */
  lemma PatchedOthers(sb: Super, img: Image, img': Image, i: int, off: nat, s: seq<byte>, j: int, size: nat)
    requires Inv(sb, img) && 0 <= i < |img.inodes| && Patched(sb, img, img', i, off, s) && size <= MAXFILE * BSIZE
    requires 0 <= j < |img.inodes| && j != i
    ensures
      var img'' := WithSize(img', i, size);
      Inv(sb, img'') && FileData(sb, img'', j) == FileData(sb, img, j) && (NoHoles(sb, img, j) ==> NoHoles(sb, img'', j))
  {
    var img'' := WithSize(img', i, size);
    SizedInv(sb, img', i, size);
    hide Ref, FileBlock, RefOk, Used;
    assert forall x :: 0 <= x < img.inodes[j].size ==> ByteAt(sb, img'', j, x) == ByteAt(sb, img, j, x);
    assert FileData(sb, img'', j) == FileData(sb, img, j);
  }

  lemma SizedInv(sb: Super, img: Image, i: int, size: nat)
    requires Inv(sb, img) && 0 <= i < |img.inodes| && size <= MAXFILE * BSIZE
    ensures Inv(sb, WithSize(img, i, size))
    ensures forall j, m :: 0 <= j < |img.inodes| && 0 <= m < MAXFILE ==>
      && FileBlock(sb, WithSize(img, i, size), j, m) == FileBlock(sb, img, j, m)
      && DataRef(sb, WithSize(img, i, size), j, m) == DataRef(sb, img, j, m)
    ensures Ref(sb, WithSize(img, i, size), i, NDIRECT) == Ref(sb, img, i, NDIRECT)
  {
    hide Used;
    var img' := WithSize(img, i, size);
    assert forall j, l :: 0 <= j < |img.inodes| && 0 <= l < NREFS ==> Ref(sb, img', j, l) == Ref(sb, img, j, l);
    RepointKeepsInv(sb, img, img', -1, -1, 0);
  }

  /** File i became the old one overlaid with s at off; every other file is as it was. */
  ghost predicate FileWritten(sb: Super, img: Image, img': Image, i: int, off: nat, s: seq<byte>)
    requires Inv(sb, img) && 0 <= i < |img.inodes| && off <= img.inodes[i].size
  {
    && Inv(sb, img') && |img'.inodes| == |img.inodes|
    && FileData(sb, img', i) == Overlay(FileData(sb, img, i), off, s)
    && (NoHoles(sb, img, i) ==> NoHoles(sb, img', i))
    && forall j :: 0 <= j < |img.inodes| && j != i ==>
         FileData(sb, img', j) == FileData(sb, img, j) && (NoHoles(sb, img, j) ==> NoHoles(sb, img', j))
  }

  /**
    The same, except that `torn`, the bytes of a copy that failed, are in the
    buffers behind s as well: where the file is that long, they show.
   */
  ghost predicate TornWritten(sb: Super, img: Image, img': Image, i: int, off: nat, s: seq<byte>, torn: seq<byte>)
    requires Inv(sb, img) && 0 <= i < |img.inodes| && off <= img.inodes[i].size
  {
    && Inv(sb, img') && |img'.inodes| == |img.inodes|
    && FileData(sb, img', i) == Overlay(FileData(sb, img, i), off, s + torn)[..SizeAfter(img, i, off + |s|)]
    && (NoHoles(sb, img, i) ==> NoHoles(sb, img', i))
    && forall j :: 0 <= j < |img.inodes| && j != i ==>
         FileData(sb, img', j) == FileData(sb, img, j) && (NoHoles(sb, img, j) ==> NoHoles(sb, img', j))
  }

  lemma TornNothing(sb: Super, img: Image, img': Image, i: int, off: nat, s: seq<byte>)
    requires Inv(sb, img) && 0 <= i < |img.inodes| && off <= img.inodes[i].size
    ensures TornWritten(sb, img, img', i, off, s, []) <==> FileWritten(sb, img, img', i, off, s)
  {
    hide Inv, NoHoles, FileData;
    assert s + [] == s;
    var all := Overlay(FileData(sb, img, i), off, s);
    assert all[..SizeAfter(img, i, off + |s|)] == all;
  }

  /** The data has these bytes from `at` on, as far as it goes. */
  ghost predicate Shows(data: seq<byte>, at: nat, bytes: seq<byte>) {
    forall x :: 0 <= x < |bytes| && at + x < |data| ==> bytes[x] == data[at + x]
  }

  /** A torn write is a plain one exactly when the torn bytes that show are those the file had. */
  lemma TornShows(sb: Super, img: Image, img': Image, i: int, off: nat, s: seq<byte>, torn: seq<byte>)
    requires Inv(sb, img) && 0 <= i < |img.inodes| && off <= img.inodes[i].size
    requires TornWritten(sb, img, img', i, off, s, torn)
    ensures FileWritten(sb, img, img', i, off, s) <==> Shows(FileData(sb, img, i), off + |s|, torn)
  {
    hide Inv, NoHoles, FileData;
    var d, e := FileData(sb, img, i), FileData(sb, img', i);
    var plain := Overlay(d, off, s);
    assert |e| == |plain|;
    assert forall x :: 0 <= x < |torn| && off + |s| + x < |d| ==> torn[x] == e[off + |s| + x] && plain[off + |s| + x] == d[off + |s| + x];
    if Shows(d, off + |s|, torn) {
      forall y | 0 <= y < |e|
        ensures e[y] == plain[y]
      {
        if off + |s| <= y < off + |s| + |torn| { assert torn[y - off - |s|] == d[y]; }
      }
      assert e == plain;
    }
  }

  /** Every block is taken. */
  ghost predicate Full(sb: Super, img: Image)
    requires Sane(sb, img)
  {
    forall c :: 0 <= c < sb.size ==> Used(sb, img.blocks, c)
  }

  lemma PatchedIsWritten(sb: Super, img: Image, img': Image, i: int, off: nat, s: seq<byte>, torn: seq<byte>)
    requires Inv(sb, img) && 0 <= i < |img.inodes| && Patched(sb, img, img', i, off, s + torn)
    requires off <= img.inodes[i].size && off + |s| <= MAXFILE * BSIZE
    ensures TornWritten(sb, img, WithSize(img', i, SizeAfter(img, i, off + |s|)), i, off, s, torn)
  {
    var size := SizeAfter(img, i, off + |s|);
    var img'' := WithSize(img', i, size);
    PatchedThenSized(sb, img, img', i, off, s, torn);
    hide Ref, RefOk, FileBlock, Used, ByteAt, Patched, Overlay, NoHoles, FileData;
    forall j | 0 <= j < |img.inodes| && j != i
      ensures FileData(sb, img'', j) == FileData(sb, img, j) && (NoHoles(sb, img, j) ==> NoHoles(sb, img'', j))
    {
      PatchedOthers(sb, img, img', i, off, s + torn, j, size);
    }
  }

  /** A write ending at `off` has the block around `off` in place, unless `off` starts a block. */
  ghost predicate Grounded(sb: Super, img: Image, i: int, off: nat)
    requires Sane(sb, img) && 0 <= i < |img.inodes|
  {
    off % BSIZE == 0 || off / BSIZE >= MAXFILE || DataRef(sb, img, i, off / BSIZE) != 0
  }

  lemma PatchedGrounds(sb: Super, img: Image, img': Image, i: int, off: nat, s: seq<byte>)
    requires Inv(sb, img) && 0 <= i < |img.inodes| && Patched(sb, img, img', i, off, s)
    requires Grounded(sb, img, i, off)
    ensures Grounded(sb, img', i, off + |s|)
  {
    hide Ref, RefOk, FileBlock, Used;
    var m := (off + |s|) / BSIZE;
    assert (off + |s|) % BSIZE != 0 ==> m * BSIZE < off + |s|;
  }

  lemma NoHolesGrounds(sb: Super, img: Image, i: int, off: nat)
    requires Sane(sb, img) && 0 <= i < |img.inodes| && NoHoles(sb, img, i) && off <= img.inodes[i].size
    ensures Grounded(sb, img, i, off)
  {
    assert off % BSIZE != 0 ==> off / BSIZE * BSIZE < off;
  }

  ghost predicate LogsWithin(sb: Super, img: Image, i: int, lo: int, hi: int, before: set<int>, after: set<int>)
    requires Sane(sb, img) && 0 <= i < |img.inodes|
  {
    forall c :: c in after && c !in before ==> MayLog(sb, img, i, lo, hi, c)
  }

  lemma LogsStayWithin(sb: Super, img: Image, img': Image, i: int, off: nat, s: seq<byte>, lo: int, hi: int,
                       before: set<int>, mid: set<int>, after: set<int>)
    requires Inv(sb, img) && 0 <= i < |img.inodes| && Patched(sb, img, img', i, off, s)
    requires 0 <= lo <= off / BSIZE <= hi < MAXFILE
    requires LogsWithin(sb, img, i, lo, hi, before, mid)
    requires LogsWithin(sb, img', i, off / BSIZE, off / BSIZE, mid, after)
    ensures LogsWithin(sb, img', i, lo, hi, before, after)
  {
    hide Ref, RefOk, FileBlock, Used, ByteAt;
  }

  // ----- the format on disk -----

  /** The little-endian word at byte x of a block. */
  function Le32(b: Block, x: nat): nat
    requires x + 4 <= 1024
  {
    (b[x] as int) + (b[x + 1] as int) * 0x100 + (b[x + 2] as int) * 0x1_0000 + (b[x + 3] as int) * 0x100_0000
  }

  /**
    Inode i is one of the sixteen in its block. Byte x of its file is byte x % 1024 of
    block x / 1024, whose number is in addrs, or from the twelfth on in the block addrs[12].
   */
  lemma FileFormat(sb: Super, img: Image, i: nat, x: nat)
    requires Inv(sb, img) && i < |img.inodes| && x < 268 * 1024
    ensures IBlock(sb, i) == sb.inodestart + i / 16 && |img.inodes[i].addrs| == 13 && img.inodes[i].addrs[12] < |img.blocks|
    ensures
      var addrs, n := img.inodes[i].addrs, x / 1024;
      var b := if n < 12 then addrs[n] else if addrs[12] == 0 then 0 else Le32(img.blocks[addrs[12]], 4 * (n - 12));
      b < |img.blocks| && ByteAt(sb, img, i, x) == if b == 0 then 0 else img.blocks[b][x % 1024]
  {
    hide Used;
    assert RefOk(sb, img, i, Slot(x / 1024));
  }

  /** Block b is taken exactly when bit b % 8 of byte b / 8 of the bitmap is set, the bitmap having 1024 bytes a block. */
  lemma BitmapFormat(sb: Super, blocks: seq<Block>, b: nat)
    requires sb.Valid() && |blocks| == sb.size && b < sb.size
    ensures sb.bmapstart + b / 8192 < |blocks|
    ensures
      var byte: int, k := blocks[sb.bmapstart + b / 8192][b % 8192 / 8], b % 8;
      var weight := [1, 2, 4, 8, 16, 32, 64, 128][k];
      Used(sb, blocks, b) <==> byte / weight % 2 == 1
  {
    BitOfByte(b);
    Masks(b % 8);
    BitWeight(blocks[BBlock(sb, b)][ByteIndex(b)], b % 8);
    hide Bit, Mask;
  }

  lemma BitOfByte(b: nat)
    ensures b % 8192 % 8 == b % 8
  {
  }

  lemma {:induction false} BitWeight(x: nat, k: nat)
    requires k < 8
    ensures Bit(x, k) <==> x / Mask(k) % 2 == 1
  {
    if k > 0 {
      BitWeight(x / 2, k - 1);
      Masks(k);
      Masks(k - 1);
      HalvedTwice(x, Mask(k - 1));
    }
  }

  lemma HalvedTwice(x: nat, w: nat)
    requires w in {1, 2, 4, 8, 16, 32, 64}
    ensures x / 2 / w == x / (2 * w)
  {
    if w == 1 {
    } else if w == 2 {
      assert x / 2 / 2 == x / 4;
    } else if w == 4 {
      assert x / 2 / 4 == x / 8;
    } else if w == 8 {
      assert x / 2 / 8 == x / 16;
    } else if w == 16 {
      assert x / 2 / 16 == x / 32;
    } else if w == 32 {
      assert x / 2 / 32 == x / 64;
    } else {
      assert x / 2 / 64 == x / 128;
    }
  }

  lemma Masks(k: nat)
    requires k < 8
    ensures Mask(k) == [1, 2, 4, 8, 16, 32, 64, 128][k]
  {
    assert Mask(3) == 8 && Mask(5) == 32 && Mask(7) == 128;
  }

  // ----- what a transaction carries to the disk -----

  /** The disk block of inode j. */
  function IBlock(sb: Super, j: nat): int {
    j / IPB + sb.inodestart
  }

  /** Every block that differs is in logged, but for those in `but`. */
  ghost predicate Covers(a: seq<Block>, b: seq<Block>, logged: set<int>, but: set<int>) {
    |a| == |b| && forall c :: 0 <= c < |a| && b[c] != a[c] ==> c in logged || c in but
  }

  lemma CoversTwice(a: seq<Block>, b: seq<Block>, c: seq<Block>, logged: set<int>, after: set<int>, but: set<int>)
    requires Covers(a, b, logged, {}) && Covers(b, c, after, but) && logged <= after
    ensures Covers(a, c, after, but)
  {
  }

  /** What the disk holds when the logged blocks of img' are committed over img. */
  ghost function Committed(sb: Super, img: Image, img': Image, logged: set<int>): Image
    requires |img'.blocks| == |img.blocks| && |img'.inodes| == |img.inodes|
  {
    Image(seq(|img.blocks|, c requires 0 <= c < |img.blocks| => if c in logged then img'.blocks[c] else img.blocks[c]),
          seq(|img.inodes|, j requires 0 <= j < |img.inodes| => if IBlock(sb, j) in logged then img'.inodes[j] else img.inodes[j]))
  }

  /** Committing the logged blocks makes img' durable, but for the blocks in `but`. */
  ghost predicate Carries(sb: Super, img: Image, img': Image, logged: set<int>, but: set<int>) {
    && |img'.blocks| == |img.blocks| && |img'.inodes| == |img.inodes|
    && Committed(sb, img, img', logged).inodes == img'.inodes
    && forall c :: 0 <= c < |img.blocks| && c !in but ==> Committed(sb, img, img', logged).blocks[c] == img'.blocks[c]
  }

  /** With every block carried, the committed disk is the new image. */
  lemma CarriesAll(sb: Super, img: Image, img': Image, logged: set<int>)
    requires |img'.blocks| == |img.blocks| && |img'.inodes| == |img.inodes|
    ensures Carries(sb, img, img', logged, {}) <==> Committed(sb, img, img', logged) == img'
  {
    if Carries(sb, img, img', logged, {}) {
      assert Committed(sb, img, img', logged).blocks == img'.blocks;
    }
  }

  lemma CoversCarries(sb: Super, img: Image, img': Image, i: nat, logged: set<int>, but: set<int>)
    requires Covers(img.blocks, img'.blocks, logged, but) && i < |img.inodes| == |img'.inodes|
    requires img'.inodes == img.inodes[i := img'.inodes[i]] && IBlock(sb, i) in logged
    ensures Carries(sb, img, img', logged, but)
  {
    hide IBlock;
  }

  /** Each transaction carries the step from one image to the next, the last one but for the blocks in `but`. */
  ghost predicate AllCarried(sb: Super, images: seq<Image>, transactions: seq<set<int>>, but: set<int>) {
    && |images| == |transactions| + 1
    && forall k :: 0 <= k < |transactions| ==>
         Carries(sb, images[k], images[k + 1], transactions[k], if k == |transactions| - 1 then but else {})
  }

  lemma AllCarriedNext(sb: Super, images: seq<Image>, transactions: seq<set<int>>, img: Image, logged: set<int>, but: set<int>)
    requires AllCarried(sb, images, transactions, {}) && Carries(sb, images[|images| - 1], img, logged, but)
    ensures AllCarried(sb, images + [img], transactions + [logged], but)
  {
    hide Carries;
  }

  /** The disk after the first k of the transactions have been committed over images[0]. */
  ghost function OnDisk(sb: Super, images: seq<Image>, transactions: seq<set<int>>, k: nat): Image
    requires k <= |transactions| < |images|
  {
    if k == 0 then images[0]
    else
      var disk := OnDisk(sb, images, transactions, k - 1);
      if |disk.blocks| == |images[k].blocks| && |disk.inodes| == |images[k].inodes|
      then Committed(sb, disk, images[k], transactions[k - 1]) else disk
  }

  /** Committed one after the other, the transactions bring every image to the disk. */
  lemma {:induction false} CarriedToDisk(sb: Super, images: seq<Image>, transactions: seq<set<int>>, k: nat)
    requires AllCarried(sb, images, transactions, {}) && k <= |transactions|
    ensures OnDisk(sb, images, transactions, k) == images[k]
  {
    if k > 0 {
      CarriedToDisk(sb, images, transactions, k - 1);
      assert Carries(sb, images[k - 1], images[k], transactions[k - 1], {});
      CarriesAll(sb, images[k - 1], images[k], transactions[k - 1]);
    }
  }

  /** Every block of the file that holds one of the n bytes from off on is logged. */
  ghost predicate DataLogged(sb: Super, img: Image, i: int, off: nat, n: nat, logged: set<int>)
    requires Sane(sb, img) && 0 <= i < |img.inodes|
  {
    forall m :: 0 <= m < MAXFILE && n > 0 && off / BSIZE <= m <= (off + n - 1) / BSIZE ==> DataRef(sb, img, i, m) in logged
  }

  /** The block in which a failed copy ended. */
  ghost function TornBlock(sb: Super, img: Image, i: int, end: nat, torn: nat): set<int>
    requires Sane(sb, img) && 0 <= i < |img.inodes|
  {
    if torn > 0 && end / BSIZE < MAXFILE then {DataRef(sb, img, i, end / BSIZE)} else {}
  }

  /** A block behind those that may have been logged was not. */
  lemma NotLogged(sb: Super, img: Image, i: int, lo: int, hi: int, m: int, before: set<int>, after: set<int>)
    requires Inv(sb, img) && 0 <= i < |img.inodes| && LogsWithin(sb, img, i, lo, hi, before, after)
    requires hi < m && 0 <= m < MAXFILE && DataRef(sb, img, i, m) != 0 && DataRef(sb, img, i, m) !in before
    ensures DataRef(sb, img, i, m) !in after
  {
    hide Ref, Used;
    assert RefOk(sb, img, i, Slot(m));
    assert sb.bmapstart + (sb.size - 1) / BPB < sb.first;
  }

  /** The bitmap blocks of what itrunc has freed after visiting p slots. */
  ghost function TrimLogs(sb: Super, img: Image, i: int, p: int): set<int>
    requires Inv(sb, img) && 0 <= i < |img.inodes|
  {
    set l | 0 <= l < NREFS && VisitOrder(l) < p && RefOk(sb, img, i, l) && Ref(sb, img, i, l) != 0 :: BBlock(sb, Ref(sb, img, i, l))
  }

  lemma TrimLogsNext(sb: Super, img: Image, i: int, p: int)
    requires Inv(sb, img) && 0 <= i < |img.inodes| && 0 <= p < NREFS
    ensures
      var b := Ref(sb, img, i, VisitedAt(p));
      && (b != 0 ==> 0 < b < sb.size)
      && TrimLogs(sb, img, i, p + 1) == TrimLogs(sb, img, i, p) + if b == 0 then {} else {BBlock(sb, b)}
  {
    hide Ref, Used, BBlock;
    var q := VisitedAt(p);
    assert RefOk(sb, img, i, q) && VisitOrder(q) == p;
    assert forall l :: 0 <= l < NREFS && VisitOrder(l) == p ==> l == q;
  }

  lemma TrimLogsNothing(sb: Super, img: Image, i: int)
    requires Inv(sb, img) && 0 <= i < |img.inodes|
    ensures TrimLogs(sb, img, i, 0) == {} && TrimLogs(sb, img, i, NDIRECT) <= TrimLogs(sb, img, i, NREFS)
    ensures img.inodes[i].addrs[NDIRECT] == 0 ==> TrimLogs(sb, img, i, NREFS) == TrimLogs(sb, img, i, NDIRECT)
  {
    hide Used, BBlock;
    assert forall l :: NDIRECT <= l < NREFS && img.inodes[i].addrs[NDIRECT] == 0 ==> Ref(sb, img, i, l) == 0;
  }

  lemma UnmarkedCovers(sb: Super, a: seq<Block>, blocks: seq<Block>, b: int, logged: set<int>)
    requires sb.Valid() && |blocks| == sb.size && 0 <= b < sb.size && Used(sb, blocks, b) && Covers(a, blocks, logged, {})
    ensures Covers(a, Unmarked(sb, blocks, b), logged + {BBlock(sb, b)}, {})
  {
    hide BBlock, Used;
  }

  // ----- truncation -----

  /** b is referenced by inode i in one of the first p slots that itrunc visits. */
  ghost predicate Trimmable(sb: Super, img: Image, i: int, p: int, b: int)
    requires Sane(sb, img) && 0 <= i < |img.inodes|
  {
    b != 0 && exists l :: 0 <= l < NREFS && VisitOrder(l) < p && Ref(sb, img, i, l) == b
  }

  /** itrunc frees the direct blocks, then the entries of the indirect block, then that block. */
  function VisitOrder(l: int): int {
    if l < NDIRECT then l else if l == NDIRECT then NREFS - 1 else l - 1
  }

  function VisitedAt(p: int): int {
    if p < NDIRECT then p else if p == NREFS - 1 then NDIRECT else p + 1
  }

  /** The blocks after itrunc has visited p slots: only bits of those blocks are cleared. */
  ghost predicate Trimmed(sb: Super, img: Image, blocks: seq<Block>, i: int, p: int)
    requires Sane(sb, img) && 0 <= i < |img.inodes|
  {
    && |blocks| == sb.size
    && (forall c :: 0 <= c < sb.size && !(sb.bmapstart <= c < sb.first) ==> blocks[c] == img.blocks[c])
    && (forall b :: 0 <= b < sb.size ==>
          (Used(sb, blocks, b) <==> Used(sb, img.blocks, b) && !Trimmable(sb, img, i, p, b)))
  }

  /** Each block is still marked when its turn comes, so "freeing free block" cannot happen. */
  lemma TrimOne(sb: Super, img: Image, blocks: seq<Block>, i: int, p: int)
    requires Inv(sb, img) && 0 <= i < |img.inodes| && 0 <= p < NREFS && Trimmed(sb, img, blocks, i, p)
    ensures var b := Ref(sb, img, i, VisitedAt(p));
      if b == 0 then Trimmed(sb, img, blocks, i, p + 1)
      else b < sb.size && Used(sb, blocks, b) && Trimmed(sb, img, Unmarked(sb, blocks, b), i, p + 1)
  {
    hide Bit, BBlock, Ref;
    var l := VisitedAt(p);
    var b := Ref(sb, img, i, l);
    assert RefOk(sb, img, i, l);
    forall c | 0 <= c < sb.size
      ensures Trimmable(sb, img, i, p + 1, c) <==> Trimmable(sb, img, i, p, c) || (c == b != 0)
    {
      TrimNext(sb, img, i, p, c);
    }
    if b != 0 {
      TrimFresh(sb, img, i, p);
      UnmarkedAll(sb, blocks, b);
    }
  }

  lemma UnmarkedAll(sb: Super, blocks: seq<Block>, b: int)
    requires sb.Valid() && |blocks| == sb.size && 0 <= b < sb.size && Used(sb, blocks, b)
    ensures forall c :: 0 <= c < sb.size ==> (Used(sb, Unmarked(sb, blocks, b), c) <==> c != b && Used(sb, blocks, c))
    ensures forall c :: 0 <= c < sb.size && !(sb.bmapstart <= c < sb.first) ==> Unmarked(sb, blocks, b)[c] == blocks[c]
  {
    hide BBlock, Used;
    forall c | 0 <= c < sb.size
      ensures Used(sb, Unmarked(sb, blocks, b), c) <==> c != b && Used(sb, blocks, c)
    {
      UnmarkedUsed(sb, blocks, b, c);
    }
  }

  lemma TrimNext(sb: Super, img: Image, i: int, p: int, c: int)
    requires Sane(sb, img) && 0 <= i < |img.inodes| && 0 <= p < NREFS
    ensures Trimmable(sb, img, i, p + 1, c) <==>
      Trimmable(sb, img, i, p, c) || (c != 0 && c == Ref(sb, img, i, VisitedAt(p)))
  {
    hide Ref;
    assert VisitOrder(VisitedAt(p)) == p;
    assert forall l :: 0 <= l < NREFS && VisitOrder(l) == p ==> l == VisitedAt(p);
  }

  lemma TrimFresh(sb: Super, img: Image, i: int, p: int)
    requires Inv(sb, img) && 0 <= i < |img.inodes| && 0 <= p < NREFS
    ensures !Trimmable(sb, img, i, p, Ref(sb, img, i, VisitedAt(p)))
  {
    hide Used, Ref;
    assert VisitOrder(VisitedAt(p)) == p;
  }

  /** itrunc's effect on the whole image. */
  ghost predicate Truncated(sb: Super, img: Image, img': Image, i: int)
    requires Sane(sb, img) && 0 <= i < |img.inodes|
  {
    && Trimmed(sb, img, img'.blocks, i, NREFS)
    && img'.inodes == img.inodes[i := Inode(seq(NDIRECT + 1, _ => 0), 0)]
  }

  /** Truncating one file keeps block ownership, and every byte of every other file. */
  lemma TruncatedInv(sb: Super, img: Image, img': Image, i: int)
    requires Inv(sb, img) && 0 <= i < |img.inodes| && Truncated(sb, img, img', i)
    ensures Inv(sb, img')
    ensures forall k :: 0 <= k < NREFS ==> Ref(sb, img', i, k) == 0
    ensures forall j, k :: 0 <= j < |img.inodes| && 0 <= k < NREFS && j != i ==> Ref(sb, img', j, k) == Ref(sb, img, j, k)
  {
    hide Used, Word;
    forall j, k | 0 <= j < |img.inodes| && 0 <= k < NREFS
      ensures Ref(sb, img', j, k) == if j == i then 0 else Ref(sb, img, j, k)
    {
      assert RefOk(sb, img, j, NDIRECT) && Ref(sb, img, j, NDIRECT) == img.inodes[j].addrs[NDIRECT];
    }
    forall j, k | 0 <= j < |img.inodes| && 0 <= k < NREFS
      ensures RefOk(sb, img', j, k)
    {
      assert RefOk(sb, img, j, k);
      if j != i && Ref(sb, img, j, k) != 0 { NotTrimmable(sb, img, i, j, k); }
    }
    forall b | 0 <= b < sb.first
      ensures !Trimmable(sb, img, i, NREFS, b)
    {
      forall l | 0 <= l < NREFS
        ensures b != 0 ==> Ref(sb, img, i, l) != b
      {
        assert RefOk(sb, img, i, l);
      }
    }
  }

  lemma NotTrimmable(sb: Super, img: Image, i: int, j: int, k: int)
    requires Inv(sb, img) && 0 <= i < |img.inodes| && 0 <= j < |img.inodes| && 0 <= k < NREFS && j != i
    ensures !Trimmable(sb, img, i, NREFS, Ref(sb, img, j, k))
  {
    hide Used, Ref;
  }

  lemma TruncatedOthers(sb: Super, img: Image, img': Image, i: int, j: int)
    requires Inv(sb, img) && 0 <= i < |img.inodes| && Truncated(sb, img, img', i)
    requires 0 <= j < |img.inodes| && j != i
    ensures Inv(sb, img') && FileData(sb, img', j) == FileData(sb, img, j)
    ensures FileData(sb, img', i) == []
    ensures NoHoles(sb, img, j) ==> NoHoles(sb, img', j)
  {
    TruncatedInv(sb, img, img', i);
    hide Used, Ref;
    forall m | 0 <= m < MAXFILE
      ensures FileBlock(sb, img', j, m) == FileBlock(sb, img, j, m)
      ensures DataRef(sb, img', j, m) == DataRef(sb, img, j, m)
    {
      assert RefOk(sb, img, j, Slot(m));
    }
    assert FileData(sb, img', j) == FileData(sb, img, j);
  }

  // ----- writes in several transactions -----

  lemma OverlayTwice(data: seq<byte>, off: nat, s: seq<byte>, t: seq<byte>)
    requires off <= |data|
    ensures Overlay(Overlay(data, off, s), off + |s|, t) == Overlay(data, off, s + t)
  {
  }

  /** What was written is what a read at the same offset finds. */
  lemma ReadBack(sb: Super, img: Image, img': Image, i: int, off: nat, s: seq<byte>)
    requires Inv(sb, img) && 0 <= i < |img.inodes| && off <= img.inodes[i].size
    requires FileWritten(sb, img, img', i, off, s)
    ensures |FileData(sb, img', i)| >= off + |s| && FileData(sb, img', i)[off..off + |s|] == s
  {
    hide Inv, NoHoles, FileData;
    var data := FileData(sb, img', i);
    assert forall x :: off <= x < off + |s| ==> data[x] == s[x - off];
  }

  lemma WrittenTwice(sb: Super, img: Image, mid: Image, img': Image, i: int, off: nat, s: seq<byte>, t: seq<byte>, torn: seq<byte>)
    requires Inv(sb, img) && 0 <= i < |img.inodes| && off <= img.inodes[i].size
    requires FileWritten(sb, img, mid, i, off, s)
    requires off + |s| <= mid.inodes[i].size && TornWritten(sb, mid, img', i, off + |s|, t, torn)
    ensures TornWritten(sb, img, img', i, off, s + t, torn)
  {
    hide Inv, NoHoles, FileData;
    OverlayTwice(FileData(sb, img, i), off, s, t + torn);
    assert s + t + torn == s + (t + torn);
  }

  /** How many bitmap blocks the disk has. */
  function BitmapBlocks(sb: Super): int {
    (sb.size - 1) / BPB + 1
  }

  lemma AddOne(s: set<int>, x: int)
    ensures |s + {x}| <= |s| + 1
  {
    if x in s { assert s + {x} == s; }
  }

  lemma {:induction false} RangeSize(lo: int, n: nat) returns (s: set<int>)
    ensures forall c :: c in s <==> lo <= c < lo + n
    ensures |s| == n
  {
    s := {};
    if n > 0 {
      var r := RangeSize(lo, n - 1);
      s := r + {lo + n - 1};
    }
  }

  lemma SubsetSize(s: set<int>, t: set<int>)
    requires s <= t
    ensures |s| <= |t|
  {
    assert t == s + (t - s);
  }

  /**
    A chunk of filewrite, at most three blocks long, touches at most four data
    blocks; with the indirect block, the inode block and the bitmap that is all
    it logs.
   */
  lemma ChunkLogs(sb: Super, img: Image, i: int, off: nat, n: nat, inode: int, logged: set<int>)
    requires Inv(sb, img) && 0 <= i < |img.inodes|
    requires 0 < n <= 3 * BSIZE && off + n <= MAXFILE * BSIZE
    requires LogsWithin(sb, img, i, off / BSIZE, (off + n - 1) / BSIZE, {inode}, logged)
    ensures |logged| <= 6 + BitmapBlocks(sb)
  {
    hide Ref, RefOk, Used, MayLog;
    var lo, hi := off / BSIZE, (off + n - 1) / BSIZE;
    var bitmaps := RangeSize(sb.bmapstart, BitmapBlocks(sb));
    var s1 := bitmaps + {inode};
    var s2 := s1 + {Ref(sb, img, i, NDIRECT)};
    var s3 := s2 + {RefUpTo(sb, img, i, hi, lo)};
    var s4 := s3 + {RefUpTo(sb, img, i, hi, lo + 1)};
    var s5 := s4 + {RefUpTo(sb, img, i, hi, lo + 2)};
    var s6 := s5 + {RefUpTo(sb, img, i, hi, lo + 3)};
    AddOne(bitmaps, inode); AddOne(s1, Ref(sb, img, i, NDIRECT));
    AddOne(s2, RefUpTo(sb, img, i, hi, lo)); AddOne(s3, RefUpTo(sb, img, i, hi, lo + 1));
    AddOne(s4, RefUpTo(sb, img, i, hi, lo + 2)); AddOne(s5, RefUpTo(sb, img, i, hi, lo + 3));
    forall c | c in logged
      ensures c in s6
    {
      if c != inode { LogsAmong(sb, img, i, lo, hi, c); }
    }
    SubsetSize(logged, s6);
  }

  ghost function RefUpTo(sb: Super, img: Image, i: int, hi: int, m: int): int
    requires Sane(sb, img) && 0 <= i < |img.inodes| && 0 <= m && hi < MAXFILE
  {
    if m <= hi then DataRef(sb, img, i, m) else 0
  }

  lemma LogsAmong(sb: Super, img: Image, i: int, lo: int, hi: int, c: int)
    requires Sane(sb, img) && 0 <= i < |img.inodes| && 0 <= lo <= hi <= lo + 3 && hi < MAXFILE
    requires MayLog(sb, img, i, lo, hi, c)
    ensures
      || sb.bmapstart <= c < sb.bmapstart + BitmapBlocks(sb) || c == Ref(sb, img, i, NDIRECT)
      || c == RefUpTo(sb, img, i, hi, lo) || c == RefUpTo(sb, img, i, hi, lo + 1)
      || c == RefUpTo(sb, img, i, hi, lo + 2) || c == RefUpTo(sb, img, i, hi, lo + 3)
  {
    hide Ref;
    if m :| 0 <= lo <= m <= hi < MAXFILE && c == DataRef(sb, img, i, m) != 0 {
      assert m == lo || m == lo + 1 || m == lo + 2 || m == lo + 3;
    }
  }

  lemma RefIsAddr(sb: Super, img: Image, i: int, k: int)
    requires Sane(sb, img) && 0 <= i < |img.inodes| && 0 <= k <= NDIRECT
    ensures Ref(sb, img, i, k) == img.inodes[i].addrs[k]
  {
  }

  lemma RefIsEntry(sb: Super, img: Image, i: int, e: int)
    requires Sane(sb, img) && 0 <= i < |img.inodes| && 0 <= e < NINDIRECT
    ensures Ref(sb, img, i, NDIRECT + 1 + e) ==
            if img.inodes[i].addrs[NDIRECT] == 0 then 0 else Word(img.blocks[img.inodes[i].addrs[NDIRECT]], e)
  {
  }

  /** An inode without an indirect block has nothing left to free after its direct blocks. */
  lemma TrimNoIndirect(sb: Super, img: Image, blocks: seq<Block>, i: int)
    requires Inv(sb, img) && 0 <= i < |img.inodes| && img.inodes[i].addrs[NDIRECT] == 0
    requires Trimmed(sb, img, blocks, i, NDIRECT)
    ensures Trimmed(sb, img, blocks, i, NREFS)
  {
    hide Used, Word;
    assert forall l :: NDIRECT <= l < NREFS ==> Ref(sb, img, i, l) == 0;
    assert forall b :: Trimmable(sb, img, i, NREFS, b) <==> Trimmable(sb, img, i, NDIRECT, b);
  }
}
