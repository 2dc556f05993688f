/**
  balloc, bfree, bmap, itrunc, readi and writei of fs.c, and the chunking loop of
  filewrite, changing the image in place. `logged` is the set of blocks passed to
  log_write since it was last cleared.
 */
module Fs {
  import opened FsSpec
  import LogSpec

  function Min(a: int, b: int): int {
    if a < b then a else b
  }

  /** off + n < off in 32 bits. */
  predicate Wraps(off: nat, n: nat) {
    (off + n) % UINT < off
  }

  lemma WrapsExactly(off: nat, n: nat)
    requires off < UINT && n < UINT
    ensures Wraps(off, n) <==> off + n >= UINT
  {
  }

  class FileSystem {
    const sb: Super
    var blocks: seq<Block>
    var inodes: seq<Inode>
    ghost var logged: set<int>

    ghost function Img(): Image
      reads this
    {
      Image(blocks, inodes)
    }

    ghost predicate Valid()
      reads this
    {
      Inv(sb, Img())
    }

    /** A mounted image. */
    constructor (sb: Super, blocks: seq<Block>, inodes: seq<Inode>)
      requires Inv(sb, Image(blocks, inodes))
      ensures Valid() && this.sb == sb && Img() == Image(blocks, inodes) && logged == {}
    {
      this.sb, this.blocks, this.inodes, logged := sb, blocks, inodes, {};
    }

    /** The bit that the scan at bi of bitmap block b / BPB looks at is that of block b + bi. */
    lemma ScanPosition(b: int, bi: int)
      requires sb.Valid() && 0 <= b && b % BPB == 0 && 0 <= bi < BPB && b + bi < sb.size
      ensures BBlock(sb, b + bi) == BBlock(sb, b) && ByteIndex(b + bi) == bi / 8 && BitIndex(b + bi) == bi % 8
    {
      assert (b + bi) / BPB == b / BPB && (b + bi) % BPB == bi;
    }

    /** Returns the first free block, marked and zeroed, or 0 if there is none. */
    method Balloc() returns (r: nat)
      requires Valid()
      modifies this`blocks, this`logged
      ensures r == 0 ==> blocks == old(blocks) && logged == old(logged)
      ensures r == 0 ==> forall c :: 0 <= c < sb.size ==> Used(sb, blocks, c)
      ensures r != 0 ==> r < sb.size && !Used(sb, old(blocks), r) && Img() == Allocated(sb, old(Img()), r)
      ensures r != 0 ==> forall c :: 0 <= c < r ==> Used(sb, old(blocks), c)
      ensures r != 0 ==> logged == old(logged) + {BBlock(sb, r), r}
    {
      assert sb.Valid() && |blocks| == sb.size;
      FirstUsed(Img());
      hide Inv, Used, BBlock, Allocated;
      var b := 0;
      while b < sb.size
        invariant 0 <= b && b % BPB == 0 && blocks == old(blocks) && logged == old(logged)
        invariant forall c :: 0 <= c < b && c < sb.size ==> Used(sb, blocks, c)
      {
        var bi := Scan(b);
        if bi < BPB && b + bi < sb.size {
          r := b + bi;
          TakeBlock(r);
          return;
        }
        NextBitmap(b);
        b := b + BPB;
      }
      return 0;
    }

    lemma NextBitmap(b: int)
      requires b % BPB == 0
      ensures (b + BPB) % BPB == 0
    {
    }

    /** Mark a free block and zero it. */
    method TakeBlock(r: nat)
      requires Sane(sb, Img()) && r < sb.size && !Used(sb, blocks, r)
      modifies this`blocks, this`logged
      ensures Img() == Allocated(sb, old(Img()), r) && logged == old(logged) + {BBlock(sb, r), r}
    {
      hide Used, BBlock, Marked;
      blocks := Marked(sb, blocks, r);
      logged := logged + {BBlock(sb, r)};
      Bzero(r);
    }

    /** balloc's inner loop: the first clear bit of the bitmap block for b, if any. */
    method Scan(b: nat) returns (bi: nat)
      requires sb.Valid() && |blocks| == sb.size && b < sb.size && b % BPB == 0
      ensures bi <= BPB && (bi < BPB && b + bi < sb.size ==> !Used(sb, blocks, b + bi))
      ensures bi < BPB ==> b + bi <= sb.size
      ensures forall c :: b <= c < b + bi && c < sb.size ==> Used(sb, blocks, c)
    {
      hide Bit, BBlock, ByteIndex, BitIndex;
      var bp := BBlock(sb, b);
      bi := 0;
      while bi < BPB && b + bi < sb.size
        invariant 0 <= bi <= BPB && b + bi <= sb.size
        invariant forall c :: b <= c < b + bi ==> Used(sb, blocks, c)
      {
        ScanPosition(b, bi);
        if !Bit(blocks[bp][bi / 8], bi % 8) { break; }
        bi := bi + 1;
      }
    }

    /** Block 0 is metadata, so balloc never hands it out. */
    lemma FirstUsed(img: Image)
      requires Inv(sb, img)
      ensures 0 < sb.size && Sane(sb, img) && Used(sb, img.blocks, 0)
    {
    }

    method Bzero(b: int)
      requires 0 <= b < |blocks|
      modifies this`blocks, this`logged
      ensures blocks == old(blocks)[b := ZeroBlock()] && logged == old(logged) + {b}
    {
      blocks := blocks[b := ZeroBlock()];
      logged := logged + {b};
    }

    /** ok is false for the "freeing free block" panic. */
    method Bfree(b: nat) returns (ok: bool)
      requires sb.Valid() && |blocks| == sb.size && b < sb.size
      modifies this`blocks, this`logged
      ensures ok == Used(sb, old(blocks), b)
      ensures ok ==> blocks == Unmarked(sb, old(blocks), b)
      ensures !ok ==> blocks == old(blocks) && logged == old(logged)
      ensures ok ==> logged == old(logged) + {BBlock(sb, b)} && Covers(old(blocks), blocks, logged, {})
    {
      hide Bit, BBlock;
      var bp := BBlock(sb, b);
      var bi := b % BPB;
      if !Bit(blocks[bp][bi / 8], bi % 8) { return false; }
      blocks := WithByte(blocks, bp, bi / 8, BitCleared(blocks[bp][bi / 8], bi % 8));
      logged := logged + {bp};
      return true;
    }

    method SetAddr(i: nat, k: nat, b: nat)
      requires i < |inodes| && k < |inodes[i].addrs|
      modifies this`inodes
      ensures Img() == WithAddr(old(Img()), i, k, b)
    {
      inodes := inodes[i := inodes[i].(addrs := inodes[i].addrs[k := b])];
    }

    /** balloc into slot k of the inode itself, if the slot is empty. */
    method MapAddr(i: nat, k: nat) returns (r: nat)
      requires Valid() && i < |inodes| && k <= NDIRECT
      modifies this`blocks, this`inodes, this`logged
      ensures Valid() && i < |inodes| && r == inodes[i].addrs[k]
      ensures inodes == old(inodes)[i := inodes[i]] && old(logged) <= logged && Covers(old(blocks), blocks, logged, {})
      ensures old(inodes[i].addrs[k]) != 0 ==> r == old(inodes[i].addrs[k]) && Img() == old(Img()) && logged == old(logged)
      ensures old(inodes[i].addrs[k]) == 0 == r ==> Img() == old(Img()) && logged == old(logged)
      ensures r == 0 ==> forall c :: 0 <= c < sb.size ==> Used(sb, blocks, c)
      ensures old(inodes[i].addrs[k]) == 0 != r ==>
        Grew(sb, old(Img()), Img(), i, k, r) && logged == old(logged) + {BBlock(sb, r), r}
    {
      hide Used, BBlock;
      r := inodes[i].addrs[k];
      if r == 0 {
        r := Balloc();
        if r == 0 { return; }
        SetAddr(i, k, r);
        GrowAddr(sb, old(Img()), i, k, r);
      }
    }

    /** balloc into entry e of the indirect block, if the entry is empty. */
    method MapEntry(i: nat, e: nat) returns (r: nat)
      requires Valid() && i < |inodes| && e < NINDIRECT && inodes[i].addrs[NDIRECT] != 0
      modifies this`blocks, this`logged
      ensures old(logged) <= logged && Covers(old(blocks), blocks, logged, {})
      ensures old(Ref(sb, Img(), i, NDIRECT + 1 + e)) != 0 ==>
        r == old(Ref(sb, Img(), i, NDIRECT + 1 + e)) && Img() == old(Img()) && logged == old(logged)
      ensures old(Ref(sb, Img(), i, NDIRECT + 1 + e)) == 0 == r ==> Img() == old(Img()) && logged == old(logged)
      ensures r == 0 ==> forall c :: 0 <= c < sb.size ==> Used(sb, blocks, c)
      ensures old(Ref(sb, Img(), i, NDIRECT + 1 + e)) == 0 != r ==>
        Grew(sb, old(Img()), Img(), i, NDIRECT + 1 + e, r)
        && logged == old(logged) + {BBlock(sb, r), r, inodes[i].addrs[NDIRECT]}
    {
      hide Used, BBlock, Grew, Word;
      var ind := inodes[i].addrs[NDIRECT];
      r := Word(blocks[ind], e);
      if r == 0 {
        r := Balloc();
        if r != 0 {
          blocks := blocks[ind := SetWord(blocks[ind], e, r)];
          logged := logged + {ind};
          GrowEntry(sb, old(Img()), i, e, r);
        }
      }
    }

    /** The block of file i at index bn, allocated if missing; 0 if out of disk space. */
    method Bmap(i: nat, bn: nat) returns (r: nat)
      requires Valid() && i < |inodes| && bn < MAXFILE
      modifies this`blocks, this`inodes, this`logged
      ensures Mapped(sb, old(Img()), Img(), i, bn, r)
      ensures LogsWithin(sb, Img(), i, bn, bn, old(logged), logged)
      ensures i < |inodes| && inodes == old(inodes)[i := inodes[i]] && old(logged) <= logged && Covers(old(blocks), blocks, logged, {})
      ensures DataRef(sb, old(Img()), i, bn) != 0 ==>
        r == DataRef(sb, old(Img()), i, bn) && Img() == old(Img()) && logged == old(logged)
    {
      if bn < NDIRECT {
        r := MapAddr(i, bn);
        MapDone(old(Img()), Img(), i, bn, r);
      } else {
        r := BmapIndirect(i, bn);
      }
    }

    lemma MapDone(img: Image, img': Image, i: nat, bn: nat, r: nat)
      requires Inv(sb, img) && i < |img.inodes| && bn < MAXFILE
      requires DataRef(sb, img, i, bn) != 0 ==> r == DataRef(sb, img, i, bn) && img' == img
      requires DataRef(sb, img, i, bn) == 0 == r ==> img' == img && forall c :: 0 <= c < sb.size ==> Used(sb, img.blocks, c)
      requires DataRef(sb, img, i, bn) == 0 != r ==> Grew(sb, img, img', i, Slot(bn), r)
      ensures Mapped(sb, img, img', i, bn, r)
    {
      hide Grew, Mapped, Ref, Used;
      if DataRef(sb, img, i, bn) == 0 != r { GrewMaps(sb, img, img', i, bn, r); } else { MappedAlready(sb, img, i, bn); }
    }

    method BmapIndirect(i: nat, bn: nat) returns (r: nat)
      requires Valid() && i < |inodes| && NDIRECT <= bn < MAXFILE
      modifies this`blocks, this`inodes, this`logged
      ensures Mapped(sb, old(Img()), Img(), i, bn, r)
      ensures LogsWithin(sb, Img(), i, bn, bn, old(logged), logged)
      ensures i < |inodes| && inodes == old(inodes)[i := inodes[i]] && old(logged) <= logged && Covers(old(blocks), blocks, logged, {})
      ensures DataRef(sb, old(Img()), i, bn) != 0 ==>
        r == DataRef(sb, old(Img()), i, bn) && Img() == old(Img()) && logged == old(logged)
    {
      hide Used, RefOk, FileBlock;
      var ind := MapAddr(i, NDIRECT);
      if ind == 0 {
        MappedAlready(sb, old(Img()), i, bn);
        return 0;
      }
      ghost var mid := Img();
      r := MapEntry(i, bn - NDIRECT);
      MapDone(mid, Img(), i, bn, r);
      if old(inodes[i].addrs[NDIRECT]) == 0 {
        MapsThroughIndirect(sb, old(Img()), mid, Img(), i, bn, ind, r);
      }
    }

    /**
      One turn of writei's loop; either_copyin copies the first `copied` bytes of
      the chunk, and fails unless these are all. What it copies stays in the
      buffer, which is passed to log_write only if it succeeds.
     */
    method WriteChunk(i: nat, off: nat, chunk: seq<byte>, copied: nat) returns (done: bool, ghost put: nat)
      requires Valid() && i < |inodes| && off < MAXFILE * BSIZE && Grounded(sb, Img(), i, off)
      requires 0 < |chunk| && off % BSIZE + |chunk| <= BSIZE && copied <= |chunk|
      modifies this`blocks, this`inodes, this`logged
      ensures put <= copied && Patched(sb, old(Img()), Img(), i, off, chunk[..put])
      ensures Valid() && i < |inodes| && inodes[i].size == old(inodes[i].size)
      ensures done <==> put == |chunk|
      ensures put == copied || (put == 0 && Full(sb, Img()) && DataRef(sb, Img(), i, off / BSIZE) == 0)
      ensures LogsWithin(sb, Img(), i, off / BSIZE, off / BSIZE, old(logged), logged)
      ensures !done && DataRef(sb, old(Img()), i, off / BSIZE) != 0 ==> logged == old(logged)
      ensures inodes == old(inodes)[i := inodes[i]] && old(logged) <= logged && (done ==> DataRef(sb, Img(), i, off / BSIZE) in logged)
      ensures Covers(old(blocks), blocks, logged, if done then {} else TornBlock(sb, Img(), i, off, put))
    {
      hide Ref, RefOk, FileBlock, Used, ByteAt, Spliced, Covers;
      ghost var img := Img();
      var bn := off / BSIZE;
      var addr := Bmap(i, bn);
      ghost var mid := Img();
      assert chunk[..0] == [];
      if addr == 0 || copied == 0 {
        PatchedNothing(sb, img, mid, i, bn, addr, off);
        return false, 0;
      }
      done, put := copied == |chunk|, copied;
      MapAndOverwrite(sb, img, mid, i, off, addr, chunk[..copied]);
      blocks := blocks[addr := Spliced(blocks[addr], off % BSIZE, chunk[..copied])];
      if done { logged := logged + {addr}; }
      StoredCovers(img.blocks, mid.blocks, addr, blocks[addr], logged, if done then {} else {addr});
      ghost var data := Spliced(mid.blocks[addr], off % BSIZE, chunk[..copied]);
      assert Img() == Overwritten(sb, mid, i, bn, data);
      OverwrittenFiles(sb, mid, i, bn, data);
      assert DataRef(sb, Img(), i, bn) == addr && Ref(sb, Img(), i, NDIRECT) == Ref(sb, mid, i, NDIRECT);
    }

    lemma StoredCovers(a: seq<Block>, b: seq<Block>, addr: nat, data: Block, logged: set<int>, but: set<int>)
      requires Covers(a, b, logged, {}) && addr < |b| && addr in logged + but
      ensures Covers(a, b[addr := data], logged, but)
    {
    }

    method Iupdate(i: nat)
      modifies this`logged
      ensures logged == old(logged) + {IBlock(sb, i)}
    {
      logged := logged + {IBlock(sb, i)};
    }

    /** How many of the m bytes from tot on can be copied, of a source readable so far. */
    function Copyable(readable: nat, tot: nat, m: nat): nat {
      if readable <= tot then 0 else Min(m, readable - tot)
    }

    /** writei's loop: writes a prefix of src, of length tot, and tears off `torn` more bytes if a copy fails. */
    method WriteLoop(i: nat, src: seq<byte>, readable: nat, off0: nat, n: nat) returns (tot: nat, ghost torn: nat)
      requires Valid() && i < |inodes| && NoHoles(sb, Img(), i)
      requires off0 <= inodes[i].size && off0 + n <= MAXFILE * BSIZE && n <= |src|
      modifies this`blocks, this`inodes, this`logged
      ensures Finished(old(Img()), Img(), i, src, readable, off0, n, tot, torn, old(logged), logged)
    {
      hide NoHoles, Finished, Going, Inv;
      ghost var img := Img();
      tot, torn := 0, 0;
      GoingStarts(img, i, src, readable, off0, n, logged);
      while tot < n
        invariant 0 <= tot <= n && torn == 0
        invariant Going(img, Img(), i, src, readable, off0, n, tot, old(logged), logged)
      {
        var m, done;
        m, done, torn := WriteTurn(i, src, readable, off0, n, tot, img, old(logged));
        if !done { return; }
        tot := tot + m;
      }
      AllWritten(img, Img(), i, src, readable, off0, n, old(logged), logged);
    }

    /** The loop's state after tot bytes. */
    ghost predicate Going(img: Image, img': Image, i: nat, src: seq<byte>, readable: nat, off0: nat, n: nat, tot: nat,
                          before: set<int>, after: set<int>)
      requires Inv(sb, img) && i < |img.inodes|
    {
      && tot <= n <= |src| && tot <= readable && (tot == n || tot == 0 || (off0 + tot) % BSIZE == 0)
      && Writing(img, img', i, off0, src, tot, LastDone(off0, tot), before, after)
      && Recorded(img, img', i, off0, tot, {}, before, after)
      && (tot == 0 ==> img' == img && after == before)
    }

    /** What the loop leaves. */
    ghost predicate Finished(img: Image, img': Image, i: nat, src: seq<byte>, readable: nat, off: nat, n: nat, tot: nat, torn: nat,
                             before: set<int>, after: set<int>)
      requires Inv(sb, img) && i < |img.inodes| && off + n <= MAXFILE * BSIZE
    {
      && Inv(sb, img') && |img'.inodes| == |img.inodes| && img'.inodes[i].size == img.inodes[i].size
      && tot + torn <= n <= |src| && Patched(sb, img, img', i, off, src[..tot + torn]) && Stopped(img', i, tot, torn, readable, off, n)
      && (tot == 0 < n && DataRef(sb, img, i, off / BSIZE) != 0 ==> after == before)
      && LogsWithin(sb, img', i, off / BSIZE, (off + n - 1) / BSIZE, before, after)
      && Recorded(img, img', i, off, tot, TornBlock(sb, img', i, off + tot, torn), before, after)
      && TornUnlogged(img, i, off + tot, torn, before, after)
    }

    lemma GoingStarts(img: Image, i: nat, src: seq<byte>, readable: nat, off0: nat, n: nat, logged: set<int>)
      requires Inv(sb, img) && i < |img.inodes| && NoHoles(sb, img, i) && off0 <= img.inodes[i].size && n <= |src|
      ensures Going(img, img, i, src, readable, off0, n, 0, logged, logged)
    {
      hide Ref, RefOk, Used, Writing, Recorded, NoHoles;
      WritingStarts(img, i, off0, src, logged);
    }

    /** One turn of the loop: m bytes more, or its end. */
    method WriteTurn(i: nat, src: seq<byte>, readable: nat, off0: nat, n: nat, tot: nat, ghost img: Image, ghost before: set<int>)
      returns (m: nat, done: bool, ghost torn: nat)
      requires Inv(sb, img) && i < |img.inodes| && tot < n && off0 + n <= MAXFILE * BSIZE
      requires Going(img, Img(), i, src, readable, off0, n, tot, before, logged)
      modifies this`blocks, this`inodes, this`logged
      ensures done ==> 0 < m <= n - tot && torn == 0 && Going(img, Img(), i, src, readable, off0, n, tot + m, before, logged)
      ensures !done ==> Finished(img, Img(), i, src, readable, off0, n, tot, torn, before, logged)
    {
      hide Inv, Ref, Full, Going, Finished, Writing, Recorded, TornBlock;
      m := Min(n - tot, BSIZE - (off0 + tot) % BSIZE);
      ghost var mid, logs := Img(), logged;
      TurnStarts(img, mid, i, src, readable, off0, n, tot, before, logs);
      done, torn := WritePiece(i, src, readable, off0, tot, m, img, before);
      if done {
        TurnGoes(img, Img(), i, src, readable, off0, n, tot, m, before, logged);
        torn := 0;
      } else {
        TurnEnds(img, mid, Img(), i, src, readable, off0, n, tot, m, torn, before, logs, logged);
      }
    }

    lemma TurnStarts(img: Image, mid: Image, i: nat, src: seq<byte>, readable: nat, off0: nat, n: nat, tot: nat,
                     before: set<int>, logs: set<int>)
      requires Inv(sb, img) && i < |img.inodes| && tot < n && off0 + n <= MAXFILE * BSIZE
      requires Going(img, mid, i, src, readable, off0, n, tot, before, logs)
      ensures Sane(sb, mid) && i < |mid.inodes| && Writing(img, mid, i, off0, src, tot, LastDone(off0, tot), before, logs)
      ensures Recorded(img, mid, i, off0, tot, {}, before, logs) && n <= |src|
      ensures
        var m := Min(n - tot, BSIZE - (off0 + tot) % BSIZE);
        && 0 < m <= n - tot && tot + m <= |src| && (off0 + tot) % BSIZE + m <= BSIZE
        && off0 / BSIZE <= (off0 + tot) / BSIZE < MAXFILE
    {
      hide Ref, Used, Writing, Recorded, LastDone;
      WritingMeans(img, mid, i, off0, src, tot, LastDone(off0, tot), before, logs);
      BlockInRange(off0, n, tot);
    }

    lemma TurnGoes(img: Image, img': Image, i: nat, src: seq<byte>, readable: nat, off0: nat, n: nat, tot: nat, m: nat,
                   before: set<int>, after: set<int>)
      requires Inv(sb, img) && i < |img.inodes| && tot < n <= |src| && Sane(sb, img') && i < |img'.inodes|
      requires m == Min(n - tot, BSIZE - (off0 + tot) % BSIZE) && tot + m <= readable
      requires Writing(img, img', i, off0, src, tot + m, (off0 + tot) / BSIZE, before, after)
      requires LastDone(off0, tot + m) == (off0 + tot) / BSIZE && Recorded(img, img', i, off0, tot + m, {}, before, after)
      ensures Going(img, img', i, src, readable, off0, n, tot + m, before, after)
    {
      hide Inv, Ref, Writing, Recorded, LastDone;
      WholePieces(off0 + tot, m, n - tot);
    }

    lemma TurnEnds(img: Image, mid: Image, img': Image, i: nat, src: seq<byte>, readable: nat, off0: nat, n: nat, tot: nat, m: nat, torn: nat,
                   before: set<int>, logs: set<int>, after: set<int>)
      requires Inv(sb, img) && i < |img.inodes| && tot < n && off0 + n <= MAXFILE * BSIZE
      requires Going(img, mid, i, src, readable, off0, n, tot, before, logs)
      requires m == Min(n - tot, BSIZE - (off0 + tot) % BSIZE) && torn < m && Sane(sb, img') && i < |img'.inodes|
      requires Writing(img, img', i, off0, src, tot + torn, (off0 + tot) / BSIZE, before, after)
      requires Recorded(img, img', i, off0, tot, TornBlock(sb, img', i, off0 + tot, torn), before, after)
      requires (off0 + tot) / BSIZE < MAXFILE && Sane(sb, mid) && i < |mid.inodes|
      requires torn == Copyable(readable, tot, m) || (torn == 0 && Full(sb, img') && DataRef(sb, img', i, (off0 + tot) / BSIZE) == 0)
      requires DataRef(sb, mid, i, (off0 + tot) / BSIZE) != 0 ==> after == logs
      ensures Finished(img, img', i, src, readable, off0, n, tot, torn, before, after)
    {
      hide Ref, RefOk, Used, Stopped, Full, Writing, Patched, LogsWithin, Recorded, TornBlock, TornUnlogged, LastDone;
      BlockInRange(off0, n, tot);
      StillUnlogged(img, mid, i, off0, src, tot, torn, before, logs, after);
      WritingMeans(img, img', i, off0, src, tot + torn, (off0 + tot) / BSIZE, before, after);
      LogsWiden(img', i, off0 / BSIZE, (off0 + tot) / BSIZE, (off0 + n - 1) / BSIZE, before, after);
      StopsHere(img', i, tot, torn, m, readable, off0, n);
    }

    /** The last block written when tot bytes are. */
    function LastDone(off: nat, tot: nat): int {
      if tot == 0 then off / BSIZE - 1 else (off + tot - 1) / BSIZE
    }

    /** What has been logged carries what has been changed: every changed block but those in `but`, and the blocks of the tot bytes. */
    ghost predicate Recorded(img: Image, img': Image, i: nat, off: nat, tot: nat, but: set<int>, before: set<int>, after: set<int>)
      requires Sane(sb, img) && Sane(sb, img') && i < |img'.inodes|
    {
      && |img'.inodes| == |img.inodes| && img'.inodes == img.inodes[i := img'.inodes[i]]
      && before <= after && Covers(img.blocks, img'.blocks, after, but) && DataLogged(sb, img', i, off, tot, after)
    }

    lemma RecordedGrows(img: Image, mid: Image, img': Image, i: nat, off0: nat, src: seq<byte>, tot: nat, m: nat, done: bool, but: set<int>,
                        before: set<int>, logs: set<int>, after: set<int>)
      requires Inv(sb, img) && Inv(sb, mid) && Inv(sb, img') && i < |img.inodes| && i < |mid.inodes| && i < |img'.inodes|
      requires Recorded(img, mid, i, off0, tot, {}, before, logs) && 0 < m && (off0 + tot) % BSIZE + m <= BSIZE
      requires |mid.inodes| == |img'.inodes| && img'.inodes == mid.inodes[i := img'.inodes[i]] && logs <= after
      requires Covers(mid.blocks, img'.blocks, after, but) && (off0 + tot) / BSIZE < MAXFILE
      requires done ==> DataRef(sb, img', i, (off0 + tot) / BSIZE) in after
      requires tot <= |src| && Patched(sb, img, mid, i, off0, src[..tot])
      requires forall k :: 0 <= k < MAXFILE && DataRef(sb, mid, i, k) != 0 ==> DataRef(sb, img', i, k) == DataRef(sb, mid, i, k)
      ensures Recorded(img, img', i, off0, if done then tot + m else tot, but, before, after)
    {
      hide Ref, RefOk, Used, FileBlock, ByteAt;
      CoversTwice(img.blocks, mid.blocks, img'.blocks, logs, after, but);
      forall k | 0 <= k < MAXFILE && tot > 0 && off0 / BSIZE <= k <= (off0 + tot - 1) / BSIZE
        ensures DataRef(sb, img', i, k) in after
      {
        assert off0 <= k * BSIZE + BSIZE - 1 && k * BSIZE < off0 + tot;
        assert DataRef(sb, mid, i, k) != 0;
      }
      SameBlock(off0 + tot, m);
    }

    lemma SameBlock(x: nat, m: nat)
      requires 0 < m && x % BSIZE + m <= BSIZE
      ensures (x + m - 1) / BSIZE == x / BSIZE
      ensures x > 0 ==> (x - 1) / BSIZE >= x / BSIZE - 1
    {
    }

    /** A block that the file had and that a failed copy ended in is not logged by the call. */
    ghost predicate TornUnlogged(img: Image, i: nat, end: nat, torn: nat, before: set<int>, after: set<int>)
      requires Sane(sb, img) && i < |img.inodes|
    {
      torn > 0 && end / BSIZE < MAXFILE && DataRef(sb, img, i, end / BSIZE) != 0 && DataRef(sb, img, i, end / BSIZE) !in before
      ==> DataRef(sb, img, i, end / BSIZE) !in after
    }

    lemma StillUnlogged(img: Image, mid: Image, i: nat, off0: nat, src: seq<byte>, tot: nat, put: nat,
                        before: set<int>, logs: set<int>, after: set<int>)
      requires Inv(sb, img) && i < |img.inodes| && Writing(img, mid, i, off0, src, tot, LastDone(off0, tot), before, logs)
      requires tot == 0 || (off0 + tot) % BSIZE == 0
      requires (off0 + tot) / BSIZE < MAXFILE && DataRef(sb, mid, i, (off0 + tot) / BSIZE) != 0 ==> after == logs
      ensures TornUnlogged(img, i, off0 + tot, put, before, after)
    {
      hide Ref, RefOk, Used, FileBlock, ByteAt, LogsWithin;
      var bn := (off0 + tot) / BSIZE;
      if bn < MAXFILE && DataRef(sb, img, i, bn) != 0 && DataRef(sb, img, i, bn) !in before {
        NotLogged(sb, mid, i, off0 / BSIZE, LastDone(off0, tot), bn, before, logs);
      }
    }

    /** What the image and the log are after tot bytes. */
    ghost predicate Writing(img: Image, img': Image, i: nat, off0: nat, src: seq<byte>, tot: nat, hi: int, before: set<int>, after: set<int>)
      requires Inv(sb, img) && i < |img.inodes|
    {
      && Inv(sb, img') && i < |img'.inodes| && img'.inodes[i].size == img.inodes[i].size && tot <= |src|
      && Patched(sb, img, img', i, off0, src[..tot]) && Grounded(sb, img', i, off0 + tot)
      && LogsWithin(sb, img', i, off0 / BSIZE, hi, before, after)
    }

    lemma WritingStarts(img: Image, i: nat, off0: nat, src: seq<byte>, logged: set<int>)
      requires Inv(sb, img) && i < |img.inodes| && NoHoles(sb, img, i) && off0 <= img.inodes[i].size
      ensures Writing(img, img, i, off0, src, 0, LastDone(off0, 0), logged, logged)
      ensures Recorded(img, img, i, off0, 0, {}, logged, logged)
    {
      hide Ref, RefOk, FileBlock, Used, ByteAt, Patched, Grounded, NoHoles, LogsWithin;
      NoHolesGrounds(sb, img, i, off0);
      PatchedFromNothing(img, i, off0);
      NothingLogged(img, i, off0 / BSIZE, LastDone(off0, 0), logged);
      assert src[..0] == [];
    }

    lemma WritingMeans(img: Image, img': Image, i: nat, off0: nat, src: seq<byte>, tot: nat, hi: int, before: set<int>, after: set<int>)
      requires Inv(sb, img) && i < |img.inodes| && Writing(img, img', i, off0, src, tot, hi, before, after)
      ensures Inv(sb, img') && i < |img'.inodes| && img'.inodes[i].size == img.inodes[i].size && tot <= |src|
      ensures Patched(sb, img, img', i, off0, src[..tot]) && LogsWithin(sb, img', i, off0 / BSIZE, hi, before, after)
    {
    }

    /** One turn of the loop. */
    method WritePiece(i: nat, src: seq<byte>, readable: nat, off0: nat, tot: nat, m: nat, ghost img: Image, ghost before: set<int>)
      returns (done: bool, ghost put: nat)
      requires Inv(sb, img) && i < |img.inodes| && Writing(img, Img(), i, off0, src, tot, LastDone(off0, tot), before, logged)
      requires Sane(sb, Img()) && i < |inodes| && Recorded(img, Img(), i, off0, tot, {}, before, logged)
      requires 0 < m && tot + m <= |src| && (off0 + tot) % BSIZE + m <= BSIZE && off0 / BSIZE <= (off0 + tot) / BSIZE < MAXFILE
      modifies this`blocks, this`inodes, this`logged
      ensures put <= m && Writing(img, Img(), i, off0, src, tot + put, (off0 + tot) / BSIZE, before, logged)
      ensures Recorded(img, Img(), i, off0, if done then tot + m else tot, if done then {} else TornBlock(sb, Img(), i, off0 + tot, put), before, logged)
      ensures done ==> LastDone(off0, tot + m) == (off0 + tot) / BSIZE
      ensures done <==> put == m
      ensures Inv(sb, Img()) && Sane(sb, Img()) && i < |inodes| && Sane(sb, old(Img())) && i < |old(inodes)|
      ensures put == Copyable(readable, tot, m) || (put == 0 && Full(sb, Img()) && DataRef(sb, Img(), i, (off0 + tot) / BSIZE) == 0)
      ensures !done && DataRef(sb, old(Img()), i, (off0 + tot) / BSIZE) != 0 ==> logged == old(logged)
    {
      hide Ref, RefOk, FileBlock, Used, ByteAt, Patched, Grounded, MayLog, Full, LogsWithin, Recorded, Covers, TornBlock;
      ghost var mid, logs := Img(), logged;
      SameBlock(off0 + tot, m);
      done, put := WriteChunk(i, off0 + tot, src[tot..tot + m], Copyable(readable, tot, m));
      assert src[tot..tot + m][..put] == src[tot..tot + put];
      ChunkAppended(img, mid, Img(), i, off0, src, tot, put, off0 / BSIZE, (off0 + tot) / BSIZE, before, logs, logged);
      KeepsRefs(mid, Img(), i, off0 + tot, src[tot..tot + put]);
      RecordedGrows(img, mid, Img(), i, off0, src, tot, m, done,
                    if done then {} else TornBlock(sb, Img(), i, off0 + tot, put), before, logs, logged);
    }

    lemma KeepsRefs(img: Image, img': Image, i: nat, off: nat, s: seq<byte>)
      requires Inv(sb, img) && i < |img.inodes| && Patched(sb, img, img', i, off, s)
      ensures forall k :: 0 <= k < MAXFILE && DataRef(sb, img, i, k) != 0 ==> DataRef(sb, img', i, k) == DataRef(sb, img, i, k)
    {
    }

    lemma NothingLogged(img: Image, i: nat, lo: int, hi: int, logged: set<int>)
      requires Sane(sb, img) && i < |img.inodes|
      ensures LogsWithin(sb, img, i, lo, hi, logged, logged)
    {
    }

    lemma AllWritten(img: Image, img': Image, i: nat, src: seq<byte>, readable: nat, off: nat, n: nat, before: set<int>, after: set<int>)
      requires Inv(sb, img) && i < |img.inodes| && off + n <= MAXFILE * BSIZE
      requires Going(img, img', i, src, readable, off, n, n, before, after)
      ensures Finished(img, img', i, src, readable, off, n, n, 0, before, after)
    {
      hide Ref, RefOk, Used, Writing, Patched, LogsWithin, Recorded, LastDone, Full;
      WritingMeans(img, img', i, off, src, n, LastDone(off, n), before, after);
      LastInRange(off, n);
      LogsWiden(img', i, off / BSIZE, LastDone(off, n), (off + n - 1) / BSIZE, before, after);
    }

    lemma StopsHere(img: Image, i: nat, tot: nat, put: nat, m: nat, readable: nat, off: nat, n: nat)
      requires Sane(sb, img) && i < |img.inodes| && off + n <= MAXFILE * BSIZE && tot < n && tot <= readable
      requires m == Min(n - tot, BSIZE - (off + tot) % BSIZE) && (tot == 0 || (off + tot) % BSIZE == 0) && put < m
      requires put == Copyable(readable, tot, m) || (put == 0 && Full(sb, img) && DataRef(sb, img, i, (off + tot) / BSIZE) == 0)
      ensures Stopped(img, i, tot, put, readable, off, n)
    {
      hide Full, Used, Ref;
      if put == Copyable(readable, tot, m) { PieceEnds(off, tot, m, readable, n); }
    }

    lemma WholePieces(off: nat, m: nat, left: nat)
      requires m == Min(left, BSIZE - off % BSIZE)
      ensures m == left || (off + m) % BSIZE == 0
    {
    }

    lemma LastInRange(off0: nat, n: nat)
      requires off0 + n <= MAXFILE * BSIZE
      ensures LastDone(off0, n) <= (off0 + n - 1) / BSIZE < MAXFILE
    {
    }

    lemma BlockInRange(off0: nat, n: nat, tot: nat)
      requires tot < n && off0 + n <= MAXFILE * BSIZE
      ensures off0 / BSIZE <= (off0 + tot) / BSIZE <= (off0 + n - 1) / BSIZE < MAXFILE
    {
    }

    lemma LogsWiden(img: Image, i: nat, lo: nat, hi: int, hi': int, before: set<int>, after: set<int>)
      requires Sane(sb, img) && i < |img.inodes| && LogsWithin(sb, img, i, lo, hi, before, after) && hi <= hi' < MAXFILE
      ensures LogsWithin(sb, img, i, lo, hi', before, after)
    {
      hide Ref;
    }

    /** One more piece of the source behind those written so far. */
    lemma ChunkAppended(img: Image, mid: Image, img': Image, i: nat, off0: nat, src: seq<byte>, tot: nat, put: nat, lo: nat, hi: int,
                        before: set<int>, logs: set<int>, after: set<int>)
      requires Inv(sb, img) && Inv(sb, mid) && i < |img.inodes| && i < |mid.inodes| && tot + put <= |src|
      requires Patched(sb, img, mid, i, off0, src[..tot]) && Patched(sb, mid, img', i, off0 + tot, src[tot..tot + put])
      requires Grounded(sb, mid, i, off0 + tot) && lo <= (off0 + tot) / BSIZE <= hi < MAXFILE
      requires LogsWithin(sb, mid, i, lo, LastDone(off0, tot), before, logs)
      requires LogsWithin(sb, img', i, (off0 + tot) / BSIZE, (off0 + tot) / BSIZE, logs, after)
      ensures Patched(sb, img, img', i, off0, src[..tot + put]) && Grounded(sb, img', i, off0 + tot + put)
      ensures LogsWithin(sb, img', i, lo, hi, before, after)
    {
      hide Ref, RefOk, FileBlock, Used, ByteAt, Patched, Grounded, MayLog, LogsWithin;
      var chunk := src[tot..tot + put];
      assert src[..tot] + chunk == src[..tot + put];
      PatchedTwice(sb, img, mid, img', i, off0, src[..tot], chunk);
      PatchedGrounds(sb, mid, img', i, off0 + tot, chunk);
      LogsWiden(mid, i, lo, LastDone(off0, tot), hi, before, logs);
      LogsStayWithin(sb, mid, img', i, off0 + tot, chunk, lo, hi, before, logs, after);
    }

    /**
      How the loop ends: all is written; or the disk is full and the next block
      missing; or the source ends before n, and of the piece it ends in, the torn
      bytes up to its end were copied.
     */
    ghost predicate Stopped(img: Image, i: nat, tot: nat, torn: nat, readable: nat, off: nat, n: nat)
      requires Sane(sb, img) && i < |img.inodes| && off + n <= MAXFILE * BSIZE
    {
      || (tot == n <= readable && torn == 0)
      || (tot < n && tot <= readable && torn == 0 && Full(sb, img) && DataRef(sb, img, i, (off + tot) / BSIZE) == 0)
      || (tot + torn == readable < n && torn == Min(readable, (off + readable) % BSIZE))
    }

    lemma StoppedSized(img: Image, i: nat, size: nat, tot: nat, torn: nat, readable: nat, off: nat, n: nat)
      requires Inv(sb, img) && i < |img.inodes| && size <= MAXFILE * BSIZE && off + n <= MAXFILE * BSIZE
      requires Stopped(img, i, tot, torn, readable, off, n)
      ensures Sane(sb, WithSize(img, i, size)) && Stopped(WithSize(img, i, size), i, tot, torn, readable, off, n)
    {
      hide Used, Ref, RefOk;
      SizedInv(sb, img, i, size);
      if tot < n { BlockInRange(off, n, tot); }
    }

    /** Once the size is raised: everything writei promises about the image. */
    lemma WriteDone(img: Image, img': Image, i: nat, src: seq<byte>, tot: nat, torn: nat, readable: nat, off: nat, n: nat)
      requires Inv(sb, img) && Inv(sb, img') && i < |img.inodes| && i < |img'.inodes| && off <= img.inodes[i].size
      requires off + n <= MAXFILE * BSIZE && tot + torn <= n <= |src| && Patched(sb, img, img', i, off, src[..tot + torn])
      requires Stopped(img', i, tot, torn, readable, off, n)
      ensures
        var last := WithSize(img', i, SizeAfter(img, i, off + tot));
        && Inv(sb, last) && TornWritten(sb, img, last, i, off, src[..tot], src[tot..tot + torn])
        && (FileWritten(sb, img, last, i, off, src[..tot]) <==> Shows(FileData(sb, img, i), off + tot, src[tot..tot + torn]))
        && Stopped(last, i, tot, torn, readable, off, n)
    {
      hide Ref, RefOk, FileBlock, Used, ByteAt, Patched, Overlay, NoHoles, FileWritten, TornWritten, Stopped, FileData, Shows;
      var size := SizeAfter(img, i, off + tot);
      assert src[..tot] + src[tot..tot + torn] == src[..tot + torn];
      PatchedIsWritten(sb, img, img', i, off, src[..tot], src[tot..tot + torn]);
      SizedInv(sb, img', i, size);
      TornShows(sb, img, WithSize(img', i, size), i, off, src[..tot], src[tot..tot + torn]);
      StoppedSized(img', i, size, tot, torn, readable, off, n);
    }

    lemma RecordedSized(img: Image, img': Image, i: nat, size: nat, off: nat, tot: nat, torn: nat, before: set<int>, after: set<int>)
      requires Inv(sb, img) && Inv(sb, img') && i < |img.inodes| && i < |img'.inodes| && size <= MAXFILE * BSIZE
      requires Recorded(img, img', i, off, tot, TornBlock(sb, img', i, off + tot, torn), before, after)
      ensures
        var last, logs := WithSize(img', i, size), after + {IBlock(sb, i)};
        && Inv(sb, last) && before <= logs && DataLogged(sb, last, i, off, tot, logs)
        && Carries(sb, img, last, logs, TornBlock(sb, last, i, off + tot, torn))
    {
      hide Used, RefOk, IBlock, Carries;
      var last := WithSize(img', i, size);
      SizedInv(sb, img', i, size);
      CoversCarries(sb, img, last, i, after + {IBlock(sb, i)}, TornBlock(sb, last, i, off + tot, torn));
    }

    lemma LogsSized(img: Image, i: nat, size: nat, lo: int, hi: int, before: set<int>, after: set<int>)
      requires Inv(sb, img) && i < |img.inodes| && size <= MAXFILE * BSIZE && LogsWithin(sb, img, i, lo, hi, before, after)
      ensures Inv(sb, WithSize(img, i, size)) && LogsWithin(sb, WithSize(img, i, size), i, lo, hi, before + {IBlock(sb, i)}, after + {IBlock(sb, i)})
    {
      hide Used, RefOk;
      SizedInv(sb, img, i, size);
    }

    /** The piece in which the source ends. */
    lemma PieceEnds(off: nat, tot: nat, m: nat, readable: nat, n: nat)
      requires tot < n && tot <= readable < tot + m && m == Min(n - tot, BSIZE - (off + tot) % BSIZE)
      requires tot == 0 || (off + tot) % BSIZE == 0
      ensures readable < n && readable - tot == Min(readable, (off + readable) % BSIZE)
    {
      var d := readable - tot;
      assert off + readable == (off + tot) + d;
      ModAdd(off + tot, d);
    }

    lemma ModAdd(x: nat, d: nat)
      requires x % BSIZE + d < BSIZE
      ensures (x + d) % BSIZE == x % BSIZE + d
    {
    }

    /**
      Write n bytes of src at offset off of file i; the first `readable` bytes
      of src can be copied in. The file becomes the old one overlaid with the r
      bytes written; short writes happen only on a full disk or a bad source. With
      a bad source the copied bytes of the piece it ends in show behind them, and
      the file is the plain overlay exactly when these are the bytes it had.
     */
    method Writei(i: nat, src: seq<byte>, readable: nat, off: nat, n: nat) returns (r: int, ghost torn: nat)
      requires Valid() && i < |inodes| && NoHoles(sb, Img(), i)
      requires off < UINT && n < UINT && n <= |src|
      modifies this`blocks, this`inodes, this`logged
      ensures Valid() && |blocks| == sb.size
      ensures r == -1 <==> off > old(inodes[i].size) || off + n >= UINT || off + n > MAXFILE * BSIZE
      ensures r == -1 ==> Img() == old(Img()) && logged == old(logged)
      ensures r != -1 ==> 0 <= r && r + torn <= n && TornWritten(sb, old(Img()), Img(), i, off, src[..r], src[r..r + torn])
      ensures r != -1 ==>
        (FileWritten(sb, old(Img()), Img(), i, off, src[..r]) <==> Shows(old(FileData(sb, Img(), i)), off + r, src[r..r + torn]))
      ensures r == 0 < n && DataRef(sb, old(Img()), i, off / BSIZE) != 0 ==> logged == old(logged) + {IBlock(sb, i)}
      ensures r != -1 ==> i < |inodes| && Stopped(Img(), i, r, torn, readable, off, n)
      ensures r != -1 ==>
        LogsWithin(sb, Img(), i, off / BSIZE, (off + n - 1) / BSIZE, old(logged) + {IBlock(sb, i)}, logged)
      ensures r != -1 ==> old(logged) <= logged && IBlock(sb, i) in logged && DataLogged(sb, Img(), i, off, r, logged)
      ensures r != -1 ==> Carries(sb, old(Img()), Img(), logged, TornBlock(sb, Img(), i, off + r, torn))
      ensures r != -1 ==> TornUnlogged(old(Img()), i, off + r, torn, old(logged) + {IBlock(sb, i)}, logged)
    {
      hide Ref, RefOk, FileBlock, Used, ByteAt, Patched, Overlay, NoHoles, FileWritten, TornWritten, Stopped, Shows, LogsWithin, MayLog, FileData;
      hide Recorded, Carries, DataLogged, TornBlock, IBlock, Wraps;
      WrapsExactly(off, n);
      if off > inodes[i].size || Wraps(off, n) { return -1, 0; }
      if off + n > MAXFILE * BSIZE { return -1, 0; }
      ghost var img := Img();
      var tot;
      tot, torn := WriteLoop(i, src, readable, off, n);
      ghost var img', size := Img(), SizeAfter(img, i, off + tot);
      WriteDone(img, img', i, src, tot, torn, readable, off, n);
      RecordedSized(img, img', i, size, off, tot, torn, old(logged), logged);
      LogsSized(img', i, size, off / BSIZE, (off + n - 1) / BSIZE, old(logged), logged);
      if off + tot > inodes[i].size {
        inodes := inodes[i := inodes[i].(size := off + tot)];
      }
      assert Img() == WithSize(img', i, size);
      Iupdate(i);
      return tot, torn;
    }

    lemma PatchedFromNothing(img: Image, i: nat, off: nat)
      requires Inv(sb, img) && i < |img.inodes| && Grounded(sb, img, i, off)
      ensures Patched(sb, img, img, i, off, [])
    {
      hide Ref, RefOk, FileBlock, Used, ByteAt;
      forall m | 0 <= m < MAXFILE && off <= m * BSIZE + BSIZE - 1 && m * BSIZE < off
        ensures DataRef(sb, img, i, m) != 0
      {
        assert m == off / BSIZE;
      }
    }

    /**
      Read n bytes at offset off of file i; the first `writable` bytes of the
      destination can be copied out. Reading a file without holes changes nothing.
     */
    method Readi(i: nat, writable: nat, off: nat, n: nat) returns (r: int, dst: seq<byte>)
      requires Valid() && i < |inodes| && NoHoles(sb, Img(), i)
      requires off < UINT && n < UINT
      modifies this`blocks, this`inodes, this`logged
      ensures Img() == old(Img()) && logged == old(logged)
      ensures off > inodes[i].size || off + n >= UINT ==> r == 0 && dst == []
      ensures off <= inodes[i].size && off + n < UINT ==>
        var m := Min(n, inodes[i].size - off);
        if m <= writable then r == m && dst == FileData(sb, Img(), i)[off..off + m] else r == -1
    {
      hide Inv, Ref, FileData, NoHoles, Wraps, Sane;
      dst := [];
      SizeBound(Img(), i);
      WrapsExactly(off, n);
      if off > inodes[i].size || Wraps(off, n) { return 0, []; }
      var n1 := if off + n > inodes[i].size then inodes[i].size - off else n;
      var tot := 0;
      while tot < n1
        invariant 0 <= tot <= n1 && Img() == old(Img()) && logged == old(logged)
        invariant tot <= writable && dst == FileData(sb, Img(), i)[off..off + tot]
      {
        var piece := ReadPiece(i, off + tot, n1 - tot);
        if piece == [] { break; }
        if tot + |piece| > writable { return -1, dst; }
        SlicesJoin(FileData(sb, Img(), i), off, off + tot, off + tot + |piece|);
        dst := dst + piece;
        tot := tot + |piece|;
      }
      return tot, dst;
    }

    /** One turn of readi's loop: the bytes from `at` to the end of its block, at most `left`; none for a missing block. */
    method ReadPiece(i: nat, at: nat, left: nat) returns (piece: seq<byte>)
      requires Valid() && i < |inodes| && NoHoles(sb, Img(), i) && 0 < left && at + left <= inodes[i].size
      modifies this`blocks, this`inodes, this`logged
      ensures Img() == old(Img()) && logged == old(logged)
      ensures 0 < |piece| <= left && piece == FileData(sb, Img(), i)[at..at + |piece|]
    {
      SizeBound(Img(), i);
      hide Inv, Ref, RefOk, Used, FileBlock, ByteAt, FileData;
      BlockBelow(at, inodes[i].size);
      var addr := Present(i, at / BSIZE);
      if addr == 0 { return []; }
      var m := Min(left, BSIZE - at % BSIZE);
      CopiedOut(i, at, m, addr);
      piece := blocks[addr][at % BSIZE..at % BSIZE + m];
    }

    lemma SizeBound(img: Image, i: nat)
      requires Inv(sb, img) && i < |img.inodes|
      ensures img.inodes[i].size <= MAXFILE * BSIZE && Sane(sb, img)
    {
    }

    /** bmap of a block that is there. */
    method Present(i: nat, bn: nat) returns (r: nat)
      requires Valid() && i < |inodes| && bn < MAXFILE && DataRef(sb, Img(), i, bn) != 0
      modifies this`blocks, this`inodes, this`logged
      ensures Img() == old(Img()) && logged == old(logged) && r == DataRef(sb, Img(), i, bn)
    {
      hide Inv, Ref, Mapped, LogsWithin, Covers;
      r := Bmap(i, bn);
    }

    lemma SlicesJoin(s: seq<byte>, a: nat, b: nat, c: nat)
      requires a <= b <= c <= |s|
      ensures s[a..b] + s[b..c] == s[a..c]
    {
    }

    lemma BlockBelow(x: nat, size: nat)
      requires x < size <= MAXFILE * BSIZE
      ensures x / BSIZE < MAXFILE && x / BSIZE * BSIZE < size
    {
    }

    lemma CopiedOut(i: nat, at: nat, m: nat, addr: nat)
      requires Valid() && i < |inodes| && at + m <= inodes[i].size && at % BSIZE + m <= BSIZE && at < inodes[i].size
      requires addr == DataRef(sb, Img(), i, at / BSIZE) != 0
      ensures addr < |blocks|
      ensures blocks[addr][at % BSIZE..at % BSIZE + m] == FileData(sb, Img(), i)[at..at + m]
    {
      hide Ref, Used;
      assert RefOk(sb, Img(), i, Slot(at / BSIZE));
      forall x | at <= x < at + m
        ensures blocks[addr][at % BSIZE + (x - at)] == FileData(sb, Img(), i)[x]
      {
        SamePlace(x, at, m);
      }
    }

    /** itrunc's first loop. */
    method TruncDirect(i: nat) returns (ok: bool)
      requires Valid() && i < |inodes|
      modifies this`blocks, this`inodes, this`logged
      ensures ok && Trimmed(sb, old(Img()), blocks, i, NDIRECT)
      ensures |inodes| == |old(inodes)| && |inodes[i].addrs| == NDIRECT + 1
      ensures inodes == old(inodes)[i := inodes[i]]
      ensures forall l :: 0 <= l <= NDIRECT ==> inodes[i].addrs[l] == if l < NDIRECT then 0 else old(inodes[i].addrs[l])
      ensures logged == old(logged) + TrimLogs(sb, old(Img()), i, NDIRECT) && Covers(old(blocks), blocks, logged, {})
    {
      hide Ref, RefOk, Used, TrimLogs, Covers;
      ghost var img := Img();
      TrimLogsNothing(sb, img, i);
      NoChange(blocks, logged);
      var k := 0;
      while k < NDIRECT
        invariant 0 <= k <= NDIRECT && Trimmed(sb, img, blocks, i, k)
        invariant |inodes| == |img.inodes| && |inodes[i].addrs| == NDIRECT + 1
        invariant inodes == img.inodes[i := inodes[i]]
        invariant forall l :: 0 <= l <= NDIRECT ==> inodes[i].addrs[l] == if l < k then 0 else img.inodes[i].addrs[l]
        invariant logged == old(logged) + TrimLogs(sb, img, i, k) && Covers(img.blocks, blocks, logged, {})
      {
        TrimLogsNext(sb, img, i, k);
        ghost var mid, logs := blocks, logged;
        RefIsAddr(sb, img, i, k);
        TrimOne(sb, img, blocks, i, k);
        if inodes[i].addrs[k] != 0 {
          var freed := Bfree(inodes[i].addrs[k]);
          if !freed { return false; }
          CoversTwice(img.blocks, mid, blocks, logs, logged, {});
          SetAddr(i, k, 0);
        }
        k := k + 1;
      }
      return true;
    }

    /** itrunc's second part: the entries of the indirect block, then the block. */
    method TruncIndirect(i: nat, ghost img: Image) returns (ok: bool)
      requires Inv(sb, img) && i < |img.inodes| == |inodes| && |inodes[i].addrs| == NDIRECT + 1
      requires inodes[i].addrs[NDIRECT] == img.inodes[i].addrs[NDIRECT] != 0
      requires Trimmed(sb, img, blocks, i, NDIRECT) && Covers(img.blocks, blocks, logged, {})
      requires TrimLogs(sb, img, i, NDIRECT) <= logged
      modifies this`blocks, this`logged
      ensures ok && Trimmed(sb, img, blocks, i, NREFS)
      ensures logged == old(logged) + TrimLogs(sb, img, i, NREFS) && Covers(img.blocks, blocks, logged, {})
    {
      hide Ref, RefOk, Used, Word, TrimLogs, Covers, Trimmed;
      var ind := inodes[i].addrs[NDIRECT];
      RefIsAddr(sb, img, i, NDIRECT);
      assert sb.first <= ind by { assert RefOk(sb, img, i, NDIRECT); IndirectIsData(img, i); }
      var e := 0;
      while e < NINDIRECT
        invariant 0 <= e <= NINDIRECT && Trimmed(sb, img, blocks, i, NDIRECT + e)
        invariant logged == old(logged) + TrimLogs(sb, img, i, NDIRECT + e) && Covers(img.blocks, blocks, logged, {})
      {
        TrimLogsNext(sb, img, i, NDIRECT + e);
        ghost var mid, logs := blocks, logged;
        RefIsEntry(sb, img, i, e);
        TrimmedBlock(img, blocks, i, NDIRECT + e, ind);
        TrimOne(sb, img, blocks, i, NDIRECT + e);
        var a := Word(blocks[ind], e);
        if a != 0 {
          var freed := Bfree(a);
          if !freed { return false; }
          CoversTwice(img.blocks, mid, blocks, logs, logged, {});
        }
        e := e + 1;
      }
      TrimmedBlock(img, blocks, i, NREFS - 1, ind);
      TrimOne(sb, img, blocks, i, NREFS - 1);
      TrimLogsNext(sb, img, i, NREFS - 1);
      ghost var mid, logs := blocks, logged;
      ok := Bfree(ind);
      CoversTwice(img.blocks, mid, blocks, logs, logged, {});
    }

    lemma MoreLogged(a: seq<Block>, b: seq<Block>, logged: set<int>, c: int)
      requires Covers(a, b, logged, {})
      ensures Covers(a, b, logged + {c}, {})
    {
    }

    lemma TrimmedBlock(img: Image, blocks: seq<Block>, i: nat, p: int, c: int)
      requires Sane(sb, img) && i < |img.inodes| && Trimmed(sb, img, blocks, i, p) && sb.first <= c < sb.size
      ensures |blocks| == sb.size && blocks[c] == img.blocks[c]
    {
    }

    lemma NoChange(blocks: seq<Block>, logged: set<int>)
      ensures Covers(blocks, blocks, logged, {})
    {
    }

    lemma IndirectIsData(img: Image, i: nat)
      requires Inv(sb, img) && i < |img.inodes| && img.inodes[i].addrs[NDIRECT] != 0
      ensures sb.first <= img.inodes[i].addrs[NDIRECT] < sb.size
    {
      assert RefOk(sb, img, i, NDIRECT);
    }

    /** Discard the contents of file i; ok would be false for the "freeing free block" panic. */
    method Itrunc(i: nat) returns (ok: bool)
      requires Valid() && i < |inodes|
      modifies this`blocks, this`inodes, this`logged
      ensures ok && Valid() && Truncated(sb, old(Img()), Img(), i)
      ensures logged == old(logged) + TrimLogs(sb, old(Img()), i, NREFS) + {IBlock(sb, i)}
      ensures Carries(sb, old(Img()), Img(), logged, {})
    {
      hide Ref, RefOk, Used, Trimmed, TrimLogs, Covers, IBlock, Carries;
      ghost var img := Img();
      TrimLogsNothing(sb, img, i);
      ok := TruncDirect(i);
      if inodes[i].addrs[NDIRECT] != 0 {
        ok := TruncIndirect(i, img);
        SetAddr(i, NDIRECT, 0);
      } else {
        TrimNoIndirect(sb, img, blocks, i);
      }
      inodes := inodes[i := inodes[i].(size := 0)];
      assert inodes[i].addrs == seq(NDIRECT + 1, _ => 0);
      MoreLogged(img.blocks, blocks, logged, IBlock(sb, i));
      Iupdate(i);
      CoversCarries(sb, img, Img(), i, logged, {});
      TruncatedInv(sb, img, Img(), i);
    }

    /** One turn of filewrite's loop: a transaction around writei. */
    method WriteTransaction(i: nat, src: seq<byte>, readable: nat, off: nat, n: nat) returns (r: int, ghost torn: nat)
      requires Valid() && i < |inodes| && NoHoles(sb, Img(), i)
      requires off < UINT && 0 < n <= 3 * BSIZE && n <= |src|
      modifies this`blocks, this`inodes, this`logged
      ensures Valid() && -1 <= r <= n && i < |inodes| && NoHoles(sb, Img(), i) && (r == n ==> torn == 0)
      ensures r == -1 <==> off > old(inodes[i].size) || off + n > MAXFILE * BSIZE
      ensures r == -1 ==> Img() == old(Img()) && torn == 0
      ensures r == n ==> n <= readable
      ensures -1 < r < n ==> readable < n || Full(sb, Img())
      ensures r != -1 ==> r + torn <= n && TornWritten(sb, old(Img()), Img(), i, off, src[..r], src[r..r + torn])
      ensures r == n ==> FileWritten(sb, old(Img()), Img(), i, off, src[..r])
      ensures r != -1 ==> off + r <= inodes[i].size <= MAXFILE * BSIZE
      ensures |logged| <= 6 + BitmapBlocks(sb)
      ensures Carries(sb, old(Img()), Img(), logged, TornBlock(sb, Img(), i, if r == -1 then off else off + r, torn))
      ensures r != -1 ==> IBlock(sb, i) in logged && DataLogged(sb, Img(), i, off, r, logged)
    {
      hide Ref, RefOk, Used, FileData, Overlay, NoHoles, FileWritten, DataLogged, TornUnlogged, IBlock, Carries;
      logged := {};
      r, torn := Writei(i, src, readable, off, n);
      if r == -1 {
        torn := 0;
        CarriesNothing(Img(), logged);
      } else {
        assert {} + {IBlock(sb, i)} == {IBlock(sb, i)};
        ChunkLogs(sb, Img(), i, off, n, IBlock(sb, i), logged);
      }
    }

    lemma CarriesNothing(img: Image, logged: set<int>)
      ensures Carries(sb, img, img, logged, {})
    {
    }

    /**
      How filewrite ends, at offset off: a prefix of src is written, with the torn
      bytes of a failed copy behind it. All of src is, if it is in range and can be
      read and the disk does not fill up. There is one transaction for every
      three blocks, each logging at most 6 blocks besides the bitmap and what it
      changed but for the torn block; committed in turn, they put the file on disk.
     */
    ghost predicate Ended(img: Image, img': Image, i: nat, src: seq<byte>, readable: nat, pos: nat, n: int, off: nat, torn: nat,
                          transactions: seq<set<int>>, images: seq<Image>)
      requires Inv(sb, img) && i < |img.inodes|
    {
      var size := img.inodes[i].size;
      && Inv(sb, img') && i < |img'.inodes| && pos <= off && off - pos + torn <= |src| && (off - pos == n ==> torn == 0)
      && (pos > size ==> img' == img && off == pos)
      && (pos <= size ==> TornWritten(sb, img, img', i, pos, src[..off - pos], src[off - pos..off - pos + torn]))
      && (pos <= size && torn == 0 ==> FileWritten(sb, img, img', i, pos, src[..off - pos]))
      && (off - pos == n > 0 ==> pos <= size && pos + n <= MAXFILE * BSIZE && n <= readable)
      && (off - pos != n ==> n < 0 || pos > size || pos + n > MAXFILE * BSIZE || readable < n || Full(sb, img'))
      && (off - pos == n ==> |transactions| == (n + 3071) / 3072)
      && History(img, img', transactions, images, TornBlock(sb, img', i, off, torn))
      && (torn == 0 ==> OnDisk(sb, images, transactions, |transactions|) == img')
    }

    /** filewrite on an inode: writes src at offset `pos` in chunks of at most three blocks, and returns n or -1 and the new offset. */
    method Filewrite(i: nat, src: seq<byte>, readable: nat, pos: nat, n: int)
      returns (ret: int, off: nat, ghost torn: nat, ghost transactions: seq<set<int>>, ghost images: seq<Image>)
      requires Valid() && i < |inodes| && NoHoles(sb, Img(), i)
      requires pos < UINT && n < UINT && n <= |src|
      modifies this`blocks, this`inodes, this`logged
      ensures Valid() && Ended(old(Img()), Img(), i, src, readable, pos, n, off, torn, transactions, images)
      ensures ret == if off - pos == n then n else -1
    {
      hide Inv, NoHoles, Chunks, Ended;
      var k := 0;
      off, torn, transactions, images := pos, 0, [], [Img()];
      ghost var img := Img();
      ChunksStart(img, i, src, readable, pos, n);
      while k < n
        invariant 0 <= k && (k <= n || k == 0) && off == pos + k && torn == 0
        invariant Chunks(img, Img(), i, src, readable, pos, n, k, transactions, images)
      {
        var r, done;
        r, done, torn, transactions, images := WriteNext(i, src, readable, pos, n, k, img, transactions, images);
        if r > 0 { off := off + r; }
        if !done { return -1, off, torn, transactions, images; }
        k := k + r;
      }
      ChunksEnd(img, Img(), i, src, readable, pos, n, k, transactions, images);
      ret := if k == n then n else -1;
    }

    /** The loop's state after k bytes. */
    ghost predicate Chunks(img: Image, img': Image, i: nat, src: seq<byte>, readable: nat, pos: nat, n: int, k: nat,
                           transactions: seq<set<int>>, images: seq<Image>)
      requires Inv(sb, img) && i < |img.inodes|
    {
      var size := img.inodes[i].size;
      && Inv(sb, img') && i < |img'.inodes| && NoHoles(sb, img', i) && (k <= n || k == 0) && n <= |src| && pos + k < UINT
      && (k > 0 ==> pos <= size && pos + k <= MAXFILE * BSIZE && k <= readable)
      && (pos > size ==> k == 0 && img' == img)
      && (pos <= size ==> FileWritten(sb, img, img', i, pos, src[..k]) && pos + k <= img'.inodes[i].size)
      && Chunked(|transactions|, k, n) && History(img, img', transactions, images, {})
    }

    lemma ChunksStart(img: Image, i: nat, src: seq<byte>, readable: nat, pos: nat, n: int)
      requires Inv(sb, img) && i < |img.inodes| && NoHoles(sb, img, i) && n <= |src| && pos < UINT
      ensures Chunks(img, img, i, src, readable, pos, n, 0, [], [img])
    {
      hide Ref, RefOk, Used, NoHoles, FileWritten, History, Chunked;
      HistoryStarts(img);
      ChunkedNone(n);
      NothingWritten(img, i, pos);
    }

    lemma ChunksEnd(img: Image, img': Image, i: nat, src: seq<byte>, readable: nat, pos: nat, n: int, k: nat,
                    transactions: seq<set<int>>, images: seq<Image>)
      requires Inv(sb, img) && i < |img.inodes| && Chunks(img, img', i, src, readable, pos, n, k, transactions, images) && k >= n
      ensures Ended(img, img', i, src, readable, pos, n, pos + k, 0, transactions, images) && Inv(sb, img')
      ensures 0 <= n ==> k == n
    {
      hide Ref, RefOk, Used, NoHoles, FileWritten, TornWritten, History, Chunked, OnDisk;
      assert pos + k - pos == k && src[k..k] == [];
      if pos <= img.inodes[i].size { TornNothing(sb, img, img', i, pos, src[..k]); }
      NoTornBlock(img', i, pos + k);
      HistoryEnds(img, img', transactions, images);
      if k == n { ChunkedAll(|transactions|, n); }
    }

    /** One turn of the loop: r bytes more, or its end. */
    method WriteNext(i: nat, src: seq<byte>, readable: nat, pos: nat, n: int, k: nat, ghost img: Image,
                     ghost was: seq<set<int>>, ghost before: seq<Image>)
      returns (r: int, done: bool, ghost torn: nat, ghost transactions: seq<set<int>>, ghost images: seq<Image>)
      requires Inv(sb, img) && i < |img.inodes| && Chunks(img, Img(), i, src, readable, pos, n, k, was, before) && k < n < UINT
      modifies this`blocks, this`inodes, this`logged
      ensures done ==> 0 < r <= n - k && torn == 0 && Chunks(img, Img(), i, src, readable, pos, n, k + r, transactions, images)
      ensures !done ==> r < n - k && Valid()
      ensures !done ==> Ended(img, Img(), i, src, readable, pos, n, if r > 0 then pos + k + r else pos + k, torn, transactions, images)
    {
      hide Ref, RefOk, Used, NoHoles, FileData, FileWritten, TornWritten, Carries, History, DataLogged, TornBlock, OnDisk, Chunked, Full, Ended;
      var max := (LogSpec.MAXOPBLOCKS - 1 - 1 - 2) / 2 * BSIZE;
      var n1 := Min(n - k, max);
      ghost var mid := Img();
      r, torn := WriteTransaction(i, src[k..], if readable < k then 0 else readable - k, pos + k, n1);
      ghost var off := if r > 0 then pos + k + r else pos + k;
      transactions, images := was + [logged], before + [Img()];
      HistoryNext(img, mid, Img(), was, before, logged, TornBlock(sb, Img(), i, off, torn));
      NoTornBlock(Img(), i, off);
      if r != -1 { Appended(img, mid, i, pos, src, k, r, torn); }
      done := r == n1;
      if done {
        ChunkedNext(|was|, k, n);
      } else {
        StoppedShort(img, mid, Img(), i, src, readable, pos, n, k, r, n1, torn, transactions, images);
      }
    }

    lemma StoppedShort(img: Image, mid: Image, img': Image, i: nat, src: seq<byte>, readable: nat, pos: nat, n: int, k: nat, r: int, n1: nat,
                       torn: nat, transactions: seq<set<int>>, images: seq<Image>)
      requires Inv(sb, img) && i < |img.inodes| && Inv(sb, img') && i < |img'.inodes| && Inv(sb, mid) && i < |mid.inodes|
      requires n1 == Min(n - k, 3 * BSIZE) && -1 <= r < n1 && k < n <= |src| && (r == -1 ==> torn == 0) && (r != -1 ==> r + torn <= n1)
      requires r == -1 <==> pos + k > mid.inodes[i].size || pos + k + n1 > MAXFILE * BSIZE
      requires r == -1 ==> img' == mid
      requires pos > img.inodes[i].size ==> k == 0 && mid == img
      requires pos <= img.inodes[i].size ==> FileWritten(sb, img, mid, i, pos, src[..k]) && pos + k <= mid.inodes[i].size
      requires r > -1 ==> (if readable < k then 0 else readable - k) < n1 || Full(sb, img')
      requires r != -1 && pos <= img.inodes[i].size ==> TornWritten(sb, img, img', i, pos, src[..k + r], src[k + r..k + r + torn])
      requires r != -1 && pos <= img.inodes[i].size && torn == 0 ==> FileWritten(sb, img, img', i, pos, src[..k + r])
      requires History(img, img', transactions, images, TornBlock(sb, img', i, if r > 0 then pos + k + r else pos + k, torn))
      requires TornBlock(sb, img', i, if r > 0 then pos + k + r else pos + k, 0) == {}
      ensures Ended(img, img', i, src, readable, pos, n, if r > 0 then pos + k + r else pos + k, torn, transactions, images)
    {
      hide Ref, RefOk, Used, NoHoles, FileData, FileWritten, TornWritten, History, TornBlock, OnDisk, Full;
      assert src[k..k] == [] && src[..k + 0] == src[..k];
      if r == -1 && pos <= img.inodes[i].size { TornNothing(sb, img, img', i, pos, src[..k]); }
      if torn == 0 { HistoryEnds(img, img', transactions, images); }
    }

    /** So many transactions for k bytes, all but the last of three blocks. */
    predicate Chunked(transactions: nat, k: nat, n: int) {
      transactions == (k + 3071) / 3072 && (k == n || k % 3072 == 0)
    }

    lemma ChunkedNone(n: int)
      ensures Chunked(0, 0, n)
    {
    }

    lemma ChunkedAll(transactions: nat, n: nat)
      requires Chunked(transactions, n, n)
      ensures transactions == (n + 3071) / 3072
    {
    }

    lemma ChunkedNext(transactions: nat, k: nat, n: int)
      requires k < n && Chunked(transactions, k, n)
      ensures Chunked(transactions + 1, k + Min(n - k, 3072), n)
    {
    }

    /** The images between the transactions: each transaction within the bound, and carrying its step but for `but` at last. */
    ghost predicate History(img: Image, img': Image, transactions: seq<set<int>>, images: seq<Image>, but: set<int>) {
      && |images| == |transactions| + 1 && images[0] == img && images[|transactions|] == img'
      && (forall k :: 0 <= k < |transactions| ==> |transactions[k]| <= 6 + BitmapBlocks(sb))
      && AllCarried(sb, images, transactions, but)
    }

    lemma HistoryStarts(img: Image)
      ensures History(img, img, [], [img], {})
    {
    }

    lemma HistoryNext(img: Image, mid: Image, img': Image, transactions: seq<set<int>>, images: seq<Image>, logged: set<int>, but: set<int>)
      requires History(img, mid, transactions, images, {}) && Carries(sb, mid, img', logged, but) && |logged| <= 6 + BitmapBlocks(sb)
      ensures History(img, img', transactions + [logged], images + [img'], but)
    {
      hide Carries, AllCarried;
      AllCarriedNext(sb, images, transactions, img', logged, but);
    }

    lemma HistoryEnds(img: Image, img': Image, transactions: seq<set<int>>, images: seq<Image>)
      requires History(img, img', transactions, images, {})
      ensures |images| == |transactions| + 1 && OnDisk(sb, images, transactions, |transactions|) == img'
    {
      hide AllCarried;
      CarriedToDisk(sb, images, transactions, |transactions|);
    }

    lemma NoTornBlock(img: Image, i: nat, end: nat)
      requires Sane(sb, img) && i < |img.inodes|
      ensures TornBlock(sb, img, i, end, 0) == {}
    {
    }

    /** One more transaction's bytes behind those written so far. */
    lemma Appended(img: Image, mid: Image, i: nat, pos: nat, src: seq<byte>, k: nat, r: nat, torn: nat)
      requires Inv(sb, img) && i < |img.inodes| && pos <= img.inodes[i].size && k + r + torn <= |src|
      requires FileWritten(sb, img, mid, i, pos, src[..k]) && pos + k <= mid.inodes[i].size
      requires TornWritten(sb, mid, Img(), i, pos + k, src[k..][..r], src[k..][r..r + torn])
      ensures TornWritten(sb, img, Img(), i, pos, src[..k + r], src[k + r..k + r + torn])
      ensures torn == 0 ==> FileWritten(sb, img, Img(), i, pos, src[..k + r])
    {
      hide Ref, RefOk, Used, NoHoles, FileData, FileWritten, TornWritten, Sane;
      WrittenTwice(sb, img, mid, Img(), i, pos, src[..k], src[k..][..r], src[k..][r..r + torn]);
      assert src[..k] + src[k..][..r] == src[..k + r];
      assert src[k..][r..r + torn] == src[k + r..k + r + torn];
      TornNothing(sb, img, Img(), i, pos, src[..k + r]);
      assert torn == 0 ==> src[k + r..k + r + torn] == [];
    }

    lemma NothingWritten(img: Image, i: nat, off: nat)
      requires Inv(sb, img) && i < |img.inodes|
      ensures off <= img.inodes[i].size ==> FileWritten(sb, img, img, i, off, [])
    {
      hide Ref, RefOk, Used, NoHoles, FileData;
      if off <= img.inodes[i].size {
        assert Overlay(FileData(sb, img, i), off, []) == FileData(sb, img, i);
      }
    }
  }

  // ----- a write that tears -----

  function OnesBlock(): (b: Block)
    ensures forall i :: 0 <= i < BSIZE ==> b[i] == 255
  {
    seq(BSIZE, _ => 255)
  }

  /** Three blocks, the second of them the bitmap, all taken; one file of two zero bytes in the third. */
  function SmallSuper(): Super {
    Super(3, 0, 1, 2)
  }

  function SmallImage(): Image {
    Image([ZeroBlock(), OnesBlock(), ZeroBlock()], [Inode([2] + seq(NDIRECT, _ => 0), 2)])
  }

  lemma {:induction false} AllBits(x: nat, k: nat)
    requires k < 8 && x + 1 == Mask(8 - k)
    ensures forall j :: 0 <= j < 8 - k ==> Bit(x, j)
    decreases 8 - k
  {
    forall j | 0 <= j < 8 - k
      ensures Bit(x, j)
    {
      if j > 0 {
        assert x / 2 + 1 == Mask(7 - k);
        AllBits(x / 2, k + 1);
      }
    }
  }

  lemma SmallImageOk()
    ensures Inv(SmallSuper(), SmallImage()) && NoHoles(SmallSuper(), SmallImage(), 0)
    ensures FileData(SmallSuper(), SmallImage(), 0) == [0, 0] && DataRef(SmallSuper(), SmallImage(), 0, 0) == 2
  {
    var sb, img := SmallSuper(), SmallImage();
    assert Sane(sb, img);
    assert Mask(8) == 256 by { assert Mask(4) == 16; }
    AllBits(255, 0);
    forall c | 0 <= c < sb.size
      ensures Used(sb, img.blocks, c)
    {
      assert BBlock(sb, c) == 1;
    }
    hide Used, Bit, Mask;
    assert forall k :: 0 <= k < NREFS ==> Ref(sb, img, 0, k) == if k == 0 then 2 else 0;
    hide Ref;
    assert Inv(sb, img);
    assert FileData(sb, img, 0) == [0, 0];
  }

  lemma TornBytes(sb: Super, img: Image, img': Image, r: nat, torn: nat)
    requires Inv(sb, img) && |img.inodes| == 1 && NoHoles(sb, img, 0) && FileData(sb, img, 0) == [0, 0]
    requires r + torn <= 2 && TornWritten(sb, img, img', 0, 0, [7, 9][..r], [7, 9][r..r + torn])
    requires (r < 2 && DataRef(sb, img', 0, r / BSIZE) == 0) || (r + torn == 1 && torn == 1)
    ensures r == 0 && torn == 1 && |img'.inodes| == 1 && img'.inodes[0].size == 2 && NoHoles(sb, img', 0)
    ensures FileData(sb, img', 0) == [7, 0]
  {
    hide FileData, Ref, RefOk, Used;
    assert |FileData(sb, img', 0)| >= 2;
    assert r < 2 ==> DataRef(sb, img', 0, 0) != 0;
    assert [7, 9][..0] + [7, 9][0..1] == [7];
    assert Overlay([0, 0], 0, [7]) == [7, 0];
  }

  /**
    Two bytes are written of which only the first can be copied: no byte is
    reported as written, only the inode is logged, and a read finds the first.
   */
  method TearWrite() returns (fs: FileSystem, r: int, got: seq<byte>)
    ensures fresh(fs) && fs.Valid() && r == 0 && got == [7, 0] && fs.logged == {0}
  {
    SmallImageOk();
    assert |SmallImage().inodes| == 1 && SmallSuper().inodestart == 0;
    hide Inv, NoHoles, FileData, Ref, SmallImage, SmallSuper, FileWritten, Shows, LogsWithin, Used, Overlay, Carries, DataLogged, TornBlock, FileSystem.TornUnlogged;
    fs := new FileSystem(SmallSuper(), SmallImage().blocks, SmallImage().inodes);
    ghost var img, torn := fs.Img(), 0;
    r, torn := fs.Writei(0, [7, 9], 1, 0, 2);
    TornBytes(fs.sb, img, fs.Img(), r, torn);
    var m;
    m, got := fs.Readi(0, 2, 0, 2);
  }
}
