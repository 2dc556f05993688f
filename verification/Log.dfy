/**
  The code of log.c that moves blocks: log_write, write_log, write_head,
  install_trans, commit and recover_from_log, as loops over the buffer cache and
  the disk. `trace` records the disk after every block write, so that the
  theorems of LogSpec apply to a crash between any two of them.
 */
module Log {
  import opened LogSpec

  datatype LogWriteResult = Done | TooBig | OutsideTransaction

  lemma TracesAppend(a: seq<Disk>, b: seq<Disk>, c: seq<Disk>, d: seq<Disk>, e: seq<Disk>)
    ensures (((a + b) + c) + d) + e == a + (b + c + d + e)
  {
  }

  /** The logged blocks are listed once each, cached and pinned. */
  ghost predicate Listed(blocks: seq<int>, cache: map<int, Block>, pinned: set<int>) {
    && (forall i, j :: 0 <= i < j < |blocks| ==> blocks[i] != blocks[j])
    && (forall i :: 0 <= i < |blocks| ==> blocks[i] in cache)
    && pinned == (set b | b in blocks)
  }

  lemma ListedMore(blocks: seq<int>, cache: map<int, Block>, pinned: set<int>, b: int, data: Block)
    requires Listed(blocks, cache, pinned)
    ensures b in blocks ==> Listed(blocks, cache[b := data], pinned)
    ensures b !in blocks ==> Listed(blocks + [b], cache[b := data], pinned + {b})
  {
  }

  class LogState {
    const L: Layout
    const block: array<int>          // lh.block
    var n: nat                       // lh.n
    var outstanding: nat
    var disk: Disk
    var cache: map<int, Block>       // the valid buffers of the cache
    var pinned: set<int>             // blocks whose buffer log_write has pinned
    ghost var trace: seq<Disk>       // the disk after each block write so far

    ghost predicate Shape()
      reads this, block
    {
      && L.Valid() && block.Length == LOGSIZE && |disk| == L.total
      && n <= L.Capacity()
      && AllHome(L, block[..n])
      && forall b :: b in cache ==> 0 <= b < L.total
    }

    /** Every cached block outside `dirty` agrees with the disk. */
    ghost predicate CleanBut(dirty: seq<int>)
      requires Shape()
      reads this, block
    {
      forall b :: b in cache && b !in dirty ==> cache[b] == disk[b]
    }

    /** Between operations: exactly the logged blocks are pinned, cached and possibly dirty. */
    ghost predicate Valid()
      reads this, block
    {
      && Shape()
      && CleanBut(block[..n])
      && Listed(block[..n], cache, pinned)
    }

    /** The transaction that commit would write now. */
    ghost function Pending(): (t: Txn)
      requires Valid()
      reads this, block
      ensures t.Valid(L)
    {
      Txn(block[..n], ContentsOf(cache, block[..n]))
    }

    /** What bread returns for block b. */
    ghost function View(b: int): Block
      requires Shape() && 0 <= b < L.total
      reads this, block
    {
      if b in cache then cache[b] else disk[b]
    }

    constructor (layout: Layout, d: Disk)
      requires layout.Valid() && |d| == layout.total
      ensures L == layout && disk == d && cache == map[] && Valid() && n == 0 && trace == []
      ensures fresh(block)
    {
      L := layout;
      block := new int[LOGSIZE];
      n, outstanding, disk, cache, pinned, trace := 0, 0, d, map[], {}, [];
    }

    method Bread(b: int) returns (data: Block)
      requires Shape() && 0 <= b < L.total
      modifies this`cache
      ensures data == old(View(b))
      ensures cache == old(cache)[b := data]
    {
      if b !in cache {
        cache := cache[b := disk[b]];
      }
      data := cache[b];
    }

    method Bwrite(b: int, data: Block)
      requires Shape() && 0 <= b < L.total
      modifies this`cache, this`disk, this`trace
      ensures cache == old(cache)[b := data] && disk == old(disk)[b := data]
      ensures trace == old(trace) + [disk]
    {
      cache := cache[b := data];
      disk := disk[b := data];
      trace := trace + [disk];
    }

    /** log_write, called with the new contents of the buffer for block b. */
    method LogWrite(b: int, data: Block) returns (r: LogWriteResult)
      requires Valid() && L.Home(b)
      modifies this`n, this`cache, this`pinned, block
      ensures Valid()
      ensures r == TooBig <==> old(n) >= LOGSIZE || old(n) >= L.size - 1
      ensures r == OutsideTransaction <==> r != TooBig && outstanding < 1
      ensures r == Done ==> Pending() == Absorbed(old(Pending()), b, data)
      ensures r != Done ==> cache == old(cache) && Pending() == old(Pending())
    {
      hide Absorbed, ContentsOf, Listed;
      if n >= LOGSIZE || n >= L.size - 1 { return TooBig; }
      if outstanding < 1 { return OutsideTransaction; }
      var i := Find(b);
      ListedMore(block[..n], cache, pinned, b, data);
      Absorb(block[..n], b, data, i);
      Record(i, b, data);
      r := Done;
    }

    /** The stores of log_write. */
    method Record(i: nat, b: int, data: Block)
      requires Shape() && L.Home(b) && n < L.Capacity() && CleanBut(block[..n])
      requires i <= n && (i < n ==> block[i] == b)
      modifies this`n, this`cache, this`pinned, block
      ensures Shape() && CleanBut(block[..n])
      ensures block[..n] == if i < old(n) then old(block[..n]) else old(block[..n]) + [b]
      ensures cache == old(cache)[b := data] && pinned == if i < old(n) then old(pinned) else old(pinned) + {b}
    {
      ghost var was := block[..n];
      cache := cache[b := data];
      block[i] := b;
      if i == n {
        pinned := pinned + {b};
        n := n + 1;
        assert block[..n] == was + [b];
      } else {
        assert block[..n] == was;
        assert was[i] == b;
      }
    }

    lemma Absorb(was: seq<int>, b: int, data: Block, i: nat)
      requires Listed(was, cache, pinned) && i <= |was| && b !in was[..i] && (i < |was| ==> was[i] == b)
      ensures
        var blocks' := if i < |was| then was else was + [b];
        && (i < |was| <==> b in was) && (forall j :: 0 <= j < |blocks'| ==> blocks'[j] in cache[b := data])
        && Absorbed(Txn(was, ContentsOf(cache, was)), b, data) == Txn(blocks', ContentsOf(cache[b := data], blocks'))
    {
      assert was[..|was|] == was;
      AbsorbedContents(cache, was, b, data, i);
    }

    /** The absorption scan of log_write. */
    method Find(b: int) returns (i: nat)
      requires Shape()
      ensures i <= n && b !in block[..i] && (i < n ==> block[i] == b)
    {
      i := 0;
      while i < n
        invariant 0 <= i <= n && b !in block[..i]
      {
        if block[i] == b { break; }
        i := i + 1;
      }
    }

    /** One turn of write_log's loop. */
    method CopyToLog(tail: nat)
      requires Valid() && tail < n
      modifies this`cache, this`disk, this`trace
      ensures Valid() && Pending() == old(Pending())
      ensures disk == old(disk)[L.start + tail + 1 := Pending().contents[tail]]
      ensures trace == old(trace) + [disk]
    {
      ghost var t := Pending();
      var to := Bread(L.start + tail + 1);
      var from := Bread(block[tail]);
      to := from;
      Bwrite(L.start + tail + 1, to);
      assert Pending().contents == t.contents;
    }

    method WriteLog()
      requires Valid()
      modifies this`cache, this`disk, this`trace
      ensures Valid() && Pending() == old(Pending())
      ensures disk == Logged(L, old(disk), Pending(), n)
      ensures trace == old(trace) + LogTrace(L, old(disk), Pending(), n)
    {
      hide CleanBut, ContentsOf, AllHome;
      ghost var t, d := Pending(), disk;
      var tail := 0;
      while tail < n
        invariant 0 <= tail <= n
        invariant Valid() && Pending() == t
        invariant disk == Logged(L, d, t, tail)
        invariant trace == old(trace) + LogTrace(L, d, t, tail)
      {
        CopyToLog(tail);
        tail := tail + 1;
      }
    }

    /** write_head, for any state of the in-memory header. */
    method WriteHead()
      requires Shape() && CleanBut(block[..n])
      modifies this`cache, this`disk, this`trace
      ensures Shape() && CleanBut(block[..n])
      ensures disk == WithHeader(L, old(disk), block[..n])
      ensures disk[L.start][0] == n && disk[L.start][1..1 + n] == block[..n]
      ensures trace == old(trace) + [disk]
    {
      var hb := Bread(L.start);
      ghost var was := hb;
      hb := hb[0 := n];
      var i := 0;
      while i < n
        invariant 0 <= i <= n
        invariant hb == [n] + block[..i] + was[1 + i..]
      {
        hb := hb[1 + i := block[i]];
        i := i + 1;
      }
      Bwrite(L.start, hb);
    }

    /** The end of commit and of recovery: log.lh.n = 0, then write_head. */
    method Clear()
      requires Shape() && CleanBut([]) && pinned == {}
      modifies this`n, this`cache, this`disk, this`trace
      ensures Valid() && n == 0
      ensures disk == WithHeader(L, old(disk), [])
      ensures trace == old(trace) + [disk]
    {
      n := 0;
      assert block[..n] == [];
      WriteHead();
    }

    method ReadHead()
      requires Shape() && CleanBut([]) && WellFormed(L, disk)
      modifies this`cache, this`n, block
      ensures Shape() && CleanBut([])
      ensures block[..n] == Targets(L, disk) && n == disk[L.start][0] && block[..n] == disk[L.start][1..1 + n]
    {
      var lh := Bread(L.start);
      n := lh[0];
      ghost var c := cache;
      var i := 0;
      while i < n
        invariant cache == c
        invariant 0 <= i <= n == lh[0]
        invariant forall j :: 0 <= j < i ==> block[j] == lh[1 + j]
      {
        block[i] := lh[1 + i];
        i := i + 1;
      }
      assert block[..n] == lh[1..1 + n];
    }

    /** One turn of install_trans's loop; `rest` is what is still to be installed. */
    method InstallOne(tail: nat, recovering: bool, ghost rest: seq<int>)
      requires Shape() && tail < n && CleanBut([block[tail]] + rest) && AllHome(L, rest)
      modifies this`cache, this`disk, this`trace, this`pinned
      ensures Shape() && CleanBut(rest)
      ensures disk == old(disk)[block[tail] := old(disk)[L.start + tail + 1]]
      ensures trace == old(trace) + [disk]
      ensures pinned == if recovering then old(pinned) else old(pinned) - {block[tail]}
    {
      var lbuf := Bread(L.start + tail + 1);
      var dbuf := Bread(block[tail]);
      dbuf := lbuf;
      Bwrite(block[tail], dbuf);
      if !recovering { pinned := pinned - {block[tail]}; }
    }

    method InstallTrans(recovering: bool)
      requires Shape() && CleanBut(block[..n])
      modifies this`cache, this`disk, this`trace, this`pinned
      ensures Shape() && CleanBut([])
      ensures disk == Installed(L, old(disk), block[..n], n)
      ensures trace == old(trace) + InstallTrace(L, old(disk), block[..n], n)
      ensures pinned == if recovering then old(pinned) else old(pinned) - (set b | b in block[..n])
    {
      ghost var d, ts := disk, block[..n];
      var tail := 0;
      while tail < n
        invariant 0 <= tail <= n
        invariant Shape() && CleanBut(ts[tail..])
        invariant disk == Installed(L, d, ts, tail)
        invariant trace == old(trace) + InstallTrace(L, d, ts, tail)
        invariant pinned == if recovering then old(pinned) else old(pinned) - (set b | b in ts[..tail])
      {
        assert ts[tail..] == [ts[tail]] + ts[tail + 1..];
        assert ts[..tail + 1] == ts[..tail] + [ts[tail]];
        InstallOne(tail, recovering, ts[tail + 1..]);
        tail := tail + 1;
      }
      assert ts[..n] == ts;
    }

    /** The four calls of commit for a log that is not empty. */
    method CommitBlocks()
      requires Valid() && WellFormed(L, disk) && n > 0
      modifies this`n, this`cache, this`disk, this`trace, this`pinned
      ensures Valid() && n == 0 && pinned == {}
      ensures disk == CommitState(L, old(disk), old(Pending()), CommitWrites(old(n)))
      ensures trace == old(trace) + CommitTrace(L, old(disk), old(Pending()))
    {
      ghost var d, t, bs, tr := disk, Pending(), block[..n], trace;
      WriteLog();
      WriteHead();
      ghost var c := disk;
      assert c == Committed(L, d, t);
      InstallTrans(false);
      assert block[..n] == bs;
      Clear();
      TracesAppend(tr, LogTrace(L, d, t, |bs|), [c], InstallTrace(L, c, bs, |bs|), [disk]);
    }

    /**
      Every disk that commit passes through is in CommitTrace; from a disk with an
      empty header, each recovers to the old home blocks or to all of the new ones.
     */
    method Commit()
      requires Valid() && WellFormed(L, disk)
      modifies this`n, this`cache, this`disk, this`trace, this`pinned
      ensures Valid() && n == 0 && pinned == {}
      ensures disk == CommitState(L, old(disk), old(Pending()), CommitWrites(old(n)))
      ensures trace == old(trace) + CommitTrace(L, old(disk), old(Pending()))
      ensures HeadCount(L, old(disk)) == 0 ==> forall i :: |old(trace)| <= i < |trace| ==>
        RecoversTo(L, trace[i], old(disk), Updated(L, old(disk), old(Pending())))
    {
      hide RecoversTo, Recovered, Updated;
      if HeadCount(L, disk) == 0 { CommitTraceRecovers(L, disk, Pending()); }
      if n > 0 { CommitBlocks(); }
    }

    /** Every disk that recovery passes through is in RecoveryTrace. */
    method RecoverFromLog()
      requires Shape() && CleanBut([]) && WellFormed(L, disk) && pinned == {}
      modifies this`n, this`cache, this`disk, this`trace, this`pinned, block
      ensures Valid() && n == 0
      ensures disk == Recovered(L, old(disk))
      ensures trace == old(trace) + RecoveryTrace(L, old(disk))
      ensures forall i :: |old(trace)| <= i < |trace| ==>
        RecoversTo(L, trace[i], Recovered(L, old(disk)), Recovered(L, old(disk)))
    {
      hide RecoversTo;
      RecoveryTraceRecovers(L, disk);
      ReadHead();
      InstallTrans(true);
      Clear();
    }
  }
}
