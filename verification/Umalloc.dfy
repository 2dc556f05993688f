/**
  The user allocator of umalloc.c: a circular free list in address order, in
  units of one Header. The list starts at `base`, an empty block below the heap.
 */
module Umalloc {

  const HEADER := 16           // sizeof(Header)
  const MINUNITS := 4096       // morecore's least request
  const SBRKMAX := 0x8000_0000 // sbrk takes an int

  /** A block of `size` units whose header is at `addr`. */
  datatype Blk = Blk(addr: nat, size: nat) {
    function End(): nat { addr + size }
  }

  function Next(n: nat, k: nat): nat {
    if k + 1 < n then k + 1 else 0
  }

  /** The free list in address order: base first, then blocks that neither overlap nor touch. */
  ghost predicate Ordered(base: nat, blocks: seq<Blk>) {
    && |blocks| > 0 && blocks[0] == Blk(base, 0) && 0 < base
    && (forall k :: 1 <= k < |blocks| ==> blocks[k].size > 0)
    && (forall j, k :: 0 <= j < k < |blocks| ==> blocks[j].End() < blocks[k].addr)
  }

  ghost function First(run: seq<Blk>, after: nat): nat {
    if run == [] then after else run[0].addr
  }

  /** A run of headers in memory, each pointing to the next and the last one to `after`. */
  ghost predicate Run(ptr: map<nat, nat>, size: map<nat, nat>, run: seq<Blk>, after: nat) {
    run == [] ||
    (&& run[0].addr in ptr && run[0].addr in size
     && size[run[0].addr] == run[0].size && ptr[run[0].addr] == First(run[1..], after)
     && Run(ptr, size, run[1..], after))
  }

  /** The headers in memory are those of the circular list. */
  ghost predicate Stored(ptr: map<nat, nat>, size: map<nat, nat>, blocks: seq<Blk>)
    requires |blocks| > 0
  {
    Run(ptr, size, blocks, blocks[0].addr)
  }

  lemma {:induction false} RunAt(ptr: map<nat, nat>, size: map<nat, nat>, run: seq<Blk>, after: nat, k: nat)
    requires Run(ptr, size, run, after) && k < |run|
    ensures run[k].addr in ptr && run[k].addr in size && size[run[k].addr] == run[k].size
    ensures ptr[run[k].addr] == if k + 1 < |run| then run[k + 1].addr else after
  {
    if k > 0 { RunAt(ptr, size, run[1..], after, k - 1); }
  }

  lemma {:induction false} RunJoin(ptr: map<nat, nat>, size: map<nat, nat>, a: seq<Blk>, b: seq<Blk>, after: nat)
    ensures Run(ptr, size, a + b, after) <==> Run(ptr, size, a, First(b, after)) && Run(ptr, size, b, after)
  {
    if a == [] {
      assert a + b == b;
    } else {
      assert (a + b)[1..] == a[1..] + b;
      RunJoin(ptr, size, a[1..], b, after);
    }
  }

  lemma {:induction false} RunFrame(ptr: map<nat, nat>, size: map<nat, nat>, ptr': map<nat, nat>, size': map<nat, nat>, run: seq<Blk>, after: nat)
    requires Run(ptr, size, run, after)
    requires forall k :: 0 <= k < |run| && run[k].addr in ptr ==> run[k].addr in ptr' && ptr'[run[k].addr] == ptr[run[k].addr]
    requires forall k :: 0 <= k < |run| && run[k].addr in size ==> run[k].addr in size' && size'[run[k].addr] == size[run[k].addr]
    ensures Run(ptr', size', run, after)
  {
    if run != [] {
      assert forall k :: 0 <= k < |run[1..]| ==> run[1..][k] == run[k + 1];
      RunFrame(ptr, size, ptr', size', run[1..], after);
    }
  }

  ghost predicate Apart(a: Blk, b: Blk) {
    a.End() <= b.addr || b.End() <= a.addr
  }

  ghost function Units(blocks: seq<Blk>): nat {
    if blocks == [] then 0 else Units(blocks[..|blocks| - 1]) + blocks[|blocks| - 1].size
  }

  lemma {:induction false} UnitsAppend(a: seq<Blk>, b: seq<Blk>)
    ensures Units(a + b) == Units(a) + Units(b)
  {
    if b == [] {
      assert a + b == a;
    } else {
      assert (a + b)[..|a + b| - 1] == a + b[..|b| - 1];
      UnitsAppend(a, b[..|b| - 1]);
    }
  }

  lemma UnitsOne(b: Blk)
    ensures Units([b]) == b.size
  {
    assert [b][..0] == [];
  }

  // ----- free -----

  /** Block k is the last one below b: where free's search has to stop. */
  ghost predicate Place(blocks: seq<Blk>, b: Blk, k: int) {
    && 0 <= k < |blocks| && blocks[k].End() <= b.addr
    && (k + 1 < |blocks| ==> b.End() <= blocks[k + 1].addr)
  }

  function Inserted(blocks: seq<Blk>, b: Blk, k: nat): seq<Blk>
    requires k < |blocks|
  {
    blocks[..k + 1] + [b] + blocks[k + 1..]
  }

  /** Blocks j and j + 1 joined if they touch. */
  function Merged(blocks: seq<Blk>, j: nat): seq<Blk> {
    if j + 1 < |blocks| && blocks[j].End() == blocks[j + 1].addr then
      blocks[..j] + [Blk(blocks[j].addr, blocks[j].size + blocks[j + 1].size)] + blocks[j + 2..]
    else blocks
  }

  /** The list with b put back after block k, merged with the upper and then the lower neighbour. */
  function Freed(blocks: seq<Blk>, b: Blk, k: nat): seq<Blk>
    requires k < |blocks|
  {
    Merged(Merged(Inserted(blocks, b, k), k + 1), k)
  }

  /** Ordered, except that blocks at positions in `loose` may touch their successor. */
  ghost predicate Loosely(base: nat, blocks: seq<Blk>, loose: set<int>) {
    && |blocks| > 0 && blocks[0] == Blk(base, 0) && 0 < base
    && (forall k :: 1 <= k < |blocks| ==> blocks[k].size > 0)
    && (forall j, k :: 0 <= j < k < |blocks| ==> blocks[j].End() <= blocks[k].addr)
    && (forall j :: 0 <= j < |blocks| - 1 && j !in loose ==> blocks[j].End() < blocks[j + 1].addr)
    && (|blocks| > 1 ==> base < blocks[1].addr)
  }

  lemma LooselyNone(base: nat, blocks: seq<Blk>)
    ensures Loosely(base, blocks, {}) <==> Ordered(base, blocks)
  {
    if Loosely(base, blocks, {}) {
      forall j, k | 0 <= j < k < |blocks|
        ensures blocks[j].End() < blocks[k].addr
      {
        if j + 1 < k { assert blocks[j].End() <= blocks[k - 1].addr && blocks[k - 1].size > 0 && blocks[k - 1].End() <= blocks[k].addr; }
      }
    }
  }

  lemma InsertedAt(blocks: seq<Blk>, b: Blk, k: nat, j: nat)
    requires k < |blocks| && j <= |blocks|
    ensures |Inserted(blocks, b, k)| == |blocks| + 1
    ensures Inserted(blocks, b, k)[j] == if j <= k then blocks[j] else if j == k + 1 then b else blocks[j - 1]
  {
  }

  lemma InsertedPair(base: nat, blocks: seq<Blk>, b: Blk, k: nat, j: nat, l: nat)
    requires Ordered(base, blocks) && Place(blocks, b, k) && j < l <= |blocks|
    ensures |Inserted(blocks, b, k)| == |blocks| + 1
    ensures Inserted(blocks, b, k)[j].End() <= Inserted(blocks, b, k)[l].addr
    ensures j != k && j != k + 1 ==> Inserted(blocks, b, k)[j].End() < Inserted(blocks, b, k)[l].addr
  {
    hide Inserted;
    InsertedAt(blocks, b, k, j);
    InsertedAt(blocks, b, k, l);
    assert j < k ==> blocks[j].End() < blocks[k].addr;
    assert l - 1 > k + 1 ==> blocks[k + 1].End() < blocks[l - 1].addr;
  }

  lemma InsertedLoosely(base: nat, blocks: seq<Blk>, b: Blk, k: nat)
    requires Ordered(base, blocks) && b.size > 0 && base < b.addr && Place(blocks, b, k)
    ensures Loosely(base, Inserted(blocks, b, k), {k, k + 1})
  {
    hide Inserted;
    var r := Inserted(blocks, b, k);
    InsertedAt(blocks, b, k, 0);
    if |r| > 1 { InsertedAt(blocks, b, k, 1); }
    forall j | 1 <= j < |r|
      ensures r[j].size > 0
    {
      InsertedAt(blocks, b, k, j);
    }
    forall j, l | 0 <= j < l < |r|
      ensures r[j].End() <= r[l].addr
    {
      InsertedPair(base, blocks, b, k, j, l);
    }
    forall j | 0 <= j < |r| - 1 && j !in {k, k + 1}
      ensures r[j].End() < r[j + 1].addr
    {
      InsertedPair(base, blocks, b, k, j, j + 1);
    }
  }

  lemma InsertedUnits(blocks: seq<Blk>, b: Blk, k: nat)
    requires k < |blocks|
    ensures Units(Inserted(blocks, b, k)) == Units(blocks) + b.size
  {
    hide Units;
    UnitsAppend(blocks[..k + 1] + [b], blocks[k + 1..]);
    UnitsAppend(blocks[..k + 1], [b]);
    UnitsOne(b);
    assert blocks == blocks[..k + 1] + blocks[k + 1..];
    UnitsAppend(blocks[..k + 1], blocks[k + 1..]);
  }

  lemma MergedUnits(blocks: seq<Blk>, j: nat)
    ensures Units(Merged(blocks, j)) == Units(blocks)
  {
    hide Units;
    if j + 1 < |blocks| && blocks[j].End() == blocks[j + 1].addr {
      var m := Blk(blocks[j].addr, blocks[j].size + blocks[j + 1].size);
      UnitsAppend(blocks[..j] + [m], blocks[j + 2..]);
      UnitsAppend(blocks[..j], [m]);
      UnitsOne(m);
      assert blocks == blocks[..j] + [blocks[j]] + [blocks[j + 1]] + blocks[j + 2..];
      UnitsAppend(blocks[..j] + [blocks[j]] + [blocks[j + 1]], blocks[j + 2..]);
      UnitsAppend(blocks[..j] + [blocks[j]], [blocks[j + 1]]);
      UnitsAppend(blocks[..j], [blocks[j]]);
      UnitsOne(blocks[j]);
      UnitsOne(blocks[j + 1]);
    }
  }

  lemma MergedAt(blocks: seq<Blk>, j: nat, l: nat)
    requires j + 1 < |blocks| && blocks[j].End() == blocks[j + 1].addr && l < |blocks| - 1
    ensures |Merged(blocks, j)| == |blocks| - 1
    ensures Merged(blocks, j)[l] ==
      if l < j then blocks[l] else if l == j then Blk(blocks[j].addr, blocks[j].size + blocks[j + 1].size) else blocks[l + 1]
  {
  }

  lemma MergedPair(base: nat, blocks: seq<Blk>, j: nat, loose: set<int>, l: nat, m: nat)
    requires Loosely(base, blocks, loose) && forall i :: i in loose ==> i <= j
    requires j + 1 < |blocks| && blocks[j].End() == blocks[j + 1].addr && l < m < |blocks| - 1
    ensures |Merged(blocks, j)| == |blocks| - 1
    ensures Merged(blocks, j)[l].End() <= Merged(blocks, j)[m].addr
    ensures m == l + 1 && l !in loose - {j} ==> Merged(blocks, j)[l].End() < Merged(blocks, j)[m].addr
  {
    hide Merged;
    MergedAt(blocks, j, l);
    MergedAt(blocks, j, m);
    assert l < j ==> blocks[l].End() <= blocks[j].addr;
    assert m > j ==> blocks[j + 1].End() <= blocks[m + 1].addr;
  }

  /** After merging, position j no longer touches its successor. */
  lemma MergedLoosely(base: nat, blocks: seq<Blk>, j: nat, loose: set<int>)
    requires Loosely(base, blocks, loose) && forall l :: l in loose ==> l <= j
    ensures Loosely(base, Merged(blocks, j), loose - {j})
  {
    if j + 1 < |blocks| && blocks[j].End() == blocks[j + 1].addr {
      MergedHeads(base, blocks, j, loose);
      hide Merged;
      var r := Merged(blocks, j);
      forall l, m | 0 <= l < m < |r|
        ensures r[l].End() <= r[m].addr
      {
        MergedPair(base, blocks, j, loose, l, m);
      }
      forall l | 0 <= l < |r| - 1 && l !in loose - {j}
        ensures r[l].End() < r[l + 1].addr
      {
        MergedPair(base, blocks, j, loose, l, l + 1);
      }
    }
  }

  lemma MergedHeads(base: nat, blocks: seq<Blk>, j: nat, loose: set<int>)
    requires Loosely(base, blocks, loose) && j + 1 < |blocks| && blocks[j].End() == blocks[j + 1].addr
    ensures var r := Merged(blocks, j);
      && |r| == |blocks| - 1 && r[0] == Blk(base, 0) && (|r| > 1 ==> base < r[1].addr)
      && forall l :: 1 <= l < |r| ==> r[l].size > 0
  {
    MergedAt(blocks, j, 0);
    hide Merged;
    var r := Merged(blocks, j);
    if |r| > 1 { MergedAt(blocks, j, 1); }
    forall l | 1 <= l < |r|
      ensures r[l].size > 0
    {
      MergedAt(blocks, j, l);
    }
  }

  /** Freeing keeps the list ordered, without touching neighbours, and adds exactly the block's units. */
  lemma FreedOrdered(base: nat, blocks: seq<Blk>, b: Blk, k: nat)
    requires Ordered(base, blocks) && b.size > 0 && base < b.addr && Place(blocks, b, k)
    ensures Ordered(base, Freed(blocks, b, k))
    ensures Units(Freed(blocks, b, k)) == Units(blocks) + b.size
  {
    hide Loosely, Ordered, Merged;
    var r1 := Inserted(blocks, b, k);
    var r2 := Merged(r1, k + 1);
    InsertedLoosely(base, blocks, b, k);
    InsertedUnits(blocks, b, k);
    MergedLoosely(base, r1, k + 1, {k, k + 1});
    MergedUnits(r1, k + 1);
    assert {k, k + 1} - {k + 1} == {k};
    MergedLoosely(base, r2, k, {k});
    MergedUnits(r2, k);
    assert {k} - {k} == {};
    LooselyNone(base, Freed(blocks, b, k));
  }

  ghost predicate Covers(blocks: seq<Blk>, b: Blk) {
    exists i :: 0 <= i < |blocks| && blocks[i].addr <= b.addr && b.End() <= blocks[i].End()
  }

  lemma MergedCovers(blocks: seq<Blk>, j: nat, b: Blk)
    requires Covers(blocks, b)
    ensures Covers(Merged(blocks, j), b)
  {
    var i :| 0 <= i < |blocks| && blocks[i].addr <= b.addr && b.End() <= blocks[i].End();
    var r := Merged(blocks, j);
    if r != blocks {
      var l := if i <= j then i else i - 1;
      assert r[l].addr <= b.addr && b.End() <= r[l].End();
    }
  }

  /** The freed block ends up inside a block of the list. */
  lemma FreedCovers(blocks: seq<Blk>, b: Blk, k: nat)
    requires k < |blocks|
    ensures Covers(Freed(blocks, b, k), b)
  {
    var r1 := Inserted(blocks, b, k);
    assert r1[k + 1] == b;
    MergedCovers(r1, k + 1, b);
    MergedCovers(Merged(r1, k + 1), k, b);
  }

  /** Merging leaves every other block of memory as far from the list as it was. */
  ghost predicate Clear(blocks: seq<Blk>, c: Blk) {
    forall k :: 0 <= k < |blocks| ==> Apart(blocks[k], c)
  }

  lemma MergedClear(blocks: seq<Blk>, j: nat, c: Blk)
    requires Clear(blocks, c) && c.size > 0
    ensures Clear(Merged(blocks, j), c)
  {
    if j + 1 < |blocks| && blocks[j].End() == blocks[j + 1].addr {
      MergedAt(blocks, j, 0);
      hide Merged;
      forall l | 0 <= l < |Merged(blocks, j)|
        ensures Apart(Merged(blocks, j)[l], c)
      {
        MergedAt(blocks, j, l);
        assert Apart(blocks[j], c) && Apart(blocks[j + 1], c);
      }
    }
  }

  lemma FreedClear(blocks: seq<Blk>, b: Blk, k: nat, c: Blk)
    requires k < |blocks| && Clear(blocks, c) && Apart(b, c) && c.size > 0
    ensures Clear(Freed(blocks, b, k), c)
  {
    var r1 := Inserted(blocks, b, k);
    InsertedAt(blocks, b, k, 0);
    hide Inserted;
    forall j | 0 <= j < |r1|
      ensures Apart(r1[j], c)
    {
      InsertedAt(blocks, b, k, j);
    }
    MergedClear(r1, k + 1, c);
    MergedClear(Merged(r1, k + 1), k, c);
  }

  lemma MergedMiddle(x: seq<Blk>, b: Blk, c: Blk, z: seq<Blk>)
    ensures Merged(x + ([b, c] + z), |x|) == x + ((if b.End() == c.addr then [Blk(b.addr, b.size + c.size)] else [b, c]) + z)
  {
    var s := x + ([b, c] + z);
    assert s[|x|] == b && s[|x| + 1] == c && s[..|x|] == x && s[|x| + 2..] == z;
  }

  /** b together with the upper neighbour it touches, if any. */
  function Upper(b: Blk, post: seq<Blk>): Blk {
    if post != [] && b.End() == post[0].addr then Blk(b.addr, b.size + post[0].size) else b
  }

  function Rest(b: Blk, post: seq<Blk>): seq<Blk> {
    if post != [] && b.End() == post[0].addr then post[1..] else post
  }

  /** What stands in the freed list at the place of block p. */
  function Middle(p: Blk, b: Blk, post: seq<Blk>): seq<Blk> {
    if p.End() == b.addr then [Blk(p.addr, p.size + Upper(b, post).size)] else [p, Upper(b, post)]
  }

  /** Freed, piece by piece. */
  lemma FreedForm(blocks: seq<Blk>, b: Blk, k: nat)
    requires k < |blocks|
    ensures Freed(blocks, b, k) ==
      blocks[..k] + (Middle(blocks[k], b, blocks[k + 1..]) + Rest(b, blocks[k + 1..]))
  {
    hide Merged;
    var x, p, post := blocks[..k], blocks[k], blocks[k + 1..];
    var r1 := Inserted(blocks, b, k);
    var r2 := blocks[..k + 1] + ([Upper(b, post)] + Rest(b, post));
    assert Merged(r1, k + 1) == r2 by {
      if post == [] {
        MergedEnd(r1, k + 1);
        assert r1 == r2;
      } else {
        assert r1 == blocks[..k + 1] + ([b, post[0]] + post[1..]);
        MergedMiddle(blocks[..k + 1], b, post[0], post[1..]);
        assert [post[0]] + post[1..] == post;
        assert [b, post[0]] + post[1..] == [b] + post;
      }
    }
    assert r2 == x + ([p, Upper(b, post)] + Rest(b, post));
    MergedMiddle(x, p, Upper(b, post), Rest(b, post));
  }

  lemma MergedEnd(blocks: seq<Blk>, j: nat)
    requires j + 1 >= |blocks|
    ensures Merged(blocks, j) == blocks
  {
  }

  datatype Headers = Headers(ptr: map<nat, nat>, size: map<nat, nat>)

  /** free's stores, given the block p below the freed one. */
  function FreeStores(h: Headers, p: nat, bp: nat): Headers
    requires p in h.ptr && p in h.size && bp in h.size && h.ptr[p] in h.ptr && h.ptr[p] in h.size && p != bp
  {
    var q := h.ptr[p];
    var up := bp + h.size[bp] == q;
    var size1 := if up then h.size[bp := h.size[bp] + h.size[q]] else h.size;
    var ptr1 := if up then h.ptr[bp := h.ptr[q]] else h.ptr[bp := q];
    if p + size1[p] == bp then Headers(ptr1[p := ptr1[bp]], size1[p := size1[p] + size1[bp]])
    else Headers(ptr1[p := bp], size1)
  }

  /** free's stores turn the stored list into the freed list. */
  lemma StoredFreed(h: Headers, base: nat, blocks: seq<Blk>, b: Blk, k: nat)
    requires Ordered(base, blocks) && Stored(h.ptr, h.size, blocks) && Place(blocks, b, k)
    requires b.size > 0 && base < b.addr && b.addr in h.size && h.size[b.addr] == b.size
    ensures blocks[k].addr in h.ptr && blocks[k].addr in h.size && blocks[k].addr != b.addr
    ensures h.ptr[blocks[k].addr] in h.ptr && h.ptr[blocks[k].addr] in h.size
    ensures
      var h' := FreeStores(h, blocks[k].addr, b.addr);
      |Freed(blocks, b, k)| > 0 && Stored(h'.ptr, h'.size, Freed(blocks, b, k))
  {
    hide Run, Freed, FreeStores, Ordered;
    var x, p, post := blocks[..k], blocks[k], blocks[k + 1..];
    StoredPieces(h, base, blocks, k);
    PieceAddresses(base, blocks, b, k);
    RestRun(h, b, post, base);
    StoresElsewhere(h, p.addr, b.addr);
    var h' := FreeStores(h, p.addr, b.addr);
    FreedForm(blocks, b, k);
    RunFrame(h.ptr, h.size, h'.ptr, h'.size, x, p.addr);
    RunFrame(h.ptr, h.size, h'.ptr, h'.size, Rest(b, post), base);
    MiddleStored(h, base, p, b, post);
    RunJoin(h'.ptr, h'.size, Middle(p, b, post), Rest(b, post), base);
    RunJoin(h'.ptr, h'.size, x, Middle(p, b, post) + Rest(b, post), base);
    assert Freed(blocks, b, k)[0].addr == base;
  }

  /** free stores only into the two headers. */
  lemma StoresElsewhere(h: Headers, p: nat, bp: nat)
    requires p in h.ptr && p in h.size && bp in h.size && h.ptr[p] in h.ptr && h.ptr[p] in h.size && p != bp
    ensures var h' := FreeStores(h, p, bp);
      && (forall a :: a in h.ptr && a != p && a != bp ==> a in h'.ptr && h'.ptr[a] == h.ptr[a])
      && (forall a :: a in h.size && a != p && a != bp ==> a in h'.size && h'.size[a] == h.size[a])
  {
  }

  lemma RestRun(h: Headers, b: Blk, post: seq<Blk>, base: nat)
    requires Run(h.ptr, h.size, post, base) && base in h.ptr && base in h.size
    ensures Run(h.ptr, h.size, Rest(b, post), base)
    ensures First(post, base) in h.ptr && First(post, base) in h.size
  {
  }

  lemma StoredPieces(h: Headers, base: nat, blocks: seq<Blk>, k: nat)
    requires Ordered(base, blocks) && Stored(h.ptr, h.size, blocks) && k < |blocks|
    ensures
      var x, p, post := blocks[..k], blocks[k], blocks[k + 1..];
      && Run(h.ptr, h.size, x, p.addr) && Run(h.ptr, h.size, post, base)
      && p.addr in h.ptr && p.addr in h.size && h.size[p.addr] == p.size && h.ptr[p.addr] == First(post, base)
      && base in h.ptr && base in h.size && h.size[base] == 0
  {
    hide Run;
    var x, p, post := blocks[..k], blocks[k], blocks[k + 1..];
    RunAt(h.ptr, h.size, blocks, base, k);
    RunAt(h.ptr, h.size, blocks, base, 0);
    assert blocks == x + ([p] + post);
    RunJoin(h.ptr, h.size, x, [p] + post, base);
    RunJoin(h.ptr, h.size, [p], post, base);
  }

  lemma PieceAddresses(base: nat, blocks: seq<Blk>, b: Blk, k: nat)
    requires Ordered(base, blocks) && Place(blocks, b, k) && b.size > 0 && base < b.addr
    ensures
      var x, p, post := blocks[..k], blocks[k], blocks[k + 1..];
      && p.addr != b.addr && (post == [] ==> b.End() != base) && (post != [] ==> post[0].addr != b.addr)
      && (k == 0 ==> p == Blk(base, 0) && p.End() != b.addr) && (k > 0 ==> blocks[0] == Blk(base, 0))
      && (forall i :: 0 <= i < |x| ==> x[i].addr != p.addr && x[i].addr != b.addr)
      && (forall i :: 0 <= i < |Rest(b, post)| ==> Rest(b, post)[i].addr != p.addr && Rest(b, post)[i].addr != b.addr)
  {
    var x, p, post := blocks[..k], blocks[k], blocks[k + 1..];
    var d := if post != [] && b.End() == post[0].addr then k + 2 else k + 1;
    assert Rest(b, post) == blocks[d..];
    forall i | d <= i < |blocks|
      ensures blocks[i].addr != p.addr && blocks[i].addr != b.addr
    {
      assert blocks[k].End() < blocks[i].addr;
      if i > k + 1 { assert blocks[k + 1].End() < blocks[i].addr; }
    }
    forall i | 0 <= i < k
      ensures blocks[i].addr != p.addr && blocks[i].addr != b.addr
    {
      assert blocks[i].End() < blocks[k].addr;
    }
    assert p.addr != b.addr by { if k > 0 { assert p.size > 0; } }
  }

  lemma MiddleStored(h: Headers, base: nat, p: Blk, b: Blk, post: seq<Blk>)
    requires p.addr in h.ptr && p.addr in h.size && h.size[p.addr] == p.size && h.ptr[p.addr] == First(post, base)
    requires base in h.ptr && base in h.size && Run(h.ptr, h.size, post, base)
    requires b.addr in h.size && h.size[b.addr] == b.size && p.addr != b.addr && (post == [] ==> b.End() != base)
    requires post != [] ==> post[0].addr != b.addr
    ensures h.ptr[p.addr] in h.ptr && h.ptr[p.addr] in h.size
    ensures var h' := FreeStores(h, p.addr, b.addr);
      Run(h'.ptr, h'.size, Middle(p, b, post), First(Rest(b, post), base))
  {
    var h' := FreeStores(h, p.addr, b.addr);
    var m, after := Middle(p, b, post), First(Rest(b, post), base);
    if |m| == 2 {
      assert m[1..] == [m[1]] && m[1..][1..] == [];
    } else {
      assert m[1..] == [];
    }
  }

  // ----- live blocks -----

  ghost function LiveUnits(live: map<nat, nat>): nat
    decreases |live|
  {
    if live == map[] then 0
    else
      var a :| a in live;
      assert (live - {a}).Keys == live.Keys - {a};
      live[a] + LiveUnits(live - {a})
  }

  lemma {:induction false} LiveWithout(live: map<nat, nat>, a: nat)
    requires a in live
    ensures LiveUnits(live) == live[a] + LiveUnits(live - {a})
    decreases |live|
  {
    var c :| c in live && LiveUnits(live) == live[c] + LiveUnits(live - {c});
    if c != a {
      assert (live - {c}).Keys == live.Keys - {c};
      assert (live - {a}).Keys == live.Keys - {a};
      LiveWithout(live - {c}, a);
      LiveWithout(live - {a}, c);
      assert live - {c} - {a} == live - {a} - {c};
    }
  }

  lemma LiveWith(live: map<nat, nat>, a: nat, n: nat)
    requires a !in live
    ensures LiveUnits(live[a := n]) == LiveUnits(live) + n
  {
    LiveWithout(live[a := n], a);
    assert live[a := n] - {a} == live;
  }

  /** Allocated blocks have intact headers and overlap neither the free list nor each other. */
  ghost predicate LiveOk(base: nat, brk: nat, h: Headers, blocks: seq<Blk>, live: map<nat, nat>) {
    && (forall a :: a in live ==>
          base < a && live[a] > 0 && a + live[a] <= brk && a in h.size && h.size[a] == live[a] && Clear(blocks, Blk(a, live[a])))
    && (forall a, c :: a in live && c in live && a != c ==> Apart(Blk(a, live[a]), Blk(c, live[c])))
  }

  lemma {:induction false} PlaceExists(base: nat, blocks: seq<Blk>, b: Blk, n: nat) returns (k: nat)
    requires Ordered(base, blocks) && Clear(blocks, b) && base < b.addr && b.size > 0
    requires 1 <= n <= |blocks| && (n < |blocks| ==> b.addr < blocks[n].addr)
    ensures Place(blocks, b, k)
    decreases n
  {
    if n == 1 || blocks[n - 1].addr < b.addr {
      k := n - 1;
      assert Apart(blocks[k], b);
      if n < |blocks| { assert Apart(blocks[n], b); }
    } else {
      assert Apart(blocks[n - 1], b);
      k := PlaceExists(base, blocks, b, n - 1);
    }
  }

  /** The free list as memory holds it. */
  ghost predicate ListOk(base: nat, brk: nat, h: Headers, freep: nat, blocks: seq<Blk>) {
    && Ordered(base, blocks) && Stored(h.ptr, h.size, blocks)
    && (exists k :: 0 <= k < |blocks| && blocks[k].addr == freep)
    && (forall k :: 0 <= k < |blocks| ==> blocks[k].End() <= brk)
  }

  /** Once initialised: the list, the allocated blocks, and no unit of sbrk's lost. */
  ghost predicate HeapOk(base: nat, brk: nat, h: Headers, freep: nat, blocks: seq<Blk>, live: map<nat, nat>, total: nat) {
    && 0 < base < brk && freep != 0
    && ListOk(base, brk, h, freep, blocks)
    && LiveOk(base, brk, h, blocks, live)
    && Units(blocks) + LiveUnits(live) == total
  }

  // ----- malloc -----

  lemma ListAddresses(base: nat, blocks: seq<Blk>, k: nat)
    requires Ordered(base, blocks) && k < |blocks|
    ensures forall j :: 0 <= j < |blocks| && j != k ==> blocks[j].addr != blocks[k].addr
    ensures forall j :: 0 <= j < |blocks| && j != k ==> Apart(blocks[j], blocks[k])
    ensures forall j :: 0 <= j < |blocks| ==> blocks[j].addr > 0
    ensures k > 0 ==> base < blocks[k].addr && blocks[k].size > 0
  {
  }

  /** Taking the tail of block k leaves the rest of it in place. */
  lemma ShrunkOrdered(base: nat, blocks: seq<Blk>, k: nat, n: nat)
    requires Ordered(base, blocks) && 1 <= k < |blocks| && 0 < n < blocks[k].size
    ensures Ordered(base, blocks[k := Blk(blocks[k].addr, blocks[k].size - n)])
    ensures Units(blocks[k := Blk(blocks[k].addr, blocks[k].size - n)]) + n == Units(blocks)
  {
    var m := Blk(blocks[k].addr, blocks[k].size - n);
    ReplacedUnits(blocks, k, m);
  }

  lemma ReplacedUnits(blocks: seq<Blk>, k: nat, m: Blk)
    requires k < |blocks|
    ensures Units(blocks[k := m]) + blocks[k].size == Units(blocks) + m.size
  {
    hide Units;
    assert blocks == blocks[..k] + ([blocks[k]] + blocks[k + 1..]);
    assert blocks[k := m] == blocks[..k] + ([m] + blocks[k + 1..]);
    UnitsAppend(blocks[..k], [blocks[k]] + blocks[k + 1..]);
    UnitsAppend(blocks[..k], [m] + blocks[k + 1..]);
    UnitsAppend([blocks[k]], blocks[k + 1..]);
    UnitsAppend([m], blocks[k + 1..]);
    UnitsOne(blocks[k]);
    UnitsOne(m);
  }

  /** Taking all of block k removes it from the list. */
  lemma RemovedOrdered(base: nat, blocks: seq<Blk>, k: nat)
    requires Ordered(base, blocks) && 1 <= k < |blocks|
    ensures Ordered(base, blocks[..k] + blocks[k + 1..])
    ensures Units(blocks[..k] + blocks[k + 1..]) + blocks[k].size == Units(blocks)
  {
    hide Units;
    RemovedUnits(blocks, k);
    RemovedAt(blocks, k);
    var r := blocks[..k] + blocks[k + 1..];
    forall i, j | 0 <= i < j < |r|
      ensures r[i].End() < r[j].addr
    {
    }
  }

  lemma RemovedAt(blocks: seq<Blk>, k: nat)
    requires k < |blocks|
    ensures
      var r := blocks[..k] + blocks[k + 1..];
      forall i :: 0 <= i < |r| ==> r[i] == blocks[if i < k then i else i + 1]
  {
  }

  lemma RemovedUnits(blocks: seq<Blk>, k: nat)
    requires k < |blocks|
    ensures Units(blocks[..k] + blocks[k + 1..]) + blocks[k].size == Units(blocks)
  {
    hide Units;
    assert blocks == blocks[..k] + ([blocks[k]] + blocks[k + 1..]);
    UnitsAppend(blocks[..k], [blocks[k]] + blocks[k + 1..]);
    UnitsAppend(blocks[..k], blocks[k + 1..]);
    UnitsAppend([blocks[k]], blocks[k + 1..]);
    UnitsOne(blocks[k]);
  }

  ghost predicate SameHeader(h: Headers, h': Headers, a: nat) {
    && (a in h.ptr ==> a in h'.ptr && h'.ptr[a] == h.ptr[a])
    && (a in h.size ==> a in h'.size && h'.size[a] == h.size[a])
  }

  /** A run whose middle part was rewritten, the rest left alone. */
  lemma Respliced(h: Headers, h': Headers, x: seq<Blk>, mid: seq<Blk>, post: seq<Blk>, base: nat)
    requires mid != [] && Run(h.ptr, h.size, x, mid[0].addr) && Run(h.ptr, h.size, post, base)
    requires forall i :: 0 <= i < |x| ==> SameHeader(h, h', x[i].addr)
    requires forall i :: 0 <= i < |post| ==> SameHeader(h, h', post[i].addr)
    requires Run(h'.ptr, h'.size, mid, First(post, base))
    ensures Run(h'.ptr, h'.size, x + (mid + post), base)
  {
    hide Run;
    RunFrame(h.ptr, h.size, h'.ptr, h'.size, x, mid[0].addr);
    RunFrame(h.ptr, h.size, h'.ptr, h'.size, post, base);
    RunJoin(h'.ptr, h'.size, mid, post, base);
    RunJoin(h'.ptr, h'.size, x, mid + post, base);
    assert (mid + post)[0] == mid[0];
  }

  lemma RunOne(ptr: map<nat, nat>, size: map<nat, nat>, b: Blk, after: nat)
    requires b.addr in ptr && b.addr in size && size[b.addr] == b.size && ptr[b.addr] == after
    ensures Run(ptr, size, [b], after)
  {
    assert [b][1..] == [];
  }

  lemma RemovedStored(h: Headers, base: nat, blocks: seq<Blk>, k: nat)
    requires Ordered(base, blocks) && Stored(h.ptr, h.size, blocks) && 1 <= k < |blocks|
    ensures blocks[k].addr in h.ptr && blocks[k - 1].addr in h.ptr
    ensures
      var h' := h.(ptr := h.ptr[blocks[k - 1].addr := h.ptr[blocks[k].addr]]);
      Run(h'.ptr, h'.size, blocks[..k] + blocks[k + 1..], base)
  {
    hide Run, Ordered, Stored;
    StoredPieces(h, base, blocks, k);
    StoredPieces(h, base, blocks, k - 1);
    ListAddresses(base, blocks, k - 1);
    var x, q, p, post := blocks[..k - 1], blocks[k - 1], blocks[k], blocks[k + 1..];
    var h' := h.(ptr := h.ptr[q.addr := h.ptr[p.addr]]);
    RunOne(h'.ptr, h'.size, q, First(post, base));
    Respliced(h, h', x, [q], post, base);
    assert blocks[..k] + blocks[k + 1..] == x + ([q] + post);
  }

  lemma ShrunkStored(h: Headers, base: nat, blocks: seq<Blk>, k: nat, n: nat)
    requires Ordered(base, blocks) && Stored(h.ptr, h.size, blocks) && 1 <= k < |blocks| && 0 < n < blocks[k].size
    ensures
      var a, s := blocks[k].addr, blocks[k].size - n;
      Run(h.ptr, h.size[a := s][a + s := n], blocks[k := Blk(a, s)], base)
  {
    hide Run, Ordered, Stored;
    var x, p, post := blocks[..k], blocks[k], blocks[k + 1..];
    var m := Blk(p.addr, p.size - n);
    var h' := h.(size := h.size[m.addr := m.size][m.addr + m.size := n]);
    StoredPieces(h, base, blocks, k);
    TailFree(base, blocks, k, n);
    ListAddresses(base, blocks, k);
    forall i | 0 <= i < |x|
      ensures SameHeader(h, h', x[i].addr)
    {
      assert x[i] == blocks[i];
    }
    forall i | 0 <= i < |post|
      ensures SameHeader(h, h', post[i].addr)
    {
      assert post[i] == blocks[k + 1 + i];
    }
    RunOne(h'.ptr, h'.size, m, First(post, base));
    Respliced(h, h', x, [m], post, base);
    assert blocks[k := m] == x + ([m] + post);
  }

  /** No header of the list lies inside block k. */
  lemma TailFree(base: nat, blocks: seq<Blk>, k: nat, n: nat)
    requires Ordered(base, blocks) && 1 <= k < |blocks| && 0 < n < blocks[k].size
    ensures blocks[0].addr == base
    ensures forall j :: 0 <= j < |blocks| ==> blocks[j].addr != blocks[k].addr + blocks[k].size - n
  {
  }

  /** One more allocated block, apart from the others and from what is left of the list. */
  lemma LiveGains(base: nat, brk: nat, brk': nat, h: Headers, h': Headers, blocks: seq<Blk>, blocks': seq<Blk>, live: map<nat, nat>, q: nat, n: nat)
    requires LiveOk(base, brk, h, blocks, live) && brk <= brk'
    requires base < q && n > 0 && q + n <= brk' && q in h'.size && h'.size[q] == n && Clear(blocks', Blk(q, n))
    requires forall a :: a in live ==> Clear(blocks', Blk(a, live[a])) && Apart(Blk(q, n), Blk(a, live[a]))
    requires forall a :: a in live && a in h.size ==> a in h'.size && h'.size[a] == h.size[a]
    ensures q !in live && LiveOk(base, brk', h', blocks', live[q := n])
  {
    hide Clear;
    assert q in live ==> Apart(Blk(q, n), Blk(q, live[q]));
  }

  /** malloc takes the whole of block k: its predecessor is linked past it. */
  lemma TakenWhole(base: nat, brk: nat, h: Headers, freep: nat, blocks: seq<Blk>, live: map<nat, nat>, total: nat, k: nat)
    requires HeapOk(base, brk, h, freep, blocks, live, total) && 1 <= k < |blocks|
    ensures
      var p, q := blocks[k], blocks[k - 1].addr;
      && p.addr !in live && p.addr in h.ptr && q in h.ptr
      && HeapOk(base, brk, h.(ptr := h.ptr[q := h.ptr[p.addr]]), q, blocks[..k] + blocks[k + 1..], live[p.addr := p.size], total)
  {
    hide Run, Units, LiveUnits;
    var p, q := blocks[k], blocks[k - 1].addr;
    var blocks' := blocks[..k] + blocks[k + 1..];
    RemovedStored(h, base, blocks, k);
    RemovedOrdered(base, blocks, k);
    RemovedAt(blocks, k);
    StoredPieces(h, base, blocks, k);
    ListAddresses(base, blocks, k);
    assert base < p.addr && p.size > 0 && q != 0;
    hide Ordered;
    var h' := h.(ptr := h.ptr[q := h.ptr[p.addr]]);
    assert blocks'[k - 1].addr == q;
    forall a | a in live
      ensures Clear(blocks', Blk(a, live[a])) && Apart(p, Blk(a, live[a]))
    {
      assert Clear(blocks, Blk(a, live[a]));
    }
    LiveGains(base, brk, brk, h, h', blocks, blocks', live, p.addr, p.size);
    LiveWith(live, p.addr, p.size);
  }

  /** malloc takes the last n units of block k. */
  lemma TakenTail(base: nat, brk: nat, h: Headers, freep: nat, blocks: seq<Blk>, live: map<nat, nat>, total: nat, k: nat, n: nat)
    requires HeapOk(base, brk, h, freep, blocks, live, total) && 1 <= k < |blocks| && 0 < n < blocks[k].size
    ensures
      var a, s := blocks[k].addr, blocks[k].size - n;
      && a + s !in live
      && HeapOk(base, brk, h.(size := h.size[a := s][a + s := n]), blocks[k - 1].addr, blocks[k := Blk(a, s)], live[a + s := n], total)
  {
    hide Run, Units, LiveUnits, Ordered;
    var p, q := blocks[k], blocks[k - 1].addr;
    assert blocks[0].addr == base by { TailFree(base, blocks, k, n); }
    var m := Blk(p.addr, p.size - n);
    var t := Blk(m.End(), n);
    var blocks' := blocks[k := m];
    ShrunkStored(h, base, blocks, k, n);
    ShrunkOrdered(base, blocks, k, n);
    StoredPieces(h, base, blocks, k);
    ListAddresses(base, blocks, k);
    var h' := h.(size := h.size[m.addr := m.size][t.addr := n]);
    assert blocks'[k - 1].addr == q;
    forall a | a in live
      ensures Clear(blocks', Blk(a, live[a])) && Apart(t, Blk(a, live[a])) && a != p.addr && a != t.addr
    {
      assert Clear(blocks, Blk(a, live[a]));
      assert Apart(p, Blk(a, live[a]));
    }
    LiveGains(base, brk, brk, h, h', blocks, blocks', live, t.addr, n);
    LiveWith(live, t.addr, n);
  }

  /** Memory fresh from sbrk, with its size written, is an allocated block. */
  lemma CoreGained(base: nat, brk: nat, h: Headers, freep: nat, blocks: seq<Blk>, live: map<nat, nat>, total: nat, n: nat)
    requires HeapOk(base, brk, h, freep, blocks, live, total) && n > 0
    ensures brk !in live
    ensures HeapOk(base, brk + n, h.(size := h.size[brk := n]), freep, blocks, live[brk := n], total + n)
  {
    hide Run, Units, LiveUnits;
    var h' := h.(size := h.size[brk := n]);
    assert forall k :: 0 <= k < |blocks| ==> blocks[k].addr < brk;
    RunFrame(h.ptr, h.size, h'.ptr, h'.size, blocks, base);
    hide Ordered;
    LiveGains(base, brk, brk + n, h, h', blocks, blocks, live, brk, n);
    LiveWith(live, brk, n);
  }

  // ----- the size requested -----

  /** The units malloc asks for: the payload rounded up, and one for the header. */
  function NUnits(nbytes: nat): nat {
    (nbytes + HEADER - 1) / HEADER + 1
  }

  /** What morecore asks for. */
  function Least(nu: nat): nat {
    if nu < MINUNITS then MINUNITS else nu
  }

  function ToInt32(x: nat): int {
    var w := x % 0x1_0000_0000;
    if w < SBRKMAX then w else w - 0x1_0000_0000
  }

  /** The int with the same low 32 bits. */
  lemma ToInt32Exact(x: nat)
    ensures -0x8000_0000 <= ToInt32(x) < 0x8000_0000 && (x - ToInt32(x)) % 0x1_0000_0000 == 0
  {
    var q, w := x / 0x1_0000_0000, x % 0x1_0000_0000;
    assert x - w == q * 0x1_0000_0000;
    WholeWords(q);
    WholeWords(q + 1);
  }

  lemma WholeWords(q: nat)
    ensures q * 0x1_0000_0000 % 0x1_0000_0000 == 0
  {
  }

  lemma NUnitsFit(nbytes: nat)
    ensures NUnits(nbytes) > 0 && (NUnits(nbytes) - 1) * HEADER >= nbytes && (NUnits(nbytes) - 2) * HEADER < nbytes
  {
  }

  /**
    morecore passes a byte count to sbrk, which takes an int. The count arrives
    unchanged exactly when the request is at most 2^31 - 32 bytes; beyond that
    sbrk is asked to shrink, for nothing, or for 16 bytes.
   */
  lemma SbrkCountExact(nbytes: nat)
    requires nbytes < 0x1_0000_0000
    ensures
      var n := Least(NUnits(nbytes));
      && (ToInt32(n * HEADER) == n * HEADER <==> nbytes <= SBRKMAX - 32)
      && (ToInt32(n * HEADER) != n * HEADER ==> ToInt32(n * HEADER) <= 16)
      && (nbytes > 0xffff_fff0 ==> ToInt32(n * HEADER) == 16)
  {
    NUnitsFit(nbytes);
  }

  // ----- malloc's scan -----

  ghost predicate NoFit(blocks: seq<Blk>, n: nat) {
    forall i :: 0 <= i < |blocks| ==> blocks[i].size < n
  }

  /** Steps of the scan from the block after position f to position k. */
  function Steps(n: nat, f: nat, k: nat): int {
    if f < k then k - f - 1 else n - f - 1 + k
  }

  /** The scan that started after f has passed only blocks below n units. */
  ghost predicate Passed(blocks: seq<Blk>, n: nat, f: nat, k: nat) {
    forall i :: 0 <= i < |blocks| && Steps(|blocks|, f, i) < Steps(|blocks|, f, k) ==> blocks[i].size < n
  }

  /**
    The n units at `at` are the end of the first block that fits, in the circle
    from the one after freep on; the search goes on before that block next time.
   */
  ghost predicate NextFit(blocks: seq<Blk>, freep: nat, n: nat, at: nat, freep': nat) {
    exists f, k :: 0 <= f < |blocks| && blocks[f].addr == freep && 1 <= k < |blocks| && blocks[k].size >= n
      && Passed(blocks, n, f, k) && at == blocks[k].End() - n && freep' == blocks[k - 1].addr
  }

  lemma PassedStep(blocks: seq<Blk>, n: nat, f: nat, k: nat)
    requires f < |blocks| && k < |blocks| && Passed(blocks, n, f, k) && blocks[k].size < n
    ensures k == f ==> NoFit(blocks, n)
    ensures k != f ==> Passed(blocks, n, f, Next(|blocks|, k))
    ensures k != f ==> Steps(|blocks|, f, Next(|blocks|, k)) == Steps(|blocks|, f, k) + 1
  {
  }

  lemma PassedNone(blocks: seq<Blk>, n: nat, f: nat)
    requires f < |blocks|
    ensures Passed(blocks, n, f, Next(|blocks|, f))
  {
  }

  /** malloc's first call leaves the list with the empty base block alone. */
  lemma EmptyHeap(base: nat, brk: nat, h: Headers)
    requires 0 < base < brk && base in h.ptr && base in h.size && h.ptr[base] == base && h.size[base] == 0
    ensures HeapOk(base, brk, h, base, [Blk(base, 0)], map[], 0)
    ensures forall n :: NoFit([], n)
  {
    var b := Blk(base, 0);
    RunOne(h.ptr, h.size, b, base);
    UnitsOne(b);
    assert [b][0].addr == base;
  }

  class Allocator {
    const base: nat               // address of the static header
    const limit: nat              // sbrk fails beyond this unit
    var h: Headers
    var freep: nat                // 0 before the first malloc
    var brk: nat                  // the next unit sbrk returns
    ghost var blocks: seq<Blk>    // the free list in address order
    ghost var live: map<nat, nat> // allocated blocks and their units
    ghost var total: nat          // units obtained from sbrk

    constructor (base: nat, brk: nat, limit: nat)
      requires 0 < base < brk
      ensures Valid() && freep == 0 && live == map[] && this.base == base && this.brk == brk && this.limit == limit
    {
      this.base, this.brk, this.limit := base, brk, limit;
      h, freep := Headers(map[], map[]), 0;
      blocks, live, total := [], map[], 0;
    }

    ghost predicate Valid()
      reads this
    {
      if freep == 0 then 0 < base < brk && blocks == [] && live == map[] && total == 0
      else HeapOk(base, brk, h, freep, blocks, live, total)
    }

    /** free's search: the block of the list below bp; terminates because it cannot pass that block. */
    method FindPlace(bp: nat) returns (p: nat, ghost k: nat)
      requires ListOk(base, brk, h, freep, blocks)
      requires bp in h.size && base < bp && h.size[bp] > 0 && Clear(blocks, Blk(bp, h.size[bp]))
      ensures Place(blocks, Blk(bp, h.size[bp]), k) && k < |blocks| && p == blocks[k].addr
    {
      k :| 0 <= k < |blocks| && blocks[k].addr == freep;
      hide Stored, Ordered, Clear, Place;
      ghost var b := Blk(bp, h.size[bp]);
      ghost var n := |blocks|;
      ghost var goal := PlaceExists(base, blocks, b, n);
      p := freep;
      Linked(k);
      while !(bp > p && bp < h.ptr[p])
        invariant 0 <= k < n && p == blocks[k].addr && p in h.ptr
        invariant h.ptr[p] == blocks[Next(n, k)].addr
        invariant Place(blocks, b, goal)
        decreases if k <= goal then goal - k else n - k + goal
      {
        PlaceUnique(blocks, b, k, goal);
        if p >= h.ptr[p] && (bp > p || bp < h.ptr[p]) { break; }
        p := h.ptr[p];
        k := Next(n, k);
        Linked(k);
      }
      PlaceUnique(blocks, b, k, goal);
    }

    lemma Linked(k: nat)
      requires ListOk(base, brk, h, freep, blocks) && k < |blocks|
      ensures blocks[k].addr in h.ptr && h.ptr[blocks[k].addr] == blocks[Next(|blocks|, k)].addr
      ensures blocks[k].addr in h.size && h.size[blocks[k].addr] == blocks[k].size && blocks[k].addr != 0
    {
      RunAt(h.ptr, h.size, blocks, base, k);
    }

    /** Both exits of the search hold exactly at the place of the block. */
    lemma PlaceUnique(blocks: seq<Blk>, b: Blk, k: nat, goal: nat)
      requires Ordered(base, blocks) && base < b.addr && b.size > 0 && Clear(blocks, b)
      requires Place(blocks, b, goal) && k < |blocks|
      ensures
        var p, q := blocks[k].addr, blocks[Next(|blocks|, k)].addr;
        ((b.addr > p && b.addr < q) || (p >= q && (b.addr > p || b.addr < q))) <==> k == goal
    {
      assert k + 1 < |blocks| ==> blocks[k].End() < blocks[k + 1].addr;
      assert k < goal ==> blocks[k + 1].addr <= blocks[goal].addr;
      assert goal + 1 < k ==> blocks[goal + 1].End() < blocks[k].addr;
    }

    /** free of the block whose header is at bp. */
    method Free(bp: nat)
      requires Valid() && freep != 0 && bp in live
      modifies this`h, this`freep, this`blocks, this`live
      ensures Valid() && freep != 0 && live == old(live) - {bp}
      ensures Units(blocks) == Units(old(blocks)) + old(live)[bp]
      ensures Covers(blocks, Blk(bp, old(live)[bp]))
      ensures exists k :: 0 <= k < |old(blocks)| && Place(old(blocks), Blk(bp, old(live)[bp]), k) && freep == old(blocks)[k].addr
    {
      hide ListOk, Ordered, Freed, Clear, Place, FreeStores, LiveUnits, Units;
      ghost var b := Blk(bp, live[bp]);
      ghost var k;
      var p;
      p, k := FindPlace(bp);
      FreeKeepsHeap(h, freep, blocks, live, total, k, bp);
      h := FreeStores(h, p, bp);
      freep := p;
      blocks := Freed(blocks, b, k);
      live := live - {bp};
    }

    lemma FreeKeepsHeap(h: Headers, freep: nat, blocks: seq<Blk>, live: map<nat, nat>, total: nat, k: nat, bp: nat)
      requires HeapOk(base, brk, h, freep, blocks, live, total) && bp in live && k < |blocks|
      requires Place(blocks, Blk(bp, live[bp]), k)
      ensures
        var p, b := blocks[k].addr, Blk(bp, live[bp]);
        && p in h.ptr && p in h.size && h.ptr[p] in h.ptr && h.ptr[p] in h.size && p != bp
        && HeapOk(base, brk, FreeStores(h, p, bp), p, Freed(blocks, b, k), live - {bp}, total)
        && Units(Freed(blocks, b, k)) == Units(blocks) + b.size && Covers(Freed(blocks, b, k), b)
    {
      hide Run, Freed, Clear, Place, FreeStores, LiveUnits, Units;
      var b := Blk(bp, live[bp]);
      assert blocks[k].addr != 0;
      StoredFreed(h, base, blocks, b, k);
      hide Ordered;
      FreedOrdered(base, blocks, b, k);
      FreedCovers(blocks, b, k);
      FreedWithin(blocks, b, k, brk, blocks[k].addr);
      FreedLive(h, freep, blocks, live, total, k, bp);
      LiveWithout(live, bp);
    }

    /** The freed list stays below brk and still has the block p. */
    lemma FreedWithin(blocks: seq<Blk>, b: Blk, k: nat, brk: nat, p: nat)
      requires k < |blocks| && b.End() <= brk && blocks[k].addr == p
      requires forall j :: 0 <= j < |blocks| ==> blocks[j].End() <= brk
      ensures forall j :: 0 <= j < |Freed(blocks, b, k)| ==> Freed(blocks, b, k)[j].End() <= brk
      ensures exists j :: 0 <= j < |Freed(blocks, b, k)| && Freed(blocks, b, k)[j].addr == p
    {
      FreedForm(blocks, b, k);
      hide Freed;
      var rest, mid := Rest(b, blocks[k + 1..]), Middle(blocks[k], b, blocks[k + 1..]);
      var r := blocks[..k] + (mid + rest);
      assert r[k].addr == p by { assert mid[0].addr == p; }
      assert forall j :: 0 <= j < |rest| ==> rest[j].End() <= brk;
      assert forall j :: 0 <= j < |mid| ==> mid[j].End() <= brk;
    }

    /** The other allocated blocks keep their headers and stay clear of the list. */
    lemma FreedLive(h: Headers, freep: nat, blocks: seq<Blk>, live: map<nat, nat>, total: nat, k: nat, bp: nat)
      requires HeapOk(base, brk, h, freep, blocks, live, total) && bp in live && k < |blocks|
      requires blocks[k].addr in h.ptr && blocks[k].addr in h.size && h.ptr[blocks[k].addr] in h.ptr
      requires h.ptr[blocks[k].addr] in h.size && blocks[k].addr != bp
      ensures LiveOk(base, brk, FreeStores(h, blocks[k].addr, bp), Freed(blocks, Blk(bp, live[bp]), k), live - {bp})
    {
      hide Ordered, Run, Freed, FreeStores;
      var b := Blk(bp, live[bp]);
      StoresElsewhere(h, blocks[k].addr, bp);
      forall a | a in live && a != bp
        ensures Clear(Freed(blocks, b, k), Blk(a, live[a])) && a != blocks[k].addr
      {
        FreedClear(blocks, b, k, Blk(a, live[a]));
        NotInList(blocks, k, Blk(a, live[a]));
      }
    }

    lemma NotInList(blocks: seq<Blk>, k: nat, c: Blk)
      requires k < |blocks| && Clear(blocks, c) && c.size > 0 && Ordered(base, blocks) && base < c.addr
      ensures c.addr != blocks[k].addr
    {
      assert Apart(blocks[k], c);
    }

    /**
      morecore: at least nu more units on the list, or 0 when sbrk fails. With
      broken, sbrk granted another amount than the block is then said to have, and
      what the code goes on to do is not described.
     */
    method MoreCore(nu: nat) returns (p: nat, broken: bool)
      requires Valid() && freep != 0 && 0 < nu
      modifies this`h, this`freep, this`brk, this`blocks, this`live, this`total
      ensures Valid() && freep != 0 && p in {0, freep} && live == old(live)
      ensures
        var n := Least(nu);
        if p == 0 then
          && (broken <==> Granted(old(brk), n) && ToInt32(n * HEADER) != n * HEADER) && (!broken ==> !Granted(old(brk), n))
          && h == old(h) && freep == old(freep) && brk == old(brk) && blocks == old(blocks) && total == old(total)
        else
          && !broken && Granted(old(brk), n) && brk == old(brk) + n <= limit && total == old(total) + n
          && Units(blocks) == old(Units(blocks)) + n && Covers(blocks, Blk(old(brk), n))
      ensures p != 0 ==> brk - old(brk) == if nu < 4096 then 4096 else nu
    {
      hide ListOk, LiveOk, Covers, Units, LiveUnits, ToInt32;
      var n := Least(nu);
      if !Granted(brk, n) { return 0, false; }
      if ToInt32(n * HEADER) != n * HEADER { return 0, true; }
      var hp := brk;
      CoreGained(base, brk, h, freep, blocks, live, total, n);
      brk := brk + n;
      h := h.(size := h.size[hp := n]);
      live := live[hp := n];
      total := total + n;
      Free(hp);
      assert live == old(live);
      return freep, false;
    }

    /** sbrk of the count for n units succeeds: it may grow the heap to the limit, and always shrink it. */
    predicate Granted(at: nat, n: nat) {
      ToInt32(n * HEADER) <= 0 || at * HEADER + ToInt32(n * HEADER) <= limit * HEADER
    }

    /**
      malloc: a fresh block of enough units, or 0 when no block fits and sbrk fails;
      or broken, for a request above 2^31 - 32 bytes that no free block fits.
     */
    method Malloc(nbytes: nat) returns (r: nat, broken: bool)
      requires Valid() && nbytes < 0x1_0000_0000
      modifies this`h, this`freep, this`brk, this`blocks, this`live, this`total
      ensures Valid() && freep != 0
      ensures r == 0 ==>
        && live == old(live) && total == old(total) && brk == old(brk) && NoFit(blocks, NUnits(nbytes))
        && (broken <==> Granted(brk, Least(NUnits(nbytes))))
      ensures nbytes <= SBRKMAX - 32 ==> !broken && (r == 0 ==> limit < brk + Least(NUnits(nbytes)))
      ensures r != 0 ==> !broken && r - 1 !in old(live) && live == old(live)[r - 1 := NUnits(nbytes)]
      ensures r != 0 ==> (live[r - 1] - 1) * 16 >= nbytes
      ensures total == old(total) || NoFit(old(blocks), NUnits(nbytes))
      ensures r != 0 && old(freep) != 0 && total == old(total) ==> NextFit(old(blocks), old(freep), NUnits(nbytes), r - 1, freep)
    {
      hide HeapOk, LiveUnits, Units, Passed, NoFit, Covers, ToInt32, NextFit, NUnits;
      SbrkCountExact(nbytes);
      var n := NUnits(nbytes);
      NUnitsFit(nbytes);
      var prevp := freep;
      if prevp == 0 {
        h := Headers(h.ptr[base := base], h.size[base := 0]);
        freep := base;
        prevp := base;
        blocks := [Blk(base, 0)];
        EmptyHeap(base, brk, h);
      }
      ghost var list := blocks;
      ghost var asked := false;
      ghost var f := Find(prevp);
      ghost var j, k := f, Next(|blocks|, f);
      PassedNone(blocks, n, f);
      Link(j);
      var p := h.ptr[prevp];
      Link(k);
      while h.size[p] < n
        invariant Valid() && freep != 0 && live == old(live)
        invariant 0 <= f < |blocks| && blocks[f].addr == freep
        invariant 0 <= j < |blocks| && k == Next(|blocks|, j)
        invariant prevp == blocks[j].addr && p == blocks[k].addr
        invariant p in h.size && h.size[p] == blocks[k].size && p in h.ptr && h.ptr[p] == blocks[Next(|blocks|, k)].addr
        invariant Passed(blocks, n, f, k)
        invariant if asked then NoFit(list, n) && !NoFit(blocks, n) && total > old(total)
                  else total == old(total) && brk == old(brk) && blocks == list && (old(freep) != 0 ==> freep == old(freep))
        decreases if asked then 0 else 1, |blocks| - Steps(|blocks|, f, k)
      {
        PassedStep(blocks, n, f, k);
        SameAddress(k, f);
        if p == freep {
          ghost var room := Blk(brk, Least(n));
          p, broken := MoreCore(n);
          if p == 0 { return 0, broken; }
          CoversFit(blocks, room, n);
          asked := true;
          f := Find(p);
          k := f;
          PassedNone(blocks, n, f);
          Link(k);
        }
        prevp, p := p, h.ptr[p];
        j, k := k, Next(|blocks|, k);
        Link(k);
      }
      ghost var all, from := blocks, freep;
      r := Take(prevp, p, n, k);
      FitsNext(all, from, n, f, k);
      broken := false;
    }

    lemma FitsNext(blocks: seq<Blk>, freep: nat, n: nat, f: nat, k: nat)
      requires f < |blocks| && blocks[f].addr == freep && 1 <= k < |blocks| && blocks[k].size >= n && Passed(blocks, n, f, k)
      ensures NextFit(blocks, freep, n, blocks[k].End() - n, blocks[k - 1].addr)
    {
      hide Passed;
    }

    lemma Find(a: nat) returns (k: nat)
      requires Valid() && freep != 0 && a == freep
      ensures k < |blocks| && blocks[k].addr == a
    {
      k :| 0 <= k < |blocks| && blocks[k].addr == freep;
    }

    lemma Link(k: nat)
      requires Valid() && freep != 0 && k < |blocks|
      ensures blocks[k].addr in h.ptr && h.ptr[blocks[k].addr] == blocks[Next(|blocks|, k)].addr
      ensures blocks[k].addr in h.size && h.size[blocks[k].addr] == blocks[k].size && blocks[k].addr != 0
    {
      Linked(k);
    }

    lemma SameAddress(k: nat, f: nat)
      requires Valid() && freep != 0 && k < |blocks| && f < |blocks|
      ensures blocks[k].addr == blocks[f].addr <==> k == f
    {
      ListAddresses(base, blocks, k);
    }

    /** Carve n units from block k, or unlink it when it has exactly n. */
    method Take(prevp: nat, p: nat, n: nat, ghost k: nat) returns (r: nat)
      requires Valid() && freep != 0 && n > 0 && k < |blocks| && blocks[k].size >= n && blocks[k].addr == p
      requires forall j :: 0 <= j < |blocks| && Next(|blocks|, j) == k ==> prevp == blocks[j].addr
      modifies this`h, this`freep, this`blocks, this`live
      ensures Valid() && freep != 0
      ensures r > 0 && r - 1 !in old(live) && live == old(live)[r - 1 := n]
      ensures k >= 1 && r - 1 == old(blocks)[k].End() - n && freep == old(blocks)[k - 1].addr
    {
      hide Stored, LiveOk, Units, LiveUnits;
      assert k >= 1 && Next(|blocks|, k - 1) == k;
      Link(k);
      Link(k - 1);
      if h.size[p] == n {
        TakenWhole(base, brk, h, freep, blocks, live, total, k);
        h := h.(ptr := h.ptr[prevp := h.ptr[p]]);
        blocks := blocks[..k] + blocks[k + 1..];
        live := live[p := n];
        r := p + 1;
      } else {
        TakenTail(base, brk, h, freep, blocks, live, total, k, n);
        var s := h.size[p] - n;
        h := h.(size := h.size[p := s][p + s := n]);
        blocks := blocks[k := Blk(p, s)];
        live := live[p + s := n];
        r := p + s + 1;
      }
      freep := prevp;
    }
  }

  lemma CoversFit(blocks: seq<Blk>, b: Blk, n: nat)
    requires Covers(blocks, b) && b.size >= n
    ensures !NoFit(blocks, n)
  {
    var i :| 0 <= i < |blocks| && blocks[i].addr <= b.addr && b.End() <= blocks[i].End();
  }
}
