/**
  kalloc.c and the user half of vm.c, working in place on physical pages: the
  intrusive free list, walk, mappages, uvmunmap, uvmalloc, uvmdealloc, uvmcopy,
  freewalk and uvmfree.
 */
module Vm {
  import opened Mmu
  import opened PageCost
  import opened Sv39

  datatype WalkResult = WalkPanic | NoEntry | At(table: nat, index: nat)

  datatype Outcome = Ok | Fail | Panic

  function PgRoundUp(x: nat): nat {
    (x + PGSIZE - 1) / PGSIZE * PGSIZE
  }

  /** PGROUNDUP: the least multiple of 4096 that is not below x. */
  lemma RoundsUp(x: nat)
    ensures PgRoundUp(x) % 4096 == 0 && x <= PgRoundUp(x) < x + 4096
  {
  }

  ghost function FreeSet(free: seq<nat>): set<nat> {
    set i | 0 <= i < |free| :: free[i]
  }

  /** Pages of tables that the tree gained. */
  ghost function NewTables(tables: Tables, tables': Tables): set<nat> {
    set id | id in tables' && id !in tables :: tables'[id]
  }

  ghost predicate Extends(tables: Tables, tables': Tables) {
    forall id :: id in tables ==> id in tables' && tables'[id] == tables[id]
  }

  function Count(refs: map<nat, nat>, pa: nat): nat {
    if pa / PGSIZE in refs then refs[pa / PGSIZE] else 0
  }

  datatype Heap = Heap(pages: Pages, refs: map<nat, nat>, free: seq<nat>)

  /** q is an allocated page that is no table of the tree. */
  ghost predicate DataPage(h: Heap, tables: Tables, q: nat) {
    q in h.pages && 0 < q && q % PGSIZE == 0 && q !in h.free && Outside(tables, q)
  }

  /** Data pages keep their contents and reference counts, and stay data pages. */
  ghost predicate KeepsData(h: Heap, tables: Tables, h': Heap, tables': Tables) {
    forall q :: DataPage(h, tables, q) ==>
      DataPage(h', tables', q) && h'.pages[q] == h.pages[q] && Count(h'.refs, q) == Count(h.refs, q)
  }

  /** The tree only gained tables, taken from the free list, and no data page changed. */
  ghost predicate Kept(h: Heap, tables: Tables, h': Heap, tables': Tables) {
    && TreeOk(h.pages, tables) && TreeOk(h'.pages, tables')
    && Extends(tables, tables')
    && FreeSet(h.free) == FreeSet(h'.free) + NewTables(tables, tables')
    && KeepsData(h, tables, h', tables')
  }

  /** The same, and no mapping changed. */
  ghost predicate Grew(h: Heap, tables: Tables, h': Heap, tables': Tables) {
    Kept(h, tables, h', tables') && SameLeaves(h.pages, tables, h'.pages, tables')
  }

  lemma KeptTrans(h: Heap, t: Tables, h1: Heap, t1: Tables, h2: Heap, t2: Tables)
    requires Kept(h, t, h1, t1) && Kept(h1, t1, h2, t2)
    ensures Kept(h, t, h2, t2)
  {
    hide TreeOk, FreeSet, DataPage;
    assert NewTables(t, t2) == NewTables(t, t1) + NewTables(t1, t2);
  }

  lemma GrewTrans(h: Heap, t: Tables, h1: Heap, t1: Tables, h2: Heap, t2: Tables)
    requires Grew(h, t, h1, t1) && Grew(h1, t1, h2, t2)
    ensures Grew(h, t, h2, t2)
  {
    KeptTrans(h, t, h1, t1, h2, t2);
    hide TreeOk, FreeSet, DataPage, Leaf;
  }

  /** The mapping of page v became pte and every other is as before. */
  ghost predicate Remapped(pages: Pages, tables: Tables, pages': Pages, tables': Tables, v: nat, pte: nat)
    requires TreeOk(pages, tables) && TreeOk(pages', tables')
  {
    forall w :: Leaf(pages', tables', w) == if w == v then pte else Leaf(pages, tables, w)
  }

  lemma GrewRemapped(h: Heap, t: Tables, h1: Heap, t1: Tables, h2: Heap, t2: Tables, v: nat, pte: nat)
    requires Grew(h, t, h1, t1) && TreeOk(h2.pages, t2) && Remapped(h1.pages, t1, h2.pages, t2, v, pte)
    ensures Remapped(h.pages, t, h2.pages, t2, v, pte)
  {
    hide TreeOk, Leaf;
  }

  /** One reference to the data page f is gone, and f is free if it was the last; no other data page changed. */
  ghost predicate FreedOne(h: Heap, h': Heap, tables: Tables, f: nat) {
    && h'.free == (if Count(h.refs, f) <= 1 then [f] + h.free else h.free)
    && (Count(h.refs, f) > 1 ==> StillShared(h, h', tables, f))
    && forall q :: DataPage(h, tables, q) && q != f ==>
         DataPage(h', tables, q) && h'.pages[q] == h.pages[q] && Count(h'.refs, q) == Count(h.refs, q)
  }

  /** q lost one of its references, and is otherwise as it was. */
  ghost predicate StillShared(h: Heap, h': Heap, tables: Tables, q: nat) {
    DataPage(h, tables, q) ==>
      DataPage(h', tables, q) && h'.pages[q] == h.pages[q] && Count(h'.refs, q) == Count(h.refs, q) - 1
  }

  /** Those of the pages with no other reference. */
  ghost function LastRefs(h: Heap, frames: set<nat>): set<nat> {
    set f | f in frames && Count(h.refs, f) <= 1
  }

  /**
    One reference to each data page in `frames` is gone, and those without
    another went back to the free list; no other data page changed.
   */
  ghost predicate FreedRun(h: Heap, h': Heap, tables: Tables, frames: set<nat>) {
    && FreeSet(h'.free) == FreeSet(h.free) + LastRefs(h, frames)
    && (forall q :: q in frames && Count(h.refs, q) > 1 ==> StillShared(h, h', tables, q))
    && forall q :: DataPage(h, tables, q) && q !in frames ==>
         DataPage(h', tables, q) && h'.pages[q] == h.pages[q] && Count(h'.refs, q) == Count(h.refs, q)
  }

  /** The pages behind the mapped virtual pages lo .. hi. */
  ghost function FramesOf(pages: Pages, tables: Tables, lo: nat, hi: nat): set<nat>
    requires TreeOk(pages, tables)
  {
    set v: nat | lo <= v < hi && Leaf(pages, tables, v) != 0 :: Pte2Pa(Leaf(pages, tables, v))
  }

  ghost predicate Unmapped(pages: Pages, tables: Tables, pages': Pages, lo: nat, hi: nat)
    requires TreeOk(pages, tables) && TreeOk(pages', tables)
  {
    forall w: nat :: Leaf(pages', tables, w) == if lo <= w < hi then 0 else Leaf(pages, tables, w)
  }

  ghost predicate NoneMapped(pages: Pages, tables: Tables, lo: nat, hi: nat)
    requires TreeOk(pages, tables)
  {
    forall w: nat :: lo <= w < hi ==> Leaf(pages, tables, w) == 0
  }

  ghost predicate AllMapped(pages: Pages, tables: Tables, lo: nat, hi: nat)
    requires TreeOk(pages, tables)
  {
    (lo < hi ==> hi <= MAXPAGE) && forall w: nat :: lo <= w < hi ==> Leaf(pages, tables, w) != 0
  }

  lemma FreedRunGrows(h: Heap, h1: Heap, h2: Heap, t: Tables, frames: set<nat>, f: nat)
    requires FreedRun(h, h1, t, frames) && FreedOne(h1, h2, t, f) && f !in frames && DataPage(h, t, f)
    requires forall q :: q in frames ==> DataPage(h, t, q)
    ensures FreedRun(h, h2, t, frames + {f})
  {
    hide DataPage;
    Pushed(h1.free, f);
    assert Count(h1.refs, f) == Count(h.refs, f);
    assert LastRefs(h, frames + {f}) == LastRefs(h, frames) + if Count(h.refs, f) <= 1 then {f} else {};
  }

  lemma FreedOthers(h: Heap, h': Heap, t: Tables, frames: set<nat>)
    requires FreedRun(h, h', t, frames)
    ensures FreeSet(h'.free) == FreeSet(h.free) + LastRefs(h, frames)
    ensures forall q :: DataPage(h, t, q) && q !in frames ==>
      DataPage(h', t, q) && h'.pages[q] == h.pages[q] && Count(h'.refs, q) == Count(h.refs, q)
  {
  }

  lemma Pushed(free: seq<nat>, f: nat)
    ensures FreeSet([f] + free) == {f} + FreeSet(free)
  {
    assert ([f] + free)[0] == f;
    assert forall i :: 0 <= i < |free| ==> ([f] + free)[i + 1] == free[i];
  }

  /** The n pages from lo on can be mapped without a panic. */
  ghost predicate Mappable(pages: Pages, tables: Tables, lo: nat, n: nat)
    requires TreeOk(pages, tables)
  {
    NoneMapped(pages, tables, lo, lo + n) && (n > 0 ==> lo + n <= MAXPAGE)
  }

  /**
    How filling the n pages from lo on ended, when there is something to put into
    the first src of them: `good` pages fit, and the next one was not wanted, was
    more than the free list held, or met a panic.
   */
  ghost predicate Ended(o: Outcome, good: nat, h: Heap, t: Tables, lo: nat, n: nat, src: nat)
    requires TreeOk(h.pages, t)
  {
    && good <= n && good <= src && Mappable(h.pages, t, lo, good) && Needed(t, lo, good) <= |h.free|
    && match o {
      case Ok => good == n
      case Fail =>
        && good < n && good < src && |h.free| < Needed(t, lo, good + 1)
        && (Mappable(h.pages, t, lo, good + 1) || |h.free| == Needed(t, lo, good))
      case Panic =>
        && good < n
        && (good == src || (Needed(t, lo, good) < |h.free| && !Mappable(h.pages, t, lo, good + 1)))
    }
  }

  /** There is one way for it to end: what the tree, the free list and the range are decides it. */
  lemma EndsOneWay(o: Outcome, good: nat, o': Outcome, good': nat, h: Heap, t: Tables, lo: nat, n: nat, src: nat)
    requires TreeOk(h.pages, t) && Ended(o, good, h, t, lo, n, src) && Ended(o', good', h, t, lo, n, src)
    ensures o == o' && good == good'
  {
    hide TreeOk, Leaf, Needed;
    if good < good' {
      GoesOn(o, good, good', h, t, lo, n, src);
    } else if good' < good {
      GoesOn(o', good', good, h, t, lo, n, src);
    }
  }

  lemma GoesOn(o: Outcome, good: nat, more: nat, h: Heap, t: Tables, lo: nat, n: nat, src: nat)
    requires TreeOk(h.pages, t) && good < more <= n && more <= src
    requires Mappable(h.pages, t, lo, more) && Needed(t, lo, more) <= |h.free|
    ensures !Ended(o, good, h, t, lo, n, src)
  {
    hide TreeOk, Leaf, Needed;
    assert Mappable(h.pages, t, lo, good + 1);
    NeededGrows(t, lo, good, more);
    if good + 1 < more { NeededGrows(t, lo, good + 1, more); }
  }

  /** With nothing in the way, it fails exactly when the free list is too short. */
  lemma EndsWell(o: Outcome, good: nat, h: Heap, t: Tables, lo: nat, n: nat, src: nat)
    requires TreeOk(h.pages, t) && Ended(o, good, h, t, lo, n, src)
    requires Mappable(h.pages, t, lo, n) && n <= src
    ensures o != Panic && (o == Fail <==> |h.free| < Needed(t, lo, n))
  {
    hide TreeOk, Leaf, Needed;
    if good < n {
      assert Mappable(h.pages, t, lo, good + 1);
      if good + 1 < n { NeededGrows(t, lo, good + 1, n); }
    }
  }

  // ----- the reference counters as the code declares them -----

  const KERNBASE := 0x8000_0000
  const PHYSTOP := KERNBASE + 128 * 1024 * 1024
  const COUNTERS := (PHYSTOP - KERNBASE) / PGSIZE   // entries of ref_counter

  /**
    kalloc and kfree index ref_counter with the absolute page number, and that is
    within the array exactly for pages below 128 MB: for no page of RAM.
   */
  lemma CounterOutside(pa: nat)
    ensures pa / 4096 < COUNTERS <==> pa < 0x800_0000
    ensures 0x8000_0000 <= pa < 0x8800_0000 ==> pa / 4096 >= COUNTERS
  {
  }

  /**
    The store lands four megabytes past the array: for an array in a kernel that
    ends within the first four megabytes of RAM, that is memory which kalloc hands out.
   */
  lemma CounterStoreLands(table: nat, end: nat, pa: nat)
    requires 0x8000_0000 <= table <= end <= 0x8040_0000 && 0x8000_0000 <= pa < 0x8800_0000
    ensures end <= table + 8 * (pa / 4096) < 0x8800_0000
  {
    assert KERNBASE / PGSIZE <= pa / PGSIZE < PHYSTOP / PGSIZE;
  }

  class Memory {
    const end: nat                // first page after the kernel
    const phystop: nat
    var pages: Pages              // physical memory, by page address
    var head: nat                 // kmem.freelist
    var refs: map<nat, nat>       // ref_counter, by page number
    ghost var free: seq<nat>      // the pages on the list that starts at head

    predicate Managed(pa: nat) {
      pa % PGSIZE == 0 && end <= pa < phystop
    }

    function RefCount(pa: nat): nat
      reads this`refs
    {
      Count(refs, pa)
    }

    ghost function H(): Heap
      reads this`pages, this`refs, this`free
    {
      Heap(pages, refs, free)
    }

    /** The list from head runs through the pages of `free`, each once. */
    ghost predicate KValid()
      reads this`pages, this`head, this`free
    {
      && PGSIZE <= end
      && (forall pa :: Managed(pa) ==> pa in pages)
      && (forall i :: 0 <= i < |free| ==> Managed(free[i]))
      && (forall i :: 0 <= i < |free| ==> free[i] in pages && pages[free[i]][0] == NextFree(i + 1))
      && (forall i, j :: 0 <= i < j < |free| ==> free[i] != free[j])
      && head == NextFree(0)
    }

    ghost function NextFree(i: nat): nat
      reads this`free
    {
      if i < |free| then free[i] else 0
    }

    /** RAM at boot, nothing on the free list yet. */
    constructor (end: nat, phystop: nat, ram: Pages)
      requires PGSIZE <= end && forall pa :: pa % PGSIZE == 0 && end <= pa < phystop ==> pa in ram
      ensures KValid() && free == [] && this.end == end && this.phystop == phystop && pages == ram && refs == map[]
    {
      this.end, this.phystop := end, phystop;
      pages, head, refs, free := ram, 0, map[], [];
    }

    /** kinit's freerange: every whole page from the kernel's end to phystop goes on the list. */
    method FreeRange()
      requires KValid() && free == [] && refs == map[]
      modifies this`pages, this`head, this`refs, this`free
      ensures KValid() && forall pa: nat :: pa in free <==> Managed(pa) && pa + PGSIZE <= phystop
    {
      hide KValid;
      var p := PgRoundUp(end);
      while p + PGSIZE <= phystop
        invariant KValid() && p % PGSIZE == 0 && end <= p
        invariant forall pa: nat :: pa in free <==> Managed(pa) && pa < p && pa + PGSIZE <= phystop
        invariant forall k :: k in refs ==> refs[k] == 0
      {
        var ok := Kfree(p);
        NextPages(p);
        p := p + PGSIZE;
      }
      NextPages(p);
    }

    lemma NextPages(p: nat)
      requires p % PGSIZE == 0
      ensures forall pa: nat :: pa % PGSIZE == 0 && pa != p ==> pa + PGSIZE <= p || p + PGSIZE <= pa
    {
    }

    /** uvmcreate: a table that maps nothing; 0 when memory is out. */
    method UvmCreate() returns (root: nat)
      requires KValid()
      modifies this`pages, this`head, this`refs, this`free
      ensures KValid()
      ensures root == 0 <==> old(free) == []
      ensures root != 0 ==>
        && root == old(free)[0] && free == old(free)[1..]
        && Safe(map[0 := root]) && forall v :: Leaf(pages, map[0 := root], v) == 0
    {
      root := Kalloc();
      if root == 0 { return; }
      assert root !in free;
      Store(root, ZeroPage());
      EmptyTree(pages, root);
    }

    lemma EmptyTree(pages: Pages, root: nat)
      requires root in pages && pages[root] == ZeroPage() && root % PGSIZE == 0
      ensures TreeOk(pages, map[0 := root]) && forall v :: Leaf(pages, map[0 := root], v) == 0
    {
      var t: Tables := map[0 := root];
      assert forall i :: 0 <= i < FANOUT ==> Child(0, i) != 0;
      assert NodeOk(pages, t, 0);
    }

    /** Allocate one page; 0 if there is none. */
    method Kalloc() returns (r: nat)
      requires KValid()
      modifies this`pages, this`head, this`refs, this`free
      ensures KValid()
      ensures old(free) == [] ==> r == 0 && free == [] && pages == old(pages)
      ensures old(free) != [] ==> r == old(free)[0] && free == old(free)[1..]
      ensures old(free) != [] ==> pages == old(pages)[r := seq(FANOUT, _ => 0x0505050505050505)]
      ensures refs == old(refs)[r / PGSIZE := 1]
    {
      r := head;
      if r != 0 {
        assert r == free[0];
        head := pages[r][0];
        free := free[1..];
      }
      refs := refs[r / PGSIZE := 1];
      if r != 0 {
        pages := pages[r := seq(FANOUT, _ => 0x0505050505050505)];
      }
    }

    /** Drop one reference to a page, and free it with the last; ok is false for the panic. */
    method Kfree(pa: nat) returns (ok: bool)
      requires KValid() && pa !in free
      modifies this`pages, this`head, this`refs, this`free
      ensures KValid()
      ensures ok <==> Managed(pa)
      ensures !ok ==> pages == old(pages) && free == old(free) && refs == old(refs)
      ensures ok && old(RefCount(pa)) > 1 ==>
        pages == old(pages) && free == old(free) && refs == old(refs)[pa / PGSIZE := old(RefCount(pa)) - 1]
      ensures ok && old(RefCount(pa)) <= 1 ==>
        free == [pa] + old(free) && refs == old(refs)[pa / PGSIZE := 0]
        && pages.Keys == old(pages).Keys && forall q :: q in pages && q != pa ==> pages[q] == old(pages)[q]
    {
      if pa % PGSIZE != 0 || pa < end || pa >= phystop { return false; }
      if RefCount(pa) > 1 {
        refs := refs[pa / PGSIZE := RefCount(pa) - 1];
        return true;
      }
      refs := refs[pa / PGSIZE := 0];
      pages := pages[pa := seq(FANOUT, _ => 0x0101010101010101)[0 := head]];
      head := pa;
      free := [pa] + free;
      return true;
    }

    method AddPageReference(pa: nat)
      modifies this`refs
      ensures refs == old(refs)[pa / PGSIZE := old(RefCount(pa)) + 1]
    {
      refs := refs[pa / PGSIZE := RefCount(pa) + 1];
    }

    /** A reference taken to an allocated page and given up by kfree leaves everything as it was. */
    method ShareAndFree(pa: nat) returns (ok: bool)
      requires KValid() && Managed(pa) && pa !in free && RefCount(pa) >= 1
      modifies this`pages, this`head, this`refs, this`free
      ensures ok && KValid() && pages == old(pages) && free == old(free) && head == old(head) && refs == old(refs)
    {
      AddPageReference(pa);
      ok := Kfree(pa);
      assert old(refs)[pa / PGSIZE := old(RefCount(pa)) + 1][pa / PGSIZE := old(RefCount(pa))] == old(refs);
    }

    /** Pages of the tree are allocated, once. */
    ghost predicate Safe(tables: Tables)
      reads this`pages, this`head, this`free, this`refs
    {
      && KValid() && TreeOk(pages, tables)
      && forall id :: id in tables ==> Managed(tables[id]) && tables[id] !in free && RefCount(tables[id]) == 1
    }

    /** A store into an allocated page. */
    method Store(pa: nat, p: Page)
      requires KValid() && pa in pages && pa !in free
      modifies this`pages
      ensures KValid() && pages == old(pages)[pa := p]
    {
      pages := pages[pa := p];
    }

    /** walk's allocation of one table page for the empty entry i of node id. */
    method AddTable(table: nat, i: nat, ghost tables: Tables, ghost id: nat) returns (child: nat, ghost tables': Tables)
      requires Safe(tables) && id in tables && tables[id] == table && id < FIRSTLOW && i < FANOUT
      requires Child(id, i) !in tables
      modifies this`pages, this`head, this`refs, this`free
      ensures Safe(tables')
      ensures old(free) == [] ==> child == 0 && tables' == tables && free == [] && pages == old(pages)
      ensures old(free) != [] ==> child == old(free)[0] && free == old(free)[1..] && tables' == tables[Child(id, i) := child]
      ensures Grew(old(H()), tables, H(), tables')
    {
      hide KValid, TreeOk, NodeOk, SameLeaves;
      tables' := tables;
      SameAsBefore(tables);
      child := Kalloc();
      if child == 0 { return; }
      Store(child, ZeroPage());
      LinkKeepsTree(old(pages), tables, id, i, child);
      Store(table, pages[table][i := Pack(child, PTE_V)]);
      tables' := tables[Child(id, i) := child];
      assert pages == Linked(old(pages), tables, id, i, child);
      TookOne(old(H()), tables, H(), Child(id, i));
    }

    lemma TookOne(h: Heap, tables: Tables, h': Heap, c: nat)
      requires |h.free| > 0 && h'.free == h.free[1..] && c !in tables && h.free[0] !in h'.free
      requires h.free[0] % PGSIZE == 0 && h'.refs == h.refs[h.free[0] / PGSIZE := 1]
      requires h.pages.Keys <= h'.pages.Keys
      requires forall q :: q in h.pages && q != h.free[0] && Outside(tables, q) ==> h'.pages[q] == h.pages[q]
      ensures FreeSet(h.free) == FreeSet(h'.free) + NewTables(tables, tables[c := h.free[0]])
      ensures KeepsData(h, tables, h', tables[c := h.free[0]])
    {
      var tables' := tables[c := h.free[0]];
      assert NewTables(tables, tables') == {h.free[0]} by { assert tables'[c] == h.free[0]; }
      assert h.free == [h.free[0]] + h'.free;
      forall q: nat | DataPage(h, tables, q)
        ensures DataPage(h', tables', q) && Count(h'.refs, q) == Count(h.refs, q)
      {
        assert h.free[0] in h.free;
        PageNumbers(q, h.free[0]);
      }
    }

    lemma SameAsBefore(tables: Tables)
      requires Safe(tables)
      ensures Grew(H(), tables, H(), tables) && Grew(H(), tables, H().(refs := refs[0 := 1]), tables)
      ensures free != [] ==> Managed(free[0]) && Outside(tables, free[0]) && free[0] != 0 && free[0] !in free[1..]
    {
      hide NodeOk;
    }

    /** One level of walk: the table behind entry i, created if missing and alloc; 0 if there is none. */
    method Descend(table: nat, i: nat, alloc: bool, ghost tables: Tables, ghost id: nat) returns (child: nat, ghost tables': Tables)
      requires Safe(tables) && id in tables && tables[id] == table && id < FIRSTLOW && i < FANOUT
      modifies this`pages, this`head, this`refs, this`free
      ensures Safe(tables') && Extends(tables, tables') && Grew(old(H()), tables, H(), tables')
      ensures !alloc ==> tables' == tables && H() == old(H())
      ensures child == 0 ==> Child(id, i) !in tables && tables' == tables && free == old(free) && (alloc ==> free == [])
      ensures child != 0 ==> Child(id, i) in tables' && tables'[Child(id, i)] == child
      ensures child != 0 ==> Costs(|old(free)|, tables, |free|, tables', {Child(id, i)}, 0)
    {
      EntryAt(tables, id, i);
      SameAsBefore(tables);
      hide TreeOk, NodeOk, SameLeaves, KeepsData, KValid, Costs;
      tables' := tables;
      var pte := pages[table][i];
      if Valid(pte) {
        child := Pte2Pa(pte);
        CostsNone(|free|, tables, Child(id, i));
      } else if !alloc {
        child := 0;
      } else {
        child, tables' := AddTable(table, i, tables, id);
        if child != 0 { CostsOne(|old(free)|, tables, Child(id, i), child); }
      }
    }

    lemma EntryAt(tables: Tables, id: nat, i: nat)
      requires Safe(tables) && id in tables && id < FIRSTLOW && i < FANOUT
      ensures tables[id] in pages
      ensures Valid(pages[tables[id]][i]) <==> Child(id, i) in tables
      ensures Child(id, i) in tables ==> Pte2Pa(pages[tables[id]][i]) == tables[Child(id, i)] != 0
    {
      hide TreeOk;
      EntryLeads(pages, tables, id, i);
    }

    /** A page-table walk; with alloc, missing tables are created on the way. */
    method Walk(root: nat, va: nat, alloc: bool, ghost tables: Tables) returns (r: WalkResult, ghost tables': Tables)
      requires Safe(tables) && 0 in tables && tables[0] == root
      modifies this`pages, this`head, this`refs, this`free
      ensures Safe(tables') && 0 in tables' && tables'[0] == root && Grew(old(H()), tables, H(), tables')
      ensures !alloc ==> tables' == tables && H() == old(H())
      ensures r == WalkPanic <==> va >= 0x40_0000_0000
      ensures r == NoEntry ==> LowNode(Vpn(va)) !in tables && (alloc ==> free == [])
      ensures r == NoEntry && alloc ==> |old(free)| < Missing(tables, PathOf(Vpn(va)))
      ensures r.At? ==> Costs(|old(free)|, tables, |free|, tables', PathOf(Vpn(va)), 0)
      ensures r.At? ==> LowNode(Vpn(va)) in tables' && r.table == tables'[LowNode(Vpn(va))] && r.index == Vpn(va) % FANOUT
    {
      hide Safe, Grew, Px, Child, LowNode, PathNode, Vpn, WayTo, PathOf, Costs, Missing;
      WalkStart(tables, va);
      CostsNothing(|free|, tables);
      PathNodes(va);
      tables' := tables;
      if va >= MAXVA { return WalkPanic, tables; }
      var level, table := 2, root;
      ghost var id := 0;
      while level > 0
        invariant 0 <= level <= 2 && Safe(tables') && 0 in tables' && tables'[0] == root && Grew(old(H()), tables, H(), tables')
        invariant !alloc ==> tables' == tables && H() == old(H())
        invariant Extends(tables, tables')
        invariant id in tables' && tables'[id] == table && id == PathNode(level, va)
        invariant Costs(|old(free)|, tables, |free|, tables', WayTo(level, va), 0)
      {
        ghost var h, t := H(), tables';
        table, tables' := Descend(table, Px(level, va), alloc, tables', id);
        GrewTrans(old(H()), tables, h, t, H(), tables');
        if table == 0 {
          if alloc { WayBlocked(|old(free)|, tables, tables', level, va); }
          return NoEntry, tables';
        }
        CostsAdd(|old(free)|, tables, |h.free|, t, WayTo(level, va), 0, |free|, tables', {Child(id, Px(level, va))}, 0);
        id := Child(id, Px(level, va));
        level := level - 1;
      }
      return At(table, Px(0, va)), tables';
    }

    /** The node whose table the walk to va looks into at a level. */
    ghost function PathNode(level: nat, va: nat): nat
      requires level <= 2
    {
      if level == 2 then 0 else if level == 1 then MidNode(Vpn(va)) else LowNode(Vpn(va))
    }

    /** The nodes entered on the way to va when the walk is at a level. */
    ghost function WayTo(level: nat, va: nat): set<nat>
      requires level <= 2
    {
      if level == 2 then {} else if level == 1 then {PathNode(1, va)} else {PathNode(1, va), PathNode(0, va)}
    }

    /** A walk out of pages is short of tables for its path. */
    lemma WayBlocked(free: nat, t: Tables, t1: Tables, level: nat, va: nat)
      requires 1 <= level <= 2 && PathNode(level - 1, va) !in t1
      requires Costs(free, t, 0, t1, WayTo(level, va), 0)
      ensures free < Missing(t, PathOf(Vpn(va)))
    {
      hide Missing, LowNode, Vpn;
      StopsShort(t, t1, WayTo(level, va), PathOf(Vpn(va)), PathNode(level - 1, va));
    }

    lemma WalkStart(tables: Tables, va: nat)
      requires Safe(tables)
      ensures Grew(H(), tables, H(), tables) && Extends(tables, tables)
      ensures PathNode(0, va) in tables ==> PathNode(1, va) in tables
    {
      hide TreeOk, Grew, KValid;
      SameAsBefore(tables);
      if PathNode(0, va) in tables { LowNeedsMid(pages, tables, Vpn(va)); }
    }

    lemma PathNodes(va: nat)
      ensures PathNode(2, va) == 0
      ensures WayTo(2, va) == {} && WayTo(1, va) == WayTo(2, va) + {PathNode(1, va)}
      ensures WayTo(0, va) == WayTo(1, va) + {PathNode(0, va)} == PathOf(Vpn(va))
      ensures PathNode(0, va) == LowNode(Vpn(va))
      ensures va < MAXVA ==> Child(0, Px(2, va)) == PathNode(1, va) < FIRSTLOW
      ensures va < MAXVA ==> Child(PathNode(1, va), Px(1, va)) == PathNode(0, va)
      ensures Px(0, va) == Vpn(va) % FANOUT
    {
    }

    /** A store into the leaf entry of page v. */
    method StoreLeaf(table: nat, index: nat, pte: nat, ghost tables: Tables, ghost v: nat)
      requires Safe(tables) && LowNode(v) in tables && tables[LowNode(v)] == table && index == v % FANOUT && LeafOk(pte)
      modifies this`pages
      ensures Safe(tables) && Kept(old(H()), tables, H(), tables)
      ensures Remapped(old(pages), tables, pages, tables, v, pte)
    {
      hide TreeOk, NodeOk, Leaf, KValid;
      SetLeaf(pages, tables, v, pte);
      Store(table, pages[table][index := pte]);
      OnlyTable(old(H()), H(), tables, LowNode(v));
    }

    lemma OnlyTable(h: Heap, h': Heap, tables: Tables, id: nat)
      requires id in tables && h'.free == h.free && h'.refs == h.refs
      requires tables[id] in h.pages && tables[id] in h'.pages && h'.pages == h.pages[tables[id] := h'.pages[tables[id]]]
      ensures KeepsData(h, tables, h', tables) && FreeSet(h.free) == FreeSet(h'.free) + NewTables(tables, tables)
    {
      assert NewTables(tables, tables) == {};
    }

    lemma LeafAt(tables: Tables, v: nat)
      requires Safe(tables)
      ensures LowNode(v) in tables ==>
        tables[LowNode(v)] in pages && pages[tables[LowNode(v)]][v % FANOUT] == Leaf(pages, tables, v)
      ensures LowNode(v) !in tables ==> Leaf(pages, tables, v) == 0
      ensures LeafOk(Leaf(pages, tables, v))
    {
      assert LowNode(v) in tables ==> NodeOk(pages, tables, LowNode(v));
    }

    /** One turn of mappages' loop: map page va to pa. */
    method MapOne(root: nat, va: nat, pa: nat, flags: nat, ghost tables: Tables) returns (r: Outcome, ghost tables': Tables)
      requires Safe(tables) && 0 in tables && tables[0] == root
      requires flags < 1024 && Rwx(flags)
      modifies this`pages, this`head, this`refs, this`free
      ensures Safe(tables') && 0 in tables' && tables'[0] == root && Kept(old(H()), tables, H(), tables')
      ensures r == Panic <==> va >= MAXVA || Leaf(old(pages), tables, Vpn(va)) != 0
      ensures r == Fail ==> free == [] && |old(free)| < Missing(tables, PathOf(Vpn(va)))
      ensures r == Ok ==> Costs(|old(free)|, tables, |free|, tables', PathOf(Vpn(va)), 0)
      ensures r != Ok ==> Grew(old(H()), tables, H(), tables')
      ensures r == Ok ==> Remapped(old(pages), tables, pages, tables', Vpn(va), Pack(pa, WithV(flags)))
    {
      hide Safe, Leaf, Vpn, LowNode, Pack, KeepsData, NewTables, FreeSet, TreeOk, Remapped, PathOf, Costs, Missing;
      LeafAt(tables, Vpn(va));
      var w;
      w, tables' := Walk(root, va, true, tables);
      if w == WalkPanic { return Panic, tables'; }
      if w == NoEntry { return Fail, tables'; }
      LeafAt(tables', Vpn(va));
      if Valid(pages[w.table][w.index]) { return Panic, tables'; }
      LeafFlags(pa, flags);
      ghost var mid := H();
      StoreLeaf(w.table, w.index, Pack(pa, WithV(flags)), tables', Vpn(va));
      KeptTrans(old(H()), tables, mid, tables', H(), tables');
      GrewRemapped(old(H()), tables, mid, tables', H(), tables', Vpn(va), Pack(pa, WithV(flags)));
      r := Ok;
    }

    lemma LeafFlags(pa: nat, flags: nat)
      requires Rwx(flags)
      ensures Valid(Pack(pa, WithV(flags))) && Rwx(Pack(pa, WithV(flags)))
    {
      PackBits(pa, WithV(flags));
      assert WithV(flags) / 2 == flags / 2;
    }

    /** Pages lo .. lo + n of the tree map to consecutive pages from pa on, and no other mapping changed. */
    ghost predicate MappedRun(pages: Pages, tables: Tables, pages': Pages, tables': Tables, lo: nat, n: nat, pa: nat, flags: nat)
      requires TreeOk(pages, tables) && TreeOk(pages', tables')
    {
      forall w: nat :: Leaf(pages', tables', w) ==
        if lo <= w < lo + n then Pack(pa + (w - lo) * PGSIZE, WithV(flags)) else Leaf(pages, tables, w)
    }

    lemma MappedRunGrows(h: Heap, t: Tables, h1: Heap, t1: Tables, h2: Heap, t2: Tables, lo: nat, n: nat, pa: nat, flags: nat)
      requires TreeOk(h.pages, t) && TreeOk(h1.pages, t1) && TreeOk(h2.pages, t2)
      requires MappedRun(h.pages, t, h1.pages, t1, lo, n, pa, flags)
      requires Remapped(h1.pages, t1, h2.pages, t2, lo + n, Pack(pa + n * PGSIZE, WithV(flags)))
      ensures MappedRun(h.pages, t, h2.pages, t2, lo, n + 1, pa, flags)
    {
      hide TreeOk, Leaf, Pack;
    }

    /** The same as the hardware translates: n pages from lo on lead to consecutive pages from pa on, with these permissions. */
    ghost predicate MapsRun(pages: Pages, pages': Pages, root: nat, lo: nat, n: nat, pa: nat, perm: nat) {
      forall va: nat :: va < 0x40_0000_0000 ==>
        Translate(pages', root, va) == if lo <= va / 4096 < lo + n then Granted(pa / 4096 + va / 4096 - lo, perm, va) else Translate(pages, root, va)
    }

    lemma RunTranslates(pages: Pages, tables: Tables, pages': Pages, tables': Tables, lo: nat, n: nat, pa: nat, perm: nat)
      requires TreeOk(pages, tables) && TreeOk(pages', tables') && tables'[0] == tables[0] && perm < 1024 && Rwx(perm)
      requires MappedRun(pages, tables, pages', tables', lo, n, pa, perm)
      ensures MapsRun(pages, pages', tables[0], lo, n, pa, perm)
    {
      var root := tables[0];
      hide TreeOk, Translate, Granted, MappedRun;
      forall va: nat | va < 0x40_0000_0000
        ensures Translate(pages', root, va) ==
          if lo <= va / 4096 < lo + n then Granted(pa / 4096 + va / 4096 - lo, perm, va) else Translate(pages, root, va)
      {
        RunTranslatesAt(pages, tables, pages', tables', lo, n, pa, perm, va);
      }
    }

    lemma RunTranslatesAt(pages: Pages, tables: Tables, pages': Pages, tables': Tables, lo: nat, n: nat, pa: nat, perm: nat, va: nat)
      requires TreeOk(pages, tables) && TreeOk(pages', tables') && perm < 1024 && Rwx(perm) && va < 0x40_0000_0000
      requires MappedRun(pages, tables, pages', tables', lo, n, pa, perm)
      ensures Translate(pages', tables'[0], va) ==
        if lo <= va / 4096 < lo + n then Granted(pa / 4096 + va / 4096 - lo, perm, va) else Translate(pages, tables[0], va)
    {
      hide TreeOk, Leaf, Pack, Translate, Granted, WithV, Rwx;
      var v := va / 4096;
      TranslatesLeaf(pages, tables, va);
      TranslatesLeaf(pages', tables', va);
      if lo <= v < lo + n {
        PackGrants(pa + (v - lo) * PGSIZE, perm, va);
        PagesOn(pa, v - lo);
      }
    }

    lemma PagesOn(pa: nat, k: nat)
      ensures (pa + k * PGSIZE) / 4096 == pa / 4096 + k
    {
    }

    /** Map the pages covering va .. va + size to pa on; `done` is how many pages were mapped. */
    method MapPages(root: nat, va: nat, size: nat, pa: nat, perm: nat, ghost tables: Tables)
      returns (r: Outcome, ghost tables': Tables, ghost done: nat)
      requires Safe(tables) && 0 in tables && tables[0] == root
      requires perm < 1024 && Rwx(perm)
      modifies this`pages, this`head, this`refs, this`free
      ensures Safe(tables') && 0 in tables' && tables'[0] == root && Kept(old(H()), tables, H(), tables')
      ensures MappedRun(old(pages), tables, pages, tables', Vpn(va), done, pa, perm)
      ensures MapsRun(old(pages), pages, root, Vpn(va), done, pa, perm)
      ensures r == Ok ==> size > 0 && done == Vpn(va + size - 1) - Vpn(va) + 1
      ensures r == Fail ==> size > 0 && free == [] && done <= Vpn(va + size - 1) - Vpn(va)
      ensures Mappable(old(pages), tables, Vpn(va), done)
      ensures r == Ok ==> Costs(|old(free)|, tables, |free|, tables', Nodes(Vpn(va), done), 0)
      ensures r == Fail ==> Mappable(old(pages), tables, Vpn(va), done + 1)
      ensures r == Fail ==> |old(free)| < Missing(tables, Nodes(Vpn(va), done + 1))
      ensures size == 0 ==> r == Panic
      ensures r == Panic && size > 0 ==> done <= Vpn(va + size - 1) - Vpn(va)
      ensures r == Panic && size > 0 ==> !Mappable(old(pages), tables, Vpn(va), done + 1)
    {
      hide Safe, Leaf, Pack, KeepsData, NewTables, FreeSet, TreeOk, SameLeaves, Extends, PathOf, Costs, Missing, MapsRun;
      WalkStart(tables, va);
      CostsNothing(|free|, tables);
      tables', done := tables, 0;
      if size == 0 {
        RunTranslates(pages, tables, pages, tables, Vpn(va), 0, pa, perm);
        return Panic, tables', 0;
      }
      var a, last, p := Vpn(va) * PGSIZE, Vpn(va + size - 1) * PGSIZE, pa;
      while true
        invariant Safe(tables') && 0 in tables' && tables'[0] == root && Kept(old(H()), tables, H(), tables')
        invariant MappedRun(old(pages), tables, pages, tables', Vpn(va), done, pa, perm)
        invariant Mappable(old(pages), tables, Vpn(va), done)
        invariant Costs(|old(free)|, tables, |free|, tables', Nodes(Vpn(va), done), 0)
        invariant a == (Vpn(va) + done) * PGSIZE <= last && p == pa + done * PGSIZE
        decreases last - a
      {
        ghost var h, t := H(), tables';
        assert Vpn(a) == Vpn(va) + done;
        r, tables' := MapOne(root, a, p, perm, tables');
        KeptTrans(old(H()), tables, h, t, H(), tables');
        if r != Ok {
          SameRun(old(H()), tables, h, t, H(), tables', Vpn(va), done, pa, perm);
          if r == Fail { RunsOut(|old(free)|, tables, |h.free|, t, Vpn(va), done, 0); }
          RunTranslates(old(pages), tables, pages, tables', Vpn(va), done, pa, perm);
          return;
        }
        CostsAdd(|old(free)|, tables, |h.free|, t, Nodes(Vpn(va), done), 0, |free|, tables', PathOf(Vpn(va) + done), 0);
        MappedRunGrows(old(H()), tables, h, t, H(), tables', Vpn(va), done, pa, perm);
        done := done + 1;
        if a == last {
          RunTranslates(old(pages), tables, pages, tables', Vpn(va), done, pa, perm);
          return;
        }
        a, p := a + PGSIZE, p + PGSIZE;
      }
    }

    lemma SameRun(h: Heap, t: Tables, h1: Heap, t1: Tables, h2: Heap, t2: Tables, lo: nat, n: nat, pa: nat, flags: nat)
      requires TreeOk(h.pages, t) && TreeOk(h1.pages, t1) && Grew(h1, t1, h2, t2)
      requires MappedRun(h.pages, t, h1.pages, t1, lo, n, pa, flags)
      ensures MappedRun(h.pages, t, h2.pages, t2, lo, n, pa, flags)
    {
      hide TreeOk, Leaf, Pack;
    }

    // ----- unmapping -----

    /** f is an allocated data page. */
    ghost predicate HeldPage(h: Heap, tables: Tables, f: nat) {
      DataPage(h, tables, f) && Managed(f)
    }

    /** f is an allocated data page with one reference. */
    ghost predicate OwnedPage(h: Heap, tables: Tables, f: nat) {
      HeldPage(h, tables, f) && Count(h.refs, f) == 1
    }

    /** kfree of a data page. */
    method FreePage(f: nat, ghost tables: Tables) returns (ok: bool)
      requires Safe(tables) && HeldPage(H(), tables, f)
      modifies this`pages, this`head, this`refs, this`free
      ensures ok && Safe(tables) && FreedOne(old(H()), H(), tables, f)
      ensures SameLeaves(old(pages), tables, pages, tables)
    {
      hide TreeOk, NodeOk, KValid;
      InPages(tables);
      ok := Kfree(f);
      TreeFrame(old(pages), tables, pages);
      forall id | id in tables
        ensures RefCount(tables[id]) == old(RefCount(tables[id]))
      {
        PageNumbers(tables[id], f);
      }
      forall q: nat | DataPage(old(H()), tables, q) && q != f
        ensures Count(refs, q) == Count(old(refs), q)
      {
        PageNumbers(q, f);
      }
    }

    lemma InPages(tables: Tables)
      requires Safe(tables)
      ensures forall id :: id in tables ==> tables[id] in pages
    {
      assert forall id :: id in tables ==> NodeOk(pages, tables, id);
    }

    /** Look up the leaf entry of va: found is false for a missing or invalid one. */
    method FindLeaf(root: nat, va: nat, ghost tables: Tables) returns (found: bool, table: nat, index: nat, pte: nat)
      requires Safe(tables) && 0 in tables && tables[0] == root
      modifies this`pages, this`head, this`refs, this`free
      ensures H() == old(H()) && Safe(tables)
      ensures found <==> va < MAXVA && Leaf(pages, tables, Vpn(va)) != 0
      ensures found ==> pte == Leaf(pages, tables, Vpn(va)) && LeafOk(pte)
      ensures found ==> LowNode(Vpn(va)) in tables && table == tables[LowNode(Vpn(va))] && index == Vpn(va) % FANOUT
    {
      hide KValid, TreeOk, Leaf, Vpn, LowNode, Grew, Costs, Missing, PathOf;
      LeafAt(tables, Vpn(va));
      table, index, pte := 0, 0, 0;
      var w;
      ghost var tables';
      w, tables' := Walk(root, va, false, tables);
      if !w.At? { return false, 0, 0, 0; }
      table, index, pte := w.table, w.index, pages[w.table][w.index];
      found := Valid(pte);
    }

    /** One turn of uvmunmap's loop. */
    method UnmapOne(root: nat, va: nat, doFree: bool, ghost tables: Tables) returns (r: Outcome)
      requires Safe(tables) && 0 in tables && tables[0] == root
      requires doFree && Leaf(pages, tables, Vpn(va)) != 0 ==> HeldPage(H(), tables, Pte2Pa(Leaf(pages, tables, Vpn(va))))
      modifies this`pages, this`head, this`refs, this`free
      ensures Safe(tables) && r != Fail
      ensures r == Panic <==> va >= MAXVA || Leaf(old(pages), tables, Vpn(va)) == 0
      ensures r == Panic ==> H() == old(H())
      ensures r == Ok ==> Remapped(old(pages), tables, pages, tables, Vpn(va), 0)
      ensures r == Ok && !doFree ==> Kept(old(H()), tables, H(), tables)
      ensures r == Ok && doFree ==> FreedOne(old(H()), H(), tables, Pte2Pa(Leaf(old(pages), tables, Vpn(va))))
    {
      hide KValid, Leaf, Vpn, LowNode, Kept, Remapped, FreedOne, HeldPage, TreeOk, SameLeaves, Pte2Pa, Rwx;
      SameItself(pages, tables);
      var found, table, index, pte := FindLeaf(root, va, tables);
      if !found { return Panic; }
      NotOnlyV(pte);
      if PteFlags(pte) == PTE_V { return Panic; }
      if doFree {
        var ok := FreePage(Pte2Pa(pte), tables);
      }
      ghost var h := H();
      StoreLeaf(table, index, 0, tables, Vpn(va));
      UnmapDone(old(H()), h, H(), tables, Vpn(va));
      return Ok;
    }

    lemma NotOnlyV(pte: nat)
      requires LeafOk(pte)
      ensures PteFlags(pte) != PTE_V
    {
    }

    lemma SameItself(pages: Pages, t: Tables)
      requires TreeOk(pages, t)
      ensures SameLeaves(pages, t, pages, t)
    {
    }

    lemma UnmapDone(h: Heap, h1: Heap, h2: Heap, t: Tables, v: nat)
      requires TreeOk(h.pages, t) && TreeOk(h1.pages, t) && SameLeaves(h.pages, t, h1.pages, t)
      requires Kept(h1, t, h2, t) && Remapped(h1.pages, t, h2.pages, t, v, 0) && h2.free == h1.free
      ensures Remapped(h.pages, t, h2.pages, t, v, 0)
      ensures forall f :: FreedOne(h, h1, t, f) ==> FreedOne(h, h2, t, f)
    {
      hide TreeOk, Leaf, DataPage;
    }

    /** The mapped pages lo .. hi have allocated pages, each its own. */
    ghost predicate Held(h: Heap, tables: Tables, lo: nat, hi: nat)
      requires TreeOk(h.pages, tables)
    {
      && (forall v: nat :: lo <= v < hi && Leaf(h.pages, tables, v) != 0 ==>
            HeldPage(h, tables, Pte2Pa(Leaf(h.pages, tables, v))))
      && (forall v: nat, w: nat :: lo <= v < w < hi && Leaf(h.pages, tables, v) != 0 && Leaf(h.pages, tables, w) != 0 ==>
            Pte2Pa(Leaf(h.pages, tables, v)) != Pte2Pa(Leaf(h.pages, tables, w)))
    }

    lemma OwnedIsHeld(h: Heap, t: Tables, lo: nat, hi: nat)
      requires TreeOk(h.pages, t) && Owned(h, t, lo, hi)
      ensures Held(h, t, lo, hi)
      ensures LastRefs(h, FramesOf(h.pages, t, lo, hi)) == FramesOf(h.pages, t, lo, hi)
    {
      hide TreeOk, Leaf, Pte2Pa, DataPage;
    }

    /** The same, with one reference each. */
    ghost predicate Owned(h: Heap, tables: Tables, lo: nat, hi: nat)
      requires TreeOk(h.pages, tables)
    {
      && (forall v: nat :: lo <= v < hi && Leaf(h.pages, tables, v) != 0 ==>
            OwnedPage(h, tables, Pte2Pa(Leaf(h.pages, tables, v))))
      && (forall v: nat, w: nat :: lo <= v < w < hi && Leaf(h.pages, tables, v) != 0 && Leaf(h.pages, tables, w) != 0 ==>
            Pte2Pa(Leaf(h.pages, tables, v)) != Pte2Pa(Leaf(h.pages, tables, w)))
    }

    lemma HeldShrinks(h: Heap, h1: Heap, t: Tables, lo: nat, hi: nat)
      requires TreeOk(h.pages, t) && TreeOk(h1.pages, t) && lo < hi && Leaf(h.pages, t, lo) != 0
      requires Held(h, t, lo, hi) && Remapped(h.pages, t, h1.pages, t, lo, 0)
      requires FreedOne(h, h1, t, Pte2Pa(Leaf(h.pages, t, lo)))
      ensures Held(h1, t, lo + 1, hi)
    {
      hide TreeOk, Leaf, Pte2Pa, DataPage;
    }

    /** What uvmunmap has done after n pages. */
    ghost predicate UnmappedSoFar(h: Heap, h1: Heap, t: Tables, lo: nat, n: nat, npages: nat, doFree: bool)
      requires TreeOk(h.pages, t) && n <= npages
    {
      && TreeOk(h1.pages, t) && Unmapped(h.pages, t, h1.pages, lo, lo + n)
      && (!doFree ==> Kept(h, t, h1, t))
      && (doFree ==> Held(h, t, lo, lo + npages) && FreedRun(h, h1, t, FramesOf(h.pages, t, lo, lo + n)) && Held(h1, t, lo + n, lo + npages))
    }

    lemma HeldFrames(h: Heap, t: Tables, lo: nat, n: nat, hi: nat)
      requires TreeOk(h.pages, t) && Held(h, t, lo, hi) && lo + n < hi
      ensures forall q :: q in FramesOf(h.pages, t, lo, lo + n) ==> DataPage(h, t, q)
      ensures Leaf(h.pages, t, lo + n) != 0 ==>
        DataPage(h, t, Pte2Pa(Leaf(h.pages, t, lo + n))) && Pte2Pa(Leaf(h.pages, t, lo + n)) !in FramesOf(h.pages, t, lo, lo + n)
    {
      hide TreeOk, Leaf, Pte2Pa, DataPage;
    }

    lemma UnmapAdvances(h: Heap, h1: Heap, h2: Heap, t: Tables, lo: nat, n: nat, npages: nat, doFree: bool)
      requires TreeOk(h.pages, t) && n < npages && UnmappedSoFar(h, h1, t, lo, n, npages, doFree)
      requires TreeOk(h2.pages, t) && Leaf(h1.pages, t, lo + n) != 0
      requires Remapped(h1.pages, t, h2.pages, t, lo + n, 0)
      requires if doFree then FreedOne(h1, h2, t, Pte2Pa(Leaf(h1.pages, t, lo + n))) else Kept(h1, t, h2, t)
      ensures UnmappedSoFar(h, h2, t, lo, n + 1, npages, doFree)
    {
      hide TreeOk, Leaf, Pte2Pa, DataPage, FreeSet, Held, FreedRun, Kept, FreedOne;
      if doFree {
        HeldShrinks(h1, h2, t, lo + n, lo + npages);
        HeldFrames(h, t, lo, n, lo + npages);
        assert Leaf(h1.pages, t, lo + n) == Leaf(h.pages, t, lo + n);
        FreedRunGrows(h, h1, h2, t, FramesOf(h.pages, t, lo, lo + n), Pte2Pa(Leaf(h1.pages, t, lo + n)));
        assert Leaf(h1.pages, t, lo + n) == Leaf(h.pages, t, lo + n);
        assert FramesOf(h.pages, t, lo, lo + n + 1) == FramesOf(h.pages, t, lo, lo + n) + {Pte2Pa(Leaf(h.pages, t, lo + n))};
      } else {
        KeptTrans(h, t, h1, t, h2, t);
      }
    }

    /** Remove the mappings of npages pages from va on, freeing their pages if doFree. */
    method UvmUnmap(root: nat, va: nat, npages: nat, doFree: bool, ghost tables: Tables) returns (r: Outcome)
      requires Safe(tables) && 0 in tables && tables[0] == root
      requires doFree ==> Held(H(), tables, Vpn(va), Vpn(va) + npages)
      modifies this`pages, this`head, this`refs, this`free
      ensures Safe(tables) && r != Fail
      ensures r == Ok <==> va % PGSIZE == 0 && AllMapped(old(pages), tables, Vpn(va), Vpn(va) + npages)
      ensures r == Ok ==> Unmapped(old(pages), tables, pages, Vpn(va), Vpn(va) + npages)
      ensures r == Ok && !doFree ==> Kept(old(H()), tables, H(), tables)
      ensures r == Ok && doFree ==>
        FreedRun(old(H()), H(), tables, FramesOf(old(pages), tables, Vpn(va), Vpn(va) + npages))
    {
      hide KValid, Leaf, Kept, Remapped, FreedOne, HeldPage, FreedRun, TreeOk, Pte2Pa;
      if va % PGSIZE != 0 { return Panic; }
      UnmapStart(tables, Vpn(va), npages, doFree);
      var a := va;
      ghost var n := 0;
      while a < va + npages * PGSIZE
        invariant n <= npages && a == va + n * PGSIZE && Safe(tables)
        invariant UnmappedSoFar(old(H()), H(), tables, Vpn(va), n, npages, doFree)
        invariant AllMapped(old(pages), tables, Vpn(va), Vpn(va) + n)
      {
        ghost var h := H();
        assert Vpn(a) == Vpn(va) + n;
        r := UnmapOne(root, a, doFree, tables);
        if r == Panic {
          ghost var w := Vpn(va) + n;
          ghost var pte := Leaf(old(pages), tables, w);
          assert w < Vpn(va) + npages && (w >= MAXPAGE || pte == 0);
          return;
        }
        UnmapAdvances(old(H()), h, H(), tables, Vpn(va), n, npages, doFree);
        n := n + 1;
        a := a + PGSIZE;
      }
      return Ok;
    }

    lemma UnmapStart(tables: Tables, lo: nat, npages: nat, doFree: bool)
      requires Safe(tables) && (doFree ==> Held(H(), tables, lo, lo + npages))
      ensures UnmappedSoFar(H(), H(), tables, lo, 0, npages, doFree)
    {
      hide KValid, TreeOk, Leaf;
      assert NewTables(tables, tables) == {};
    }

    // ----- growing, shrinking and copying an address space -----

    /** Bring the size from oldsz down to newsz. */
    method UvmDealloc(root: nat, oldsz: nat, newsz: nat, ghost tables: Tables) returns (r: nat, ok: bool)
      requires Safe(tables) && 0 in tables && tables[0] == root
      requires Held(H(), tables, Vpn(PgRoundUp(newsz)), Vpn(PgRoundUp(oldsz)))
      modifies this`pages, this`head, this`refs, this`free
      ensures Safe(tables)
      ensures newsz >= oldsz ==> ok && r == oldsz && H() == old(H())
      ensures newsz < oldsz ==> r == newsz
      ensures newsz < oldsz ==> (ok <==> AllMapped(old(pages), tables, Vpn(PgRoundUp(newsz)), Vpn(PgRoundUp(oldsz))))
      ensures newsz < oldsz && ok ==>
        && Unmapped(old(pages), tables, pages, Vpn(PgRoundUp(newsz)), Vpn(PgRoundUp(oldsz)))
        && FreedRun(old(H()), H(), tables, FramesOf(old(pages), tables, Vpn(PgRoundUp(newsz)), Vpn(PgRoundUp(oldsz))))
    {
      hide KValid, Leaf, FreedRun, TreeOk, HeldPage, Pte2Pa;
      if newsz >= oldsz { return oldsz, true; }
      var lo, hi := PgRoundUp(newsz), PgRoundUp(oldsz);
      var o := Ok;
      if lo < hi {
        o := UvmUnmap(root, lo, (hi - lo) / PGSIZE, true, tables);
      } else {
        NothingFreed(H(), tables, Vpn(lo));
      }
      return newsz, o == Ok;
    }

    lemma NothingFreed(h: Heap, t: Tables, lo: nat)
      requires TreeOk(h.pages, t)
      ensures AllMapped(h.pages, t, lo, lo) && Unmapped(h.pages, t, h.pages, lo, lo)
      ensures FreedRun(h, h, t, FramesOf(h.pages, t, lo, lo))
    {
      hide TreeOk, Leaf, DataPage;
    }

    /**
      What uvmalloc and uvmcopy have done after mapping pages from lo on with the
      given contents and flags: the pages are owned, and the free list gave up
      exactly them and new tables.
     */
    ghost predicate Filled(h: Heap, t: Tables, h1: Heap, t1: Tables, lo: nat, contents: seq<Page>, flags: seq<nat>)
      requires TreeOk(h.pages, t)
    {
      && |flags| == |contents|
      && TreeOk(h1.pages, t1) && Extends(t, t1)
      && Owned(h1, t1, lo, lo + |contents|) && AllMapped(h1.pages, t1, lo, lo + |contents|)
      && (forall w: nat :: w < lo || w >= lo + |contents| ==> Leaf(h1.pages, t1, w) == Leaf(h.pages, t, w))
      && FreeSet(h.free) == FreeSet(h1.free) + NewTables(t, t1) + FramesOf(h1.pages, t1, lo, lo + |contents|)
      && KeepsData(h, t, h1, t1)
      && Holds(h1, t1, lo, contents, flags)
    }

    /** The pages from lo on are mapped with these flags to pages with these contents. */
    ghost predicate Holds(h: Heap, t: Tables, lo: nat, contents: seq<Page>, flags: seq<nat>)
      requires TreeOk(h.pages, t) && |flags| == |contents|
    {
      forall w: nat :: lo <= w < lo + |contents| ==>
        && PteFlags(Leaf(h.pages, t, w)) == WithV(flags[w - lo])
        && Pte2Pa(Leaf(h.pages, t, w)) in h.pages
        && h.pages[Pte2Pa(Leaf(h.pages, t, w))] == contents[w - lo]
    }

    /** What the hardware finds there: through every address of the n-th page, the n-th contents, with the n-th permission. */
    lemma FilledTranslates(h: Heap, t: Tables, h1: Heap, t1: Tables, lo: nat, contents: seq<Page>, flags: seq<nat>, va: nat)
      requires TreeOk(h.pages, t) && Filled(h, t, h1, t1, lo, contents, flags)
      requires va < 0x40_0000_0000 && lo <= va / 4096 < lo + |contents|
      ensures exists page: nat :: page * 4096 in h1.pages && h1.pages[page * 4096] == contents[va / 4096 - lo]
                && Translate(h1.pages, t1[0], va) == Granted(page, flags[va / 4096 - lo], va)
    {
      hide TreeOk, Leaf, Translate, FramesOf, Owned, KeepsData, WithV;
      var w := va / 4096;
      var pte := Leaf(h1.pages, t1, w);
      TranslatesLeaf(h1.pages, t1, va);
      SameGrant(pte / 1024, pte, flags[w - lo], va);
      assert Pte2Pa(pte) == pte / 1024 * 4096;
    }

    lemma SameGrant(page: nat, pte: nat, perm: nat, va: nat)
      requires PteFlags(pte) == WithV(perm)
      ensures Granted(page, pte, va) == Granted(page, perm, va)
    {
      LowBits(pte, pte / 1024, WithV(perm));
      assert WithV(perm) / 2 == perm / 2;
    }

    /** Undoing it restores every mapping and returns every data page; new tables may remain. */
    lemma FilledThenFreed(h: Heap, t: Tables, h1: Heap, t1: Tables, h2: Heap, lo: nat, contents: seq<Page>, flags: seq<nat>)
      requires TreeOk(h.pages, t) && Filled(h, t, h1, t1, lo, contents, flags) && TreeOk(h2.pages, t1)
      requires forall w: nat :: lo <= w < lo + |contents| ==> Leaf(h.pages, t, w) == 0
      requires Unmapped(h1.pages, t1, h2.pages, lo, lo + |contents|)
      requires FreedRun(h1, h2, t1, FramesOf(h1.pages, t1, lo, lo + |contents|))
      ensures Grew(h, t, h2, t1)
    {
      hide TreeOk, Leaf, FreeSet, NewTables, Owned, Held, LastRefs, FramesOf, StillShared, FreedRun;
      var frames := FramesOf(h1.pages, t1, lo, lo + |contents|);
      OwnedIsHeld(h1, t1, lo, lo + |contents|);
      FreedOthers(h1, h2, t1, frames);
      assert frames <= FreeSet(h.free);
      forall q: nat | DataPage(h, t, q)
        ensures q !in frames
      {
        NotFree(h.free, q);
      }
    }

    lemma NotFree(free: seq<nat>, q: nat)
      requires q !in free
      ensures q !in FreeSet(free)
    {
    }

    /** kalloc, then filling the page. */
    method TakePage(contents: Page, ghost tables: Tables) returns (f: nat)
      requires Safe(tables)
      modifies this`pages, this`head, this`refs, this`free
      ensures Safe(tables)
      ensures f == 0 ==> old(free) == [] && free == [] && Grew(old(H()), tables, H(), tables)
      ensures f != 0 ==> |old(free)| == |free| + 1
      ensures f != 0 ==> OwnedPage(H(), tables, f) && pages[f] == contents && f in old(free)
      ensures f != 0 ==> SameLeaves(old(pages), tables, pages, tables) && KeepsData(old(H()), tables, H(), tables)
      ensures f != 0 ==> FreeSet(old(free)) == FreeSet(free) + {f}
    {
      hide KValid, TreeOk, NodeOk;
      SameAsBefore(tables);
      InPages(tables);
      f := Kalloc();
      if f == 0 { return; }
      Store(f, contents);
      TreeFrame(old(pages), tables, pages);
      TookPage(old(H()), H(), tables);
    }

    lemma TookPage(h: Heap, h': Heap, tables: Tables)
      requires |h.free| > 0 && h'.free == h.free[1..] && h.free[0] !in h'.free && Outside(tables, h.free[0])
      requires h.free[0] % PGSIZE == 0 && h'.refs == h.refs[h.free[0] / PGSIZE := 1]
      requires forall id :: id in tables ==> tables[id] % PGSIZE == 0
      requires h.pages.Keys <= h'.pages.Keys && forall q :: q in h.pages && q != h.free[0] ==> h'.pages[q] == h.pages[q]
      ensures FreeSet(h.free) == FreeSet(h'.free) + {h.free[0]}
      ensures KeepsData(h, tables, h', tables)
      ensures Count(h'.refs, h.free[0]) == 1
      ensures forall id :: id in tables ==> Count(h'.refs, tables[id]) == Count(h.refs, tables[id])
    {
      assert h.free == [h.free[0]] + h'.free;
      forall q: nat | q % PGSIZE == 0 && q != h.free[0]
        ensures Count(h'.refs, q) == Count(h.refs, q)
      {
        PageNumbers(q, h.free[0]);
      }
    }

    /** Page v was mapped to the page f taken from the free list, and nothing else changed. */
    ghost predicate FilledOne(h: Heap, t: Tables, h1: Heap, t1: Tables, v: nat, f: nat, flags: nat) {
      && TreeOk(h.pages, t) && TreeOk(h1.pages, t1) && Extends(t, t1)
      && Remapped(h.pages, t, h1.pages, t1, v, Pack(f, WithV(flags)))
      && OwnedPage(h1, t1, f) && f in h.free
      && FreeSet(h.free) == FreeSet(h1.free) + NewTables(t, t1) + {f}
      && KeepsData(h, t, h1, t1)
    }

    /** One turn of the loops of uvmalloc and uvmcopy. */
    method FillOne(root: nat, va: nat, contents: Page, flags: nat, ghost tables: Tables)
      returns (r: Outcome, ghost tables': Tables, ghost f: nat)
      requires Safe(tables) && 0 in tables && tables[0] == root
      requires va % PGSIZE == 0
      requires flags < 1024 && Rwx(flags)
      modifies this`pages, this`head, this`refs, this`free
      ensures Safe(tables') && 0 in tables' && tables'[0] == root
      ensures r == Panic ==> !Mappable(old(pages), tables, Vpn(va), 1) && |old(free)| > 0
      ensures r == Panic ==> KeepsData(old(H()), tables, H(), tables')
      ensures r == Ok ==> Mappable(old(pages), tables, Vpn(va), 1) && Costs(|old(free)|, tables, |free|, tables', PathOf(Vpn(va)), 1)
      ensures r == Fail ==> |old(free)| < 1 + Missing(tables, PathOf(Vpn(va)))
      ensures r == Fail ==> |old(free)| == 0 || Mappable(old(pages), tables, Vpn(va), 1)
      ensures r == Fail ==> Grew(old(H()), tables, H(), tables')
      ensures r == Ok ==> FilledOne(old(H()), tables, H(), tables', Vpn(va), f, flags) && pages[f] == contents
    {
      hide KValid, TreeOk, Leaf, FreeSet, NewTables, KeepsData, Pack, Kept, Grew, OwnedPage, FilledOne, MappedRun, FreedOne;
      hide Costs, Missing, Mappable, Nodes, PathOf;
      tables' := tables;
      var mem := TakePage(contents, tables);
      f := mem;
      if mem == 0 { return Fail, tables, 0; }
      ghost var h := H();
      ghost var done;
      assert Vpn(va + PGSIZE - 1) == Vpn(va);
      r, tables', done := MapPages(root, va, PGSIZE, mem, flags, tables);
      ghost var h1 := H();
      StaysOwned(h, tables, h1, tables', f);
      SameMappable(old(pages), h.pages, tables, Vpn(va), 1);
      if r == Panic {
        KeptKeepsData(h, tables, h1, tables');
        KeepsDataTrans(old(H()), tables, h, tables, h1, tables');
        return;
      }
      if r == Ok {
        TakenThenMapped(old(H()), tables, h, h1, tables', Vpn(va), f, flags);
        CostsPage(|old(free)|, tables, |free|, tables', Vpn(va));
      } else {
        OnePath(Vpn(va));
        var ok := FreePage(mem, tables');
        TakenThenFreed(old(H()), tables, h, h1, tables', H(), Vpn(va), f, flags);
      }
    }

    lemma SameMappable(pages: Pages, pages': Pages, t: Tables, lo: nat, n: nat)
      requires TreeOk(pages, t) && TreeOk(pages', t) && SameLeaves(pages, t, pages', t)
      ensures Mappable(pages, t, lo, n) <==> Mappable(pages', t, lo, n)
    {
      hide TreeOk, Leaf;
    }

    lemma KeptKeepsData(h: Heap, t: Tables, h1: Heap, t1: Tables)
      requires Kept(h, t, h1, t1)
      ensures KeepsData(h, t, h1, t1)
    {
    }

    lemma StaysOwned(h: Heap, t: Tables, h1: Heap, t1: Tables, f: nat)
      requires OwnedPage(h, t, f) && Kept(h, t, h1, t1)
      ensures OwnedPage(h1, t1, f) && HeldPage(h1, t1, f) && h1.pages[f] == h.pages[f]
    {
      hide TreeOk, FreeSet, NewTables;
    }

    lemma TakenThenMapped(h: Heap, t: Tables, h1: Heap, h2: Heap, t2: Tables, v: nat, f: nat, flags: nat)
      requires TreeOk(h.pages, t) && TreeOk(h1.pages, t) && SameLeaves(h.pages, t, h1.pages, t) && KeepsData(h, t, h1, t)
      requires FreeSet(h.free) == FreeSet(h1.free) + {f} && f in h.free && OwnedPage(h2, t2, f)
      requires Kept(h1, t, h2, t2) && MappedRun(h1.pages, t, h2.pages, t2, v, 1, f, flags)
      ensures FilledOne(h, t, h2, t2, v, f, flags)
    {
      hide TreeOk, Leaf, FreeSet, NewTables, Pack, DataPage;
      assert f + 0 * PGSIZE == f;
    }

    lemma TakenThenFreed(h: Heap, t: Tables, h1: Heap, h2: Heap, t2: Tables, h3: Heap, v: nat, f: nat, flags: nat)
      requires TreeOk(h.pages, t) && TreeOk(h1.pages, t) && SameLeaves(h.pages, t, h1.pages, t) && KeepsData(h, t, h1, t)
      requires FreeSet(h.free) == FreeSet(h1.free) + {f} && f in h.free && OwnedPage(h2, t2, f)
      requires Kept(h1, t, h2, t2) && MappedRun(h1.pages, t, h2.pages, t2, v, 0, f, flags)
      requires TreeOk(h3.pages, t2) && FreedOne(h2, h3, t2, f) && SameLeaves(h2.pages, t2, h3.pages, t2)
      ensures Grew(h, t, h3, t2)
    {
      hide TreeOk, Leaf, NewTables, Pack;
      Pushed(h2.free, f);
    }

    lemma FilledNothing(h: Heap, t: Tables, lo: nat)
      requires TreeOk(h.pages, t)
      ensures Filled(h, t, h, t, lo, [], [])
    {
      hide TreeOk, Leaf, Pte2Pa;
      assert NewTables(t, t) == {} && FramesOf(h.pages, t, lo, lo) == {};
    }

    lemma OwnedGrows(h1: Heap, t1: Tables, h2: Heap, t2: Tables, lo: nat, n: nat, f: nat, flags: nat)
      requires FilledOne(h1, t1, h2, t2, lo + n, f, flags) && flags < 1024
      requires Owned(h1, t1, lo, lo + n)
      ensures Owned(h2, t2, lo, lo + n + 1) && Pte2Pa(Leaf(h2.pages, t2, lo + n)) == f
    {
      hide TreeOk, Leaf, FreeSet, NewTables, Pte2Pa, Pack;
      PackRoundTrip(f, WithV(flags));
    }

    lemma FramesGrow(h1: Heap, t1: Tables, h2: Heap, t2: Tables, lo: nat, n: nat, f: nat, flags: nat)
      requires FilledOne(h1, t1, h2, t2, lo + n, f, flags) && Pack(f, WithV(flags)) != 0
      requires Pte2Pa(Leaf(h2.pages, t2, lo + n)) == f
      ensures FramesOf(h2.pages, t2, lo, lo + n + 1) == FramesOf(h1.pages, t1, lo, lo + n) + {f}
    {
      hide TreeOk, Leaf, FreeSet, NewTables, Pte2Pa, Pack;
      var fs := FramesOf(h2.pages, t2, lo, lo + n + 1);
      assert f in fs by { assert Leaf(h2.pages, t2, lo + n) != 0; }
      forall x | x in FramesOf(h1.pages, t1, lo, lo + n)
        ensures x in fs
      {
        var v: nat :| lo <= v < lo + n && Leaf(h1.pages, t1, v) != 0 && Pte2Pa(Leaf(h1.pages, t1, v)) == x;
        assert Leaf(h2.pages, t2, v) == Leaf(h1.pages, t1, v);
      }
    }

    lemma FilledGrows(h: Heap, t: Tables, h1: Heap, t1: Tables, h2: Heap, t2: Tables, lo: nat,
                      contents: seq<Page>, flags: seq<nat>, f: nat, p: Page, fl: nat)
      requires TreeOk(h.pages, t) && Filled(h, t, h1, t1, lo, contents, flags) && lo + |contents| < MAXPAGE
      requires FilledOne(h1, t1, h2, t2, lo + |contents|, f, fl) && h2.pages[f] == p && fl < 1024
      ensures Filled(h, t, h2, t2, lo, contents + [p], flags + [fl])
    {
      hide TreeOk, Leaf, FreeSet, NewTables, Pte2Pa, Pack, FramesOf, PteFlags, Owned, Holds, DataPage;
      var n := |contents|;
      PackRoundTrip(f, WithV(fl));
      PackBits(f, WithV(fl));
      OwnedGrows(h1, t1, h2, t2, lo, n, f, fl);
      FramesGrow(h1, t1, h2, t2, lo, n, f, fl);
      NewTablesTrans(t, t1, t2);
      HoldsGrows(h1, t1, h2, t2, lo, contents, flags, f, p, fl);
      KeepsDataTrans(h, t, h1, t1, h2, t2);
      assert |contents + [p]| == n + 1 && |flags + [fl]| == n + 1;
    }

    lemma NewTablesTrans(t: Tables, t1: Tables, t2: Tables)
      requires Extends(t, t1) && Extends(t1, t2)
      ensures NewTables(t, t2) == NewTables(t, t1) + NewTables(t1, t2)
    {
    }

    lemma HoldsGrows(h1: Heap, t1: Tables, h2: Heap, t2: Tables, lo: nat, contents: seq<Page>, flags: seq<nat>, f: nat, p: Page, fl: nat)
      requires TreeOk(h1.pages, t1) && |flags| == |contents| && Holds(h1, t1, lo, contents, flags)
      requires Owned(h1, t1, lo, lo + |contents|) && AllMapped(h1.pages, t1, lo, lo + |contents|)
      requires FilledOne(h1, t1, h2, t2, lo + |contents|, f, fl) && h2.pages[f] == p && fl < 1024
      ensures Holds(h2, t2, lo, contents + [p], flags + [fl])
    {
      hide TreeOk, Leaf, FreeSet, NewTables, Pte2Pa, Pack, PteFlags;
      PackRoundTrip(f, WithV(fl));
      forall w: nat | lo <= w < lo + |contents|
        ensures Pte2Pa(Leaf(h2.pages, t2, w)) in h2.pages && h2.pages[Pte2Pa(Leaf(h2.pages, t2, w))] == contents[w - lo]
      {
        assert Leaf(h2.pages, t2, w) == Leaf(h1.pages, t1, w);
        assert OwnedPage(h1, t1, Pte2Pa(Leaf(h1.pages, t1, w)));
      }
    }

    /** The state of the loops of uvmalloc and uvmcopy: what has been filled, and what it has cost. */
    ghost predicate Filling(h: Heap, t: Tables, h1: Heap, t1: Tables, lo: nat, contents: seq<Page>, flags: seq<nat>)
      requires TreeOk(h.pages, t)
    {
      && Filled(h, t, h1, t1, lo, contents, flags) && Mappable(h.pages, t, lo, |contents|)
      && Costs(|h.free|, t, |h1.free|, t1, Nodes(lo, |contents|), |contents|)
    }

    lemma FillingStarts(h: Heap, t: Tables, lo: nat)
      requires TreeOk(h.pages, t)
      ensures Filling(h, t, h, t, lo, [], [])
    {
      hide TreeOk, Leaf, Filled, Missing;
      FilledNothing(h, t, lo);
      CostsNothing(|h.free|, t);
    }

    /** The next page can be mapped now if it could be at the start. */
    lemma FillingNext(h: Heap, t: Tables, h1: Heap, t1: Tables, lo: nat, contents: seq<Page>, flags: seq<nat>)
      requires TreeOk(h.pages, t) && Filling(h, t, h1, t1, lo, contents, flags)
      ensures Filled(h, t, h1, t1, lo, contents, flags) && |flags| == |contents|
      ensures Mappable(h.pages, t, lo, |contents|) && NoneMapped(h.pages, t, lo, lo + |contents|)
      ensures TreeOk(h1.pages, t1) && t1.Keys == t.Keys + Nodes(lo, |contents|) && Needed(t, lo, |contents|) + |h1.free| == |h.free|
      ensures Mappable(h.pages, t, lo, |contents| + 1) ==> lo + |contents| < MAXPAGE
      ensures Mappable(h1.pages, t1, lo + |contents|, 1) <==> Mappable(h.pages, t, lo, |contents| + 1)
    {
      hide TreeOk, Leaf, Owned, Holds, Missing;
      SameAbove(h, t, h1, t1, lo, contents, flags);
    }

    lemma FillingGrows(h: Heap, t: Tables, h1: Heap, t1: Tables, h2: Heap, t2: Tables, lo: nat,
                       contents: seq<Page>, flags: seq<nat>, f: nat, p: Page, fl: nat)
      requires TreeOk(h.pages, t) && Filling(h, t, h1, t1, lo, contents, flags)
      requires TreeOk(h1.pages, t1) && Mappable(h1.pages, t1, lo + |contents|, 1)
      requires FilledOne(h1, t1, h2, t2, lo + |contents|, f, fl) && h2.pages[f] == p && fl < 1024
      requires Costs(|h1.free|, t1, |h2.free|, t2, PathOf(lo + |contents|), 1)
      ensures Filling(h, t, h2, t2, lo, contents + [p], flags + [fl])
    {
      hide TreeOk, Leaf, Filled, FilledOne, Costs, Missing, PathOf, Mappable, Needed, Nodes, NoneMapped;
      FillingNext(h, t, h1, t1, lo, contents, flags);
      FilledGrows(h, t, h1, t1, h2, t2, lo, contents, flags, f, p, fl);
      CostsAdd(|h.free|, t, |h1.free|, t1, Nodes(lo, |contents|), |contents|, |h2.free|, t2, PathOf(lo + |contents|), 1);
      NodesMore(lo, |contents|);
      assert |contents + [p]| == |contents| + 1;
    }

    lemma FillingStops(o: Outcome, h: Heap, t: Tables, h1: Heap, t1: Tables, lo: nat, contents: seq<Page>, flags: seq<nat>, n: nat, src: nat)
      requires TreeOk(h.pages, t) && Filling(h, t, h1, t1, lo, contents, flags) && TreeOk(h1.pages, t1)
      requires |contents| < n && |contents| < src
      requires o == Panic ==> !Mappable(h1.pages, t1, lo + |contents|, 1) && |h1.free| > 0
      requires o == Fail ==> |h1.free| < 1 + Missing(t1, PathOf(lo + |contents|))
      requires o == Fail ==> |h1.free| == 0 || Mappable(h1.pages, t1, lo + |contents|, 1)
      requires o != Ok
      ensures Ended(o, |contents|, h, t, lo, n, src)
    {
      hide TreeOk, Leaf, Filling, Filled, Missing, PathOf, Needed, Nodes, Mappable, NoneMapped;
      FillingNext(h, t, h1, t1, lo, contents, flags);
      NeededMore(t, t1, lo, |contents|);
    }

    /** The pages from the rounded old size to the rounded new one were unmapped, and now map zeroed pages. */
    ghost predicate Allocated(h: Heap, t: Tables, h1: Heap, t1: Tables, oldsz: nat, newsz: nat, xperm: nat)
      requires oldsz <= newsz
    {
      var lo, n := Vpn(PgRoundUp(oldsz)), PagesBetween(oldsz, newsz);
      && TreeOk(h.pages, t) && Mappable(h.pages, t, lo, n)
      && Filled(h, t, h1, t1, lo, seq(n, _ => ZeroPage()), seq(n, _ => PTE_R + PTE_U + xperm))
    }

    /**
      What a program finds there through the hardware: zeros, which it may read, and
      write or execute as xperm says.
     */
    lemma AllocatedTranslates(h: Heap, t: Tables, h1: Heap, t1: Tables, oldsz: nat, newsz: nat, xperm: nat, va: nat)
      requires oldsz <= newsz && Allocated(h, t, h1, t1, oldsz, newsz, xperm) && xperm in {0, 4, 8, 12}
      requires PgRoundUp(oldsz) <= va < newsz
      ensures exists page: nat :: page * 4096 in h1.pages && h1.pages[page * 4096] == ZeroPage()
                && Translate(h1.pages, t1[0], va) == Access(page * 4096 + va % 4096, true, xperm in {4, 12}, xperm in {8, 12}, true)
    {
      var lo, n := Vpn(PgRoundUp(oldsz)), PagesBetween(oldsz, newsz);
      InRange(oldsz, newsz, va);
      ReadableBits(xperm);
      hide TreeOk, Filled, Translate, Vpn, PgRoundUp, PagesBetween, BitAt;
      FilledTranslates(h, t, h1, t1, lo, seq(n, _ => ZeroPage()), seq(n, _ => PTE_R + PTE_U + xperm), va);
    }

    lemma InRange(oldsz: nat, newsz: nat, va: nat)
      requires oldsz <= newsz && PgRoundUp(oldsz) <= va < newsz
      ensures Vpn(PgRoundUp(oldsz)) <= va / 4096 < Vpn(PgRoundUp(oldsz)) + PagesBetween(oldsz, newsz)
      ensures Vpn(PgRoundUp(oldsz)) + PagesBetween(oldsz, newsz) <= MAXPAGE ==> va < 0x40_0000_0000
    {
    }

    lemma ReadableBits(xperm: nat)
      requires xperm in {0, 4, 8, 12}
      ensures
        var f := PTE_R + PTE_U + xperm;
        BitAt(f, 1) && BitAt(f, 4) && (BitAt(f, 2) <==> xperm in {4, 12}) && (BitAt(f, 3) <==> xperm in {8, 12})
    {
    }

    /**
      How uvmalloc ended. Where no panic is in the way, it fails exactly when the
      free list is shorter than the pages to add and the tables they lack.
     */
    ghost predicate AllocEnded(o: Outcome, good: nat, h: Heap, t: Tables, oldsz: nat, newsz: nat)
      requires oldsz <= newsz
    {
      var lo, n := Vpn(PgRoundUp(oldsz)), PagesBetween(oldsz, newsz);
      && TreeOk(h.pages, t) && Ended(o, good, h, t, lo, n, n)
      && (Mappable(h.pages, t, lo, n) ==> (o == Fail <==> |h.free| < Needed(t, lo, n)))
      && (o == Panic ==> newsz > MAXVA || !NoneMapped(h.pages, t, lo, lo + n))
    }

    /** The pages that growing from oldsz to newsz adds. */
    ghost function PagesBetween(oldsz: nat, newsz: nat): nat
      requires oldsz <= newsz
    {
      Rounded(oldsz, newsz);
      Vpn(PgRoundUp(newsz)) - Vpn(PgRoundUp(oldsz))
    }

    /**
      Grow an address space from oldsz to newsz with zeroed pages. Returns the
      new size; or 0 with every mapping as before and every data page returned.
      The panics of walk and mappages are met only past MAXVA or over a mapping.
      `good` is how many pages fit before it ended.
     */
    method UvmAlloc(root: nat, oldsz: nat, newsz: nat, xperm: nat, ghost tables: Tables)
      returns (r: nat, o: Outcome, ghost tables': Tables, ghost good: nat)
      requires Safe(tables) && 0 in tables && tables[0] == root && xperm in {0, 4, 8, 12}
      modifies this`pages, this`head, this`refs, this`free
      ensures Safe(tables') && 0 in tables' && tables'[0] == root
      ensures newsz < oldsz ==> o == Ok && r == oldsz && H() == old(H()) && tables' == tables
      ensures newsz >= oldsz ==> AllocEnded(o, good, old(H()), tables, oldsz, newsz)
      ensures newsz >= oldsz && o == Ok ==> r == newsz && Allocated(old(H()), tables, H(), tables', oldsz, newsz, xperm)
      ensures o == Fail ==> r == 0 && Grew(old(H()), tables, H(), tables')
    {
      hide KValid, TreeOk, Leaf, Kept, Grew, OwnedPage, FilledOne, FreedRun, Filled, KeepsData, Vpn, PgRoundUp;
      hide Filling, Ended, AllocEnded, Mappable, Costs, Missing, Needed, PathOf, Nodes;
      tables', good := tables, 0;
      if newsz < oldsz { return oldsz, Ok, tables, 0; }
      var old1 := PgRoundUp(oldsz);
      var a := old1;
      ghost var lo, n := Vpn(old1), PagesBetween(oldsz, newsz);
      Rounded(oldsz, newsz);
      FillingStarts(H(), tables, lo);
      ghost var contents: seq<Page>, flags: seq<nat> := [], [];
      while a < newsz
        invariant a == old1 + good * PGSIZE && good == |contents| == |flags| && good <= n
        invariant contents == seq(good, _ => ZeroPage()) && flags == seq(good, _ => PTE_R + PTE_U + xperm)
        invariant Safe(tables') && 0 in tables' && tables'[0] == root
        invariant Filling(old(H()), tables, H(), tables', lo, contents, flags)
      {
        ghost var h, t := H(), tables';
        ghost var f;
        FillingNext(old(H()), tables, h, t, lo, contents, flags);
        InPage(oldsz, newsz, good);
        o, tables', f := FillOne(root, a, ZeroPage(), PTE_R + PTE_U + xperm, tables');
        if o != Ok {
          FillingStops(o, old(H()), tables, h, t, lo, contents, flags, n, n);
          AllocEnds(o, good, old(H()), tables, oldsz, newsz);
          if o == Fail {
            FilledGrew(old(H()), tables, h, t, H(), tables', lo, contents, flags);
            Undo(root, a, old1, tables', old(H()), tables, contents, flags);
          }
          return 0, o, tables', good;
        }
        FillingGrows(old(H()), tables, h, t, H(), tables', lo, contents, flags, f, ZeroPage(), PTE_R + PTE_U + xperm);
        contents, flags, good := contents + [ZeroPage()], flags + [PTE_R + PTE_U + xperm], good + 1;
        a := a + PGSIZE;
      }
      InPage(oldsz, newsz, good);
      FillingNext(old(H()), tables, H(), tables', lo, contents, flags);
      FillingDone(old(H()), tables, H(), tables', lo, contents, flags, n);
      AllocEnds(Ok, good, old(H()), tables, oldsz, newsz);
      return newsz, Ok, tables', good;
    }

    lemma FillingDone(h: Heap, t: Tables, h1: Heap, t1: Tables, lo: nat, contents: seq<Page>, flags: seq<nat>, src: nat)
      requires TreeOk(h.pages, t) && Filling(h, t, h1, t1, lo, contents, flags) && |contents| <= src
      ensures Ended(Ok, |contents|, h, t, lo, |contents|, src)
    {
      hide TreeOk, Leaf, Filled, Missing;
    }

    lemma AllocEnds(o: Outcome, good: nat, h: Heap, t: Tables, oldsz: nat, newsz: nat)
      requires oldsz <= newsz && TreeOk(h.pages, t)
      requires Ended(o, good, h, t, Vpn(PgRoundUp(oldsz)), PagesBetween(oldsz, newsz), PagesBetween(oldsz, newsz))
      ensures AllocEnded(o, good, h, t, oldsz, newsz)
    {
      hide TreeOk, Leaf, Needed, Vpn, PgRoundUp;
      var lo, n := Vpn(PgRoundUp(oldsz)), PagesBetween(oldsz, newsz);
      if Mappable(h.pages, t, lo, n) { EndsWell(o, good, h, t, lo, n, n); }
      if o == Panic && lo + n > MAXPAGE { PastEnd(newsz, MAXPAGE); }
    }

    lemma Rounded(oldsz: nat, newsz: nat)
      requires oldsz <= newsz
      ensures PgRoundUp(oldsz) % PGSIZE == 0 && Vpn(PgRoundUp(oldsz)) <= Vpn(PgRoundUp(newsz))
    {
    }

    /** Whether the n-th page from the rounded old size on starts below the new size. */
    lemma InPage(oldsz: nat, newsz: nat, n: nat)
      requires oldsz <= newsz
      ensures
        var a := PgRoundUp(oldsz) + n * PGSIZE;
        && Vpn(a) == Vpn(PgRoundUp(oldsz)) + n && a % PGSIZE == 0
        && (a < newsz <==> Vpn(PgRoundUp(oldsz)) + n < Vpn(PgRoundUp(newsz)))
    {
      var q := (oldsz + PGSIZE - 1) / PGSIZE;
      var a := (q + n) * PGSIZE;
      assert a == PgRoundUp(oldsz) + n * PGSIZE && a / PGSIZE == q + n;
    }

    lemma PastEnd(newsz: nat, v: nat)
      requires v < Vpn(PgRoundUp(newsz))
      ensures v >= MAXPAGE ==> newsz > MAXVA
    {
    }

    /** Mappings past what has been filled are as before. */
    lemma SameAbove(h: Heap, t: Tables, h1: Heap, t1: Tables, lo: nat, contents: seq<Page>, flags: seq<nat>)
      requires TreeOk(h.pages, t) && Filled(h, t, h1, t1, lo, contents, flags)
      ensures TreeOk(h1.pages, t1) && Leaf(h1.pages, t1, lo + |contents|) == Leaf(h.pages, t, lo + |contents|)
    {
      hide TreeOk, Leaf, Owned, Holds;
    }

    /** The rollback of uvmalloc. */
    method Undo(root: nat, a: nat, oldsz: nat, ghost tables': Tables, ghost h: Heap, ghost tables: Tables,
                ghost contents: seq<Page>, ghost flags: seq<nat>)
      requires Safe(tables') && 0 in tables' && tables'[0] == root && TreeOk(h.pages, tables)
      requires oldsz % PGSIZE == 0 && a == oldsz + |contents| * PGSIZE
      requires Filled(h, tables, H(), tables', Vpn(oldsz), contents, flags)
      requires NoneMapped(h.pages, tables, Vpn(oldsz), Vpn(oldsz) + |contents|)
      modifies this`pages, this`head, this`refs, this`free
      ensures Safe(tables') && Grew(h, tables, H(), tables')
    {
      hide KValid, TreeOk, Leaf, Kept, Grew, OwnedPage, FreedRun, Filled;
      ghost var h1, lo := H(), Vpn(oldsz);
      FilledParts(h, tables, h1, tables', lo, contents, flags);
      NothingFreed(h1, tables', lo);
      OwnedIsHeld(h1, tables', lo, lo + |contents|);
      assert PgRoundUp(oldsz) == oldsz && PgRoundUp(a) == a && Vpn(a) == lo + |contents|;
      var r, ok := UvmDealloc(root, a, oldsz, tables');
      FilledThenFreed(h, tables, h1, tables', H(), lo, contents, flags);
    }

    lemma FilledParts(h: Heap, t: Tables, h1: Heap, t1: Tables, lo: nat, contents: seq<Page>, flags: seq<nat>)
      requires TreeOk(h.pages, t) && Filled(h, t, h1, t1, lo, contents, flags)
      ensures TreeOk(h1.pages, t1) && Owned(h1, t1, lo, lo + |contents|) && AllMapped(h1.pages, t1, lo, lo + |contents|)
    {
    }

    lemma OwnedGrew(h1: Heap, t1: Tables, h2: Heap, t2: Tables, lo: nat, hi: nat)
      requires Grew(h1, t1, h2, t2) && Owned(h1, t1, lo, hi)
      ensures Owned(h2, t2, lo, hi) && FramesOf(h2.pages, t2, lo, hi) == FramesOf(h1.pages, t1, lo, hi)
    {
      hide TreeOk, Leaf, FreeSet, NewTables, Pte2Pa;
    }

    lemma HoldsGrew(h1: Heap, t1: Tables, h2: Heap, t2: Tables, lo: nat, contents: seq<Page>, flags: seq<nat>)
      requires Grew(h1, t1, h2, t2) && |flags| == |contents| && Holds(h1, t1, lo, contents, flags)
      requires Owned(h1, t1, lo, lo + |contents|) && AllMapped(h1.pages, t1, lo, lo + |contents|)
      ensures Holds(h2, t2, lo, contents, flags)
    {
      hide TreeOk, Leaf, FreeSet, NewTables, Pte2Pa, PteFlags;
      forall w: nat | lo <= w < lo + |contents|
        ensures Pte2Pa(Leaf(h2.pages, t2, w)) in h2.pages && h2.pages[Pte2Pa(Leaf(h2.pages, t2, w))] == contents[w - lo]
      {
        assert Leaf(h2.pages, t2, w) == Leaf(h1.pages, t1, w);
        assert OwnedPage(h1, t1, Pte2Pa(Leaf(h1.pages, t1, w)));
      }
    }

    /** Taking further tables does not disturb what has been filled. */
    lemma FilledGrew(h: Heap, t: Tables, h1: Heap, t1: Tables, h2: Heap, t2: Tables, lo: nat, contents: seq<Page>, flags: seq<nat>)
      requires TreeOk(h.pages, t) && Filled(h, t, h1, t1, lo, contents, flags) && Grew(h1, t1, h2, t2)
      ensures Filled(h, t, h2, t2, lo, contents, flags)
    {
      hide TreeOk, Leaf, FreeSet, NewTables, FramesOf, Owned, Holds, DataPage;
      NewTablesTrans(t, t1, t2);
      OwnedGrew(h1, t1, h2, t2, lo, lo + |contents|);
      HoldsGrew(h1, t1, h2, t2, lo, contents, flags);
      KeepsDataTrans(h, t, h1, t1, h2, t2);
      assert FreeSet(h.free) == FreeSet(h2.free) + NewTables(t, t2) + FramesOf(h2.pages, t2, lo, lo + |contents|);
    }

    lemma KeepsDataTrans(h: Heap, t: Tables, h1: Heap, t1: Tables, h2: Heap, t2: Tables)
      requires KeepsData(h, t, h1, t1) && KeepsData(h1, t1, h2, t2)
      ensures KeepsData(h, t, h2, t2)
    {
      hide DataPage;
    }

    /** The contents and flags of the first n pages of an address space. */
    ghost function ContentsOf(pages: Pages, t: Tables, n: nat): seq<Page>
      requires TreeOk(pages, t)
      requires forall w: nat :: w < n ==> Pte2Pa(Leaf(pages, t, w)) in pages
    {
      seq(n, w requires 0 <= w < n => pages[Pte2Pa(Leaf(pages, t, w))])
    }

    ghost function FlagsOf(pages: Pages, t: Tables, n: nat): seq<nat>
      requires TreeOk(pages, t)
    {
      seq(n, w requires 0 <= w => PteFlags(Leaf(pages, t, w)))
    }

    /** The other tree's tables and the pages it maps are data pages here. */
    ghost predicate Bystander(h: Heap, t: Tables, u: Tables, n: nat)
      requires TreeOk(h.pages, u)
    {
      && (forall a :: a in u ==> DataPage(h, t, u[a]) && Count(h.refs, u[a]) == 1)
      && (forall w: nat :: w < n && Leaf(h.pages, u, w) != 0 ==> DataPage(h, t, Pte2Pa(Leaf(h.pages, u, w))))
    }

    lemma BystanderKept(h: Heap, t: Tables, h1: Heap, t1: Tables, u: Tables, n: nat)
      requires TreeOk(h.pages, u) && Bystander(h, t, u, n) && KeepsData(h, t, h1, t1)
      ensures TreeOk(h1.pages, u) && Bystander(h1, t1, u, n) && SameLeaves(h.pages, u, h1.pages, u)
      ensures forall w: nat :: w < n && Leaf(h.pages, u, w) != 0 ==>
        h1.pages[Pte2Pa(Leaf(h.pages, u, w))] == h.pages[Pte2Pa(Leaf(h.pages, u, w))]
    {
      hide NodeOk, TreeOk, Pte2Pa, Leaf;
      TreeFrame(h.pages, u, h1.pages);
    }

    /** uvmcopy's look at the parent's page va; ok is false for its two panics and for walk's. */
    method ReadSource(root: nat, va: nat, ghost u: Tables) returns (ok: bool, page: Page, flags: nat)
      requires Safe(u) && 0 in u && u[0] == root
      requires va < MAXVA && Leaf(pages, u, Vpn(va)) != 0 ==> Pte2Pa(Leaf(pages, u, Vpn(va))) in pages
      modifies this`pages, this`head, this`refs, this`free
      ensures H() == old(H()) && Safe(u)
      ensures ok <==> va < MAXVA && Leaf(pages, u, Vpn(va)) != 0
      ensures ok ==> page == pages[Pte2Pa(Leaf(pages, u, Vpn(va)))] && flags == PteFlags(Leaf(pages, u, Vpn(va)))
      ensures ok ==> flags < 1024 && Rwx(flags) && WithV(flags) == flags
    {
      hide KValid, TreeOk, Leaf, Pte2Pa, Vpn, LowNode, Rwx;
      page, flags := ZeroPage(), 0;
      var found, table, index, pte := FindLeaf(root, va, u);
      if !found { return false, page, 0; }
      FlagBits(pte);
      return true, pages[Pte2Pa(pte)], PteFlags(pte);
    }

    lemma FlagBits(pte: nat)
      ensures Valid(PteFlags(pte)) <==> Valid(pte)
      ensures Rwx(PteFlags(pte)) <==> Rwx(pte)
    {
      var q, f := pte / 1024, pte % 1024;
      assert Pack(q * PGSIZE, f) == pte by { assert q * PGSIZE / PGSIZE == q; }
      hide Pack, Valid, Rwx;
      PackBits(q * PGSIZE, f);
    }

    lemma StillSafe(h: Heap, t: Tables, t1: Tables, u: Tables, n: nat)
      requires Safe(t1) && TreeOk(h.pages, u) && Bystander(h, t, u, n) && KeepsData(h, t, H(), t1)
      requires forall a :: a in u ==> Managed(u[a])
      ensures Safe(u) && SameLeaves(h.pages, u, pages, u)
      ensures forall w: nat :: w < n && Leaf(h.pages, u, w) != 0 ==>
        && Pte2Pa(Leaf(h.pages, u, w)) in h.pages && Pte2Pa(Leaf(h.pages, u, w)) in pages
        && pages[Pte2Pa(Leaf(h.pages, u, w))] == h.pages[Pte2Pa(Leaf(h.pages, u, w))]
    {
      hide KValid, TreeOk, Leaf, Pte2Pa;
      BystanderKept(h, t, H(), t1, u, n);
    }

    /** How many of the first n pages are mapped before the first that is not. */
    ghost function MappedPrefix(pages: Pages, u: Tables, n: nat): nat
      requires TreeOk(pages, u)
    {
      if n == 0 then 0
      else
        var m := MappedPrefix(pages, u, n - 1);
        if m == n - 1 && m < MAXPAGE && Leaf(pages, u, m) != 0 then n else m
    }

    lemma {:induction false} PrefixIs(pages: Pages, u: Tables, k: nat, n: nat)
      requires TreeOk(pages, u) && AllMapped(pages, u, 0, k) && k <= n
      ensures k <= MappedPrefix(pages, u, n) <= n
      ensures k < n && (k >= MAXPAGE || Leaf(pages, u, k) == 0) ==> MappedPrefix(pages, u, n) == k
    {
      hide TreeOk, Leaf;
      if k < n {
        PrefixIs(pages, u, k, n - 1);
      } else if n > 0 {
        PrefixIs(pages, u, k - 1, n - 1);
      }
    }

    /** How uvmcopy's loop stands after n pages. */
    ghost predicate Copying(h: Heap, t: Tables, h1: Heap, t1: Tables, u: Tables, n: nat) {
      && TreeOk(h.pages, t) && TreeOk(h.pages, u) && Copyable(h.pages, u, n) && n <= MAXPAGE
      && Filling(h, t, h1, t1, 0, ContentsOf(h.pages, u, n), FlagsOf(h.pages, u, n))
    }

    /** The other tree is as it was, and the copy's tree is sound. */
    ghost predicate Apart(h: Heap, t1: Tables, u: Tables, newRoot: nat)
      reads this`pages, this`head, this`free, this`refs
    {
      && Safe(t1) && 0 in t1 && t1[0] == newRoot
      && TreeOk(h.pages, u) && Safe(u) && SameLeaves(h.pages, u, pages, u)
    }

    /** One turn of uvmcopy's loop, with the err path when there is no memory. */
    method CopyOne(oldRoot: nat, newRoot: nat, i: nat, ghost u: Tables, ghost h: Heap, ghost tables: Tables,
                   ghost t1: Tables, ghost n: nat, ghost hi: nat)
      returns (r: Outcome, ghost tables': Tables)
      requires Copying(h, tables, H(), t1, u, n) && Bystander(h, tables, u, hi) && i == n * PGSIZE && n < hi
      requires Apart(h, t1, u, newRoot) && 0 in u && u[0] == oldRoot && forall a :: a in u ==> Managed(u[a])
      modifies this`pages, this`head, this`refs, this`free
      ensures Apart(h, tables', u, newRoot)
      ensures r == Ok ==> Copying(h, tables, H(), tables', u, n + 1)
      ensures r != Ok ==> Ended(r, n, h, tables, 0, hi, MappedPrefix(h.pages, u, hi))
      ensures r == Fail ==> Grew(h, tables, H(), tables')
    {
      hide KValid, TreeOk, Leaf, Kept, Grew, OwnedPage, FilledOne, FreedRun, Filled, Pte2Pa, PteFlags, Bystander, FramesOf, KeepsData;
      hide Filling, Ended, Mappable, Costs, Missing, Needed, PathOf, Nodes, MappedPrefix;
      tables' := t1;
      ghost var h1 := H();
      ghost var contents, flags := ContentsOf(h.pages, u, n), FlagsOf(h.pages, u, n);
      FillingNext(h, tables, h1, t1, 0, contents, flags);
      CopySource(h, tables, h1, t1, u, hi, contents, flags);
      assert Vpn(i) == n;
      var ok, page, fl := ReadSource(oldRoot, i, u);
      PrefixIs(h.pages, u, n, hi);
      if !ok {
        FillingPanics(h, tables, h1, t1, contents, flags, hi);
        return Panic, t1;
      }
      PrefixIs(h.pages, u, n + 1, hi);
      ghost var f;
      r, tables', f := FillOne(newRoot, i, page, fl, t1);
      if r == Ok {
        FillingGrows(h, tables, h1, t1, H(), tables', 0, contents, flags, f, page, fl);
        CopiedMore(h, tables, H(), tables', u, n, page, fl);
        FilledAfter(h, tables, H(), tables', u, n + 1);
        StillSafe(h, tables, tables', u, hi);
        return;
      }
      FillingStops(r, h, tables, h1, t1, 0, contents, flags, hi, MappedPrefix(h.pages, u, hi));
      if r == Panic {
        FilledKeepsData(h, tables, h1, t1, contents, flags);
        KeepsDataTrans(h, tables, h1, t1, H(), tables');
        StillSafe(h, tables, tables', u, hi);
      } else {
        FilledGrew(h, tables, h1, t1, H(), tables', 0, contents, flags);
        UndoCopy(newRoot, i / PGSIZE, tables', h, tables, contents, flags, u, hi);
      }
    }

    /** uvmcopy's own panics need no memory. */
    lemma FillingPanics(h: Heap, t: Tables, h1: Heap, t1: Tables, contents: seq<Page>, flags: seq<nat>, n: nat)
      requires TreeOk(h.pages, t) && Filling(h, t, h1, t1, 0, contents, flags) && |contents| < n
      ensures Ended(Panic, |contents|, h, t, 0, n, |contents|)
    {
      hide TreeOk, Leaf, Filled, Missing;
    }

    lemma CopiedMore(h: Heap, t: Tables, h1: Heap, t1: Tables, u: Tables, n: nat, page: Page, fl: nat)
      requires TreeOk(h.pages, t) && TreeOk(h.pages, u) && Copyable(h.pages, u, n + 1) && n < MAXPAGE
      requires page == h.pages[Pte2Pa(Leaf(h.pages, u, n))] && fl == PteFlags(Leaf(h.pages, u, n))
      requires Filling(h, t, h1, t1, 0, ContentsOf(h.pages, u, n) + [page], FlagsOf(h.pages, u, n) + [fl])
      ensures Copying(h, t, h1, t1, u, n + 1)
    {
      hide TreeOk, Leaf, Pte2Pa, PteFlags, Filling;
      assert ContentsOf(h.pages, u, n + 1) == ContentsOf(h.pages, u, n) + [page];
      assert FlagsOf(h.pages, u, n + 1) == FlagsOf(h.pages, u, n) + [fl];
    }

    lemma FilledAfter(h: Heap, t: Tables, h1: Heap, t1: Tables, u: Tables, n: nat)
      requires Copying(h, t, h1, t1, u, n)
      ensures KeepsData(h, t, h1, t1)
    {
      hide TreeOk, Leaf, Owned, Holds, FramesOf, Costs, Mappable;
    }

    /** How uvmcopy ended: as for uvmalloc, but a missing page of the parent is a panic too. */
    ghost predicate CopyEnded(r: Outcome, good: nat, h: Heap, u: Tables, t: Tables, sz: nat) {
      var n := Vpn(PgRoundUp(sz));
      && TreeOk(h.pages, t) && TreeOk(h.pages, u) && Ended(r, good, h, t, 0, n, MappedPrefix(h.pages, u, n))
      && (Mappable(h.pages, t, 0, n) && AllMapped(h.pages, u, 0, n) ==> (r == Fail <==> |h.free| < Needed(t, 0, n)))
      && (r == Panic ==> !AllMapped(h.pages, u, 0, n) || !NoneMapped(h.pages, t, 0, n))
    }

    lemma CopyEnds(r: Outcome, good: nat, h: Heap, u: Tables, t: Tables, sz: nat)
      requires TreeOk(h.pages, t) && TreeOk(h.pages, u)
      requires Ended(r, good, h, t, 0, Vpn(PgRoundUp(sz)), MappedPrefix(h.pages, u, Vpn(PgRoundUp(sz))))
      ensures CopyEnded(r, good, h, u, t, sz)
    {
      hide TreeOk, Leaf, Needed, Vpn, PgRoundUp, MappedPrefix;
      var n := Vpn(PgRoundUp(sz));
      if AllMapped(h.pages, u, 0, n) {
        PrefixIs(h.pages, u, n, n);
        if Mappable(h.pages, t, 0, n) { EndsWell(r, good, h, t, 0, n, n); }
      }
    }

    /** The child maps fresh pages with the contents and flags of the parent's. */
    ghost predicate Copied(h: Heap, u: Tables, t: Tables, h1: Heap, t1: Tables, sz: nat) {
      var n := Vpn(PgRoundUp(sz));
      && TreeOk(h.pages, t) && TreeOk(h.pages, u) && NoneMapped(h.pages, t, 0, n) && Copyable(h.pages, u, n)
      && Filled(h, t, h1, t1, 0, ContentsOf(h.pages, u, n), FlagsOf(h.pages, u, n))
    }

    /**
      Copy the first sz bytes of one address space into another: the child maps
      fresh pages with the parent's contents and flags. On failure the child's
      mappings are as before and every data page has been returned. `good` is how
      many pages fit before it ended.
     */
    method UvmCopy(oldRoot: nat, newRoot: nat, sz: nat, ghost u: Tables, ghost tables: Tables)
      returns (r: Outcome, ghost tables': Tables, ghost good: nat)
      requires Safe(u) && 0 in u && u[0] == oldRoot && Safe(tables) && 0 in tables && tables[0] == newRoot
      requires Bystander(H(), tables, u, Vpn(PgRoundUp(sz)))
      modifies this`pages, this`head, this`refs, this`free
      ensures Safe(tables') && 0 in tables' && tables'[0] == newRoot
      ensures Safe(u) && SameLeaves(old(pages), u, pages, u)
      ensures CopyEnded(r, good, old(H()), u, tables, sz)
      ensures r == Fail ==> Grew(old(H()), tables, H(), tables')
      ensures r == Ok ==> Copied(old(H()), u, tables, H(), tables', sz)
    {
      hide KValid, TreeOk, Leaf, Kept, Grew, Bystander, Copying, CopyEnded, Copied, Ended, MappedPrefix;
      tables', good := tables, 0;
      var i := 0;
      ghost var hi := Vpn(PgRoundUp(sz));
      CopyStart(H(), tables, u);
      while i < sz
        invariant i == good * PGSIZE && good <= hi
        invariant Apart(old(H()), tables', u, newRoot)
        invariant Copying(old(H()), tables, H(), tables', u, good)
      {
        r, tables' := CopyOne(oldRoot, newRoot, i, u, old(H()), tables, tables', good, hi);
        if r != Ok {
          CopyEnds(r, good, old(H()), u, tables, sz);
          return;
        }
        good := good + 1;
        i := i + PGSIZE;
      }
      CopyDone(old(H()), u, tables, H(), tables', sz, good);
      return Ok, tables', good;
    }

    lemma CopyStart(h: Heap, t: Tables, u: Tables)
      requires TreeOk(h.pages, t) && TreeOk(h.pages, u)
      ensures SameLeaves(h.pages, u, h.pages, u) && Copying(h, t, h, t, u, 0)
    {
      hide TreeOk, Leaf, Filling;
      FillingStarts(h, t, 0);
      assert ContentsOf(h.pages, u, 0) == [] && FlagsOf(h.pages, u, 0) == [];
    }

    lemma CopyDone(h: Heap, u: Tables, t: Tables, h1: Heap, t1: Tables, sz: nat, n: nat)
      requires Copying(h, t, h1, t1, u, n) && n == Vpn(PgRoundUp(sz))
      ensures Copied(h, u, t, h1, t1, sz) && CopyEnded(Ok, n, h, u, t, sz)
    {
      hide TreeOk, Leaf, Filled, Filling, Vpn, PgRoundUp, Needed, MappedPrefix, Pte2Pa;
      var contents, flags := ContentsOf(h.pages, u, n), FlagsOf(h.pages, u, n);
      FillingNext(h, t, h1, t1, 0, contents, flags);
      PrefixIs(h.pages, u, n, n);
      FillingDone(h, t, h1, t1, 0, contents, flags, MappedPrefix(h.pages, u, n));
      CopyEnds(Ok, n, h, u, t, sz);
    }

    lemma FilledKeepsData(h: Heap, t: Tables, h1: Heap, t1: Tables, contents: seq<Page>, flags: seq<nat>)
      requires TreeOk(h.pages, t) && Filled(h, t, h1, t1, 0, contents, flags)
      ensures KeepsData(h, t, h1, t1)
    {
    }

    /** The first n pages are mapped to pages of memory. */
    ghost predicate Copyable(pages: Pages, u: Tables, n: nat)
      requires TreeOk(pages, u)
    {
      forall w: nat :: w < n ==> Leaf(pages, u, w) != 0 && Pte2Pa(Leaf(pages, u, w)) in pages
    }

    /** What the copy reads is what the parent held at the start. */
    lemma CopySource(h: Heap, t: Tables, h1: Heap, t1: Tables, u: Tables, hi: nat, contents: seq<Page>, flags: seq<nat>)
      requires TreeOk(h.pages, t) && TreeOk(h.pages, u) && Bystander(h, t, u, hi)
      requires Filled(h, t, h1, t1, 0, contents, flags) && h1 == H() && Safe(t1)
      requires forall a :: a in u ==> Managed(u[a])
      ensures Safe(u) && SameLeaves(h.pages, u, h1.pages, u)
      ensures forall w: nat :: w < hi && Leaf(h.pages, u, w) != 0 ==>
        && Pte2Pa(Leaf(h.pages, u, w)) in h.pages && Pte2Pa(Leaf(h.pages, u, w)) in h1.pages
        && h1.pages[Pte2Pa(Leaf(h.pages, u, w))] == h.pages[Pte2Pa(Leaf(h.pages, u, w))]
    {
      hide KValid, TreeOk, Leaf, Pte2Pa, Owned, Holds, FramesOf, Bystander;
      StillSafe(h, t, t1, u, hi);
    }

    /** The err path of uvmcopy. */
    method UndoCopy(root: nat, npages: nat, ghost tables': Tables, ghost h: Heap, ghost tables: Tables,
                    ghost contents: seq<Page>, ghost flags: seq<nat>, ghost u: Tables, ghost hi: nat)
      requires Safe(tables') && 0 in tables' && tables'[0] == root && TreeOk(h.pages, tables) && npages == |contents|
      requires Filled(h, tables, H(), tables', 0, contents, flags)
      requires NoneMapped(h.pages, tables, 0, npages)
      requires TreeOk(h.pages, u) && Bystander(h, tables, u, hi) && forall a :: a in u ==> Managed(u[a])
      modifies this`pages, this`head, this`refs, this`free
      ensures Safe(tables') && Grew(h, tables, H(), tables')
      ensures Safe(u) && SameLeaves(h.pages, u, pages, u)
    {
      hide KValid, TreeOk, Leaf, OwnedPage, FreedRun, Filled, FramesOf, Bystander;
      ghost var h1 := H();
      FilledParts(h, tables, h1, tables', 0, contents, flags);
      OwnedIsHeld(h1, tables', 0, |contents|);
      var r := UvmUnmap(root, 0, npages, true, tables');
      FilledThenFreed(h, tables, h1, tables', H(), 0, contents, flags);
      StillSafe(h, tables, tables', u, hi);
    }

    // ----- freeing an address space -----

    /** Node a lies in the subtree of node id. */
    ghost predicate Under(a: nat, id: nat) {
      a == id || (a > 0 && (Parent(a) == id || (Parent(a) > 0 && Parent(Parent(a)) == id)))
    }

    ghost function Level(id: nat): nat {
      if id == 0 then 2 else if id < FIRSTLOW then 1 else 0
    }

    /** The table pages of the subtree of id. */
    ghost function SubFrames(t: Tables, id: nat): set<nat> {
      set a | a in t && Under(a, id) :: t[a]
    }

    /** The table pages of the subtrees of the first n children of id. */
    ghost function ChildFrames(t: Tables, id: nat, n: nat): set<nat> {
      set a, i | a in t && 0 <= i < n && Under(a, Child(id, i)) :: t[a]
    }

    /** The shape of a page-table tree: pages are distinct and every node but the root has its parent. */
    ghost predicate Closed(t: Tables) {
      && (forall a, b :: a in t && b in t && t[a] == t[b] ==> a == b)
      && (forall a :: a in t ==> a < LASTNODE && (a > 0 ==> Parent(a) in t))
    }

    /** The subtree of id is as built, its pages allocated once. */
    ghost predicate Intact(h: Heap, t: Tables, id: nat) {
      && Closed(t)
      && forall a :: a in t && Under(a, id) ==>
           NodeOk(h.pages, t, a) && Managed(t[a]) && t[a] !in h.free && Count(h.refs, t[a]) == 1
    }

    ghost predicate NoLeaves(pages: Pages, t: Tables, id: nat) {
      forall a :: a in t && Under(a, id) && a >= FIRSTLOW ==> t[a] in pages && AllZero(pages[t[a]])
    }

    ghost predicate AllZero(p: Page) {
      forall i :: 0 <= i < FANOUT ==> p[i] == 0
    }

    /** The pages in `frames` went back to the free list; no other page changed. */
    ghost predicate Returned(h: Heap, h': Heap, frames: set<nat>) {
      && FreeSet(h'.free) == FreeSet(h.free) + frames
      && forall q :: q in h.pages && q !in frames ==>
           q in h'.pages && h'.pages[q] == h.pages[q] && (q % PGSIZE == 0 ==> Count(h'.refs, q) == Count(h.refs, q))
    }

    lemma UnderSome(a: nat, id: nat) returns (i: nat)
      requires Under(a, id) && a != id
      ensures i < FANOUT && Under(a, Child(id, i))
    {
      if Parent(a) == id {
        i := (a - 1) % FANOUT;
        assert Child(id, i) == a;
      } else {
        i := (Parent(a) - 1) % FANOUT;
        assert Child(id, i) == Parent(a);
      }
    }

    lemma UnderOne(a: nat, id: nat, i: nat, j: nat)
      requires i < FANOUT && j < FANOUT && Under(a, Child(id, i)) && Under(a, Child(id, j))
      ensures i == j
    {
      ParentOfChild(id, i);
      ParentOfChild(id, j);
    }

    lemma NoOrphans(t: Tables, id: nat, i: nat)
      requires Closed(t) && i < FANOUT && Child(id, i) !in t
      ensures forall a :: a in t ==> !Under(a, Child(id, i))
    {
    }

    lemma ChildFramesNext(t: Tables, id: nat, i: nat)
      ensures ChildFrames(t, id, i + 1) == ChildFrames(t, id, i) + SubFrames(t, Child(id, i))
    {
      hide Under;
      forall f | f in ChildFrames(t, id, i + 1)
        ensures f in ChildFrames(t, id, i) + SubFrames(t, Child(id, i))
      {
        var a, j :| a in t && 0 <= j < i + 1 && Under(a, Child(id, j)) && t[a] == f;
        if j == i { assert f in SubFrames(t, Child(id, i)); } else { assert f in ChildFrames(t, id, i); }
      }
    }

    lemma AllChildFrames(t: Tables, id: nat)
      requires Closed(t) && id in t
      ensures SubFrames(t, id) == ChildFrames(t, id, FANOUT) + {t[id]}
    {
      hide Under, Child, Parent;
      forall f | f in SubFrames(t, id)
        ensures f in ChildFrames(t, id, FANOUT) + {t[id]}
      {
        var a :| a in t && Under(a, id) && t[a] == f;
        if a != id { var i := UnderSome(a, id); }
      }
      forall f | f in ChildFrames(t, id, FANOUT)
        ensures f in SubFrames(t, id)
      {
        var a, i :| a in t && 0 <= i < FANOUT && Under(a, Child(id, i)) && t[a] == f;
        ChildIsUnder(t, a, id, i);
      }
      assert t[id] in SubFrames(t, id) by { SelfUnder(id); }
    }

    lemma SelfUnder(id: nat)
      ensures Under(id, id)
    {
    }

    lemma ChildIsUnder(t: Tables, a: nat, id: nat, i: nat)
      requires Closed(t) && a in t && id in t && i < FANOUT && Under(a, Child(id, i))
      ensures Under(a, id) && a != id
    {
      ParentOfChild(id, i);
    }

    /** freewalk(t[id]) after i entries: their subtrees are freed, and the table still holds the rest. */
    ghost predicate Walking(h: Heap, h1: Heap, t: Tables, id: nat, i: nat)
      requires id in t && t[id] in h.pages
    {
      && FreeSet(h1.free) == FreeSet(h.free) + ChildFrames(t, id, i)
      && (forall q :: q in h.pages && q !in ChildFrames(t, id, i) && q != t[id] ==>
            q in h1.pages && h1.pages[q] == h.pages[q] && (q % PGSIZE == 0 ==> Count(h1.refs, q) == Count(h.refs, q)))
      && t[id] in h1.pages && t[id] !in h1.free && Count(h1.refs, t[id]) == 1
      && forall j :: i <= j < FANOUT ==> h1.pages[t[id]][j] == h.pages[t[id]][j]
    }

    /** No leaf among the first i entries or below them. */
    ghost predicate CleanTo(h: Heap, t: Tables, id: nat, i: nat)
      requires id in t && t[id] in h.pages && i <= FANOUT
    {
      forall j :: 0 <= j < i ==> NoLeaves(h.pages, t, Child(id, j)) && (id >= FIRSTLOW ==> h.pages[t[id]][j] == 0)
    }

    lemma IntactSelf(h: Heap, t: Tables, id: nat)
      requires Intact(h, t, id) && id in t
      ensures NodeOk(h.pages, t, id) && Managed(t[id]) && t[id] !in h.free && Count(h.refs, t[id]) == 1
      ensures Walking(h, h, t, id, 0) && CleanTo(h, t, id, 0)
    {
      SelfUnder(id);
      assert ChildFrames(t, id, 0) == {};
    }

    /** The next child's subtree has not been touched. */
    lemma ChildIntact(h: Heap, h1: Heap, t: Tables, id: nat, i: nat)
      requires Intact(h, t, id) && id in t && t[id] in h.pages && i < FANOUT && Walking(h, h1, t, id, i)
      ensures Intact(h1, t, Child(id, i)) && (NoLeaves(h1.pages, t, Child(id, i)) <==> NoLeaves(h.pages, t, Child(id, i)))
      ensures t[id] !in SubFrames(t, Child(id, i))
    {
      hide Under, Child, Parent;
      forall a | a in t && Under(a, Child(id, i))
        ensures Under(a, id) && a != id && t[a] !in ChildFrames(t, id, i) && t[a] != t[id]
        ensures NodeOk(h.pages, t, a) && NodeOk(h1.pages, t, a) && t[a] !in h1.free && h1.pages[t[a]] == h.pages[t[a]]
      {
        ChildIsUnder(t, a, id, i);
        OtherChild(t, a, id, i);
        NotFree(h.free, t[a]);
        InFreeSet(h1.free, t[a]);
      }
    }

    lemma InFreeSet(free: seq<nat>, q: nat)
      ensures q in free ==> q in FreeSet(free)
    {
      if q in free { var i :| 0 <= i < |free| && free[i] == q; }
    }

    lemma OtherChild(t: Tables, a: nat, id: nat, i: nat)
      requires Closed(t) && a in t && i < FANOUT && Under(a, Child(id, i))
      ensures t[a] !in ChildFrames(t, id, i)
    {
      hide Under, Child, Parent;
      if t[a] in ChildFrames(t, id, i) {
        var b, j :| b in t && 0 <= j < i && Under(b, Child(id, j)) && t[b] == t[a];
        UnderOne(a, id, i, j);
      }
    }

    /** After the recursive call and the store of 0, one more entry is done. */
    lemma WalkingChild(h: Heap, h1: Heap, h2: Heap, h3: Heap, t: Tables, id: nat, i: nat)
      requires id in t && t[id] in h.pages && t[id] % PGSIZE == 0 && i < FANOUT && Walking(h, h1, t, id, i)
      requires Returned(h1, h2, SubFrames(t, Child(id, i))) && t[id] !in SubFrames(t, Child(id, i))
      requires t[id] in h2.pages && h3 == h2.(pages := h2.pages[t[id] := h2.pages[t[id]][i := 0]])
      ensures Walking(h, h3, t, id, i + 1)
    {
      hide Under, Child, SubFrames, ChildFrames, FreeSet;
      ChildFramesNext(t, id, i);
      if t[id] in h3.free { InFreeSet(h3.free, t[id]); NotFree(h1.free, t[id]); }
    }

    lemma WalkingSkip(h: Heap, h1: Heap, t: Tables, id: nat, i: nat)
      requires Closed(t) && id in t && t[id] in h.pages && i < FANOUT && Walking(h, h1, t, id, i) && Child(id, i) !in t
      ensures Walking(h, h1, t, id, i + 1) && NoLeaves(h.pages, t, Child(id, i))
    {
      hide Under, Child, ChildFrames, FreeSet;
      NoOrphans(t, id, i);
      ChildFramesNext(t, id, i);
      assert SubFrames(t, Child(id, i)) == {};
    }

    lemma CleanAll(h: Heap, t: Tables, id: nat)
      requires Closed(t) && id in t && t[id] in h.pages && CleanTo(h, t, id, FANOUT)
      ensures NoLeaves(h.pages, t, id)
    {
      hide Under, Child, Parent;
      forall a | a in t && Under(a, id) && a >= FIRSTLOW
        ensures t[a] in h.pages && AllZero(h.pages[t[a]])
      {
        if a != id { var j := UnderSome(a, id); assert NoLeaves(h.pages, t, Child(id, j)); }
      }
    }

    lemma NoLeavesBelow(h: Heap, t: Tables, id: nat, i: nat)
      requires Closed(t) && id in t && t[id] in h.pages && i < FANOUT && NoLeaves(h.pages, t, id)
      ensures NoLeaves(h.pages, t, Child(id, i)) && (id >= FIRSTLOW ==> h.pages[t[id]][i] == 0)
    {
      hide Child, Parent;
      SelfUnder(id);
      forall a | a in t && Under(a, Child(id, i))
        ensures Under(a, id)
      {
        ChildIsUnder(t, a, id, i);
      }
    }

    /** What freewalk sees in an entry: a table exactly when the child exists, a leaf only in level 0. */
    lemma EntrySeen(h: Heap, t: Tables, id: nat, i: nat)
      requires Closed(t) && id in t && NodeOk(h.pages, t, id) && i < FANOUT
      requires Child(id, i) in t ==> t[Child(id, i)] % PGSIZE == 0
      ensures
        var pte := h.pages[t[id]][i];
        && (Valid(pte) && !Rwx(pte) <==> Child(id, i) in t)
        && (Child(id, i) in t ==> Pte2Pa(pte) == t[Child(id, i)] && id < FIRSTLOW)
        && (id < FIRSTLOW && Valid(pte) ==> !Rwx(pte))
        && (id >= FIRSTLOW && !Valid(pte) ==> pte == 0)
    {
      if id < FIRSTLOW {
        assert h.pages[t[id]][i] == Entry(t, Child(id, i));
        if Child(id, i) in t { EntryPacked(t[Child(id, i)]); }
      } else {
        assert Child(id, i) >= LASTNODE;
      }
    }

    lemma IntactClosed(h: Heap, t: Tables, id: nat)
      requires Intact(h, t, id) && id in t
      ensures Closed(t) && t[id] in h.pages && t[id] % PGSIZE == 0
      ensures forall i :: 0 <= i < FANOUT && Child(id, i) in t ==> Level(Child(id, i)) < Level(id)
    {
      SelfUnder(id);
      assert NodeOk(h.pages, t, id);
    }

    lemma ChildAligned(h: Heap, t: Tables, c: nat)
      requires Intact(h, t, c)
      ensures c in t ==> t[c] % PGSIZE == 0
    {
      SelfUnder(c);
    }

    lemma EntryPacked(pa: nat)
      requires pa % PGSIZE == 0
      ensures Valid(Pack(pa, PTE_V)) && !Rwx(Pack(pa, PTE_V)) && Pte2Pa(Pack(pa, PTE_V)) == pa
    {
      hide Pack;
      PackRoundTrip(pa, PTE_V);
      PackBits(pa, PTE_V);
    }

    lemma TableStays(h1: Heap, h2: Heap, t: Tables, id: nat, i: nat)
      requires id in t && t[id] in h1.pages && t[id] !in h1.free
      requires Returned(h1, h2, SubFrames(t, Child(id, i))) && t[id] !in SubFrames(t, Child(id, i))
      ensures t[id] in h2.pages && t[id] !in h2.free
    {
      hide SubFrames, FreeSet;
      NotFree(h1.free, t[id]);
      InFreeSet(h2.free, t[id]);
    }

    lemma TableFreed(h: Heap, h1: Heap, h2: Heap, t: Tables, id: nat)
      requires Closed(t) && id in t && t[id] in h.pages && t[id] % PGSIZE == 0 && Walking(h, h1, t, id, FANOUT)
      requires h2.free == [t[id]] + h1.free && h2.refs == h1.refs[t[id] / PGSIZE := 0]
      requires h2.pages.Keys == h1.pages.Keys && forall q :: q in h2.pages && q != t[id] ==> h2.pages[q] == h1.pages[q]
      ensures Returned(h, h2, SubFrames(t, id))
    {
      hide SubFrames, ChildFrames, FreeSet;
      AllChildFrames(t, id);
      Pushed(h1.free, t[id]);
      forall q: nat | q % PGSIZE == 0 && q != t[id]
        ensures Count(h2.refs, q) == Count(h1.refs, q)
      {
        PageNumbers(q, t[id]);
      }
    }

    /** Free the tables of a subtree; ok is false for the "freewalk: leaf" panic. */
    method FreeWalk(table: nat, ghost t: Tables, ghost id: nat) returns (ok: bool)
      requires KValid() && id in t && t[id] == table && Intact(H(), t, id)
      modifies this`pages, this`head, this`refs, this`free
      ensures KValid()
      ensures ok <==> NoLeaves(old(pages), t, id)
      ensures ok ==> Returned(old(H()), H(), SubFrames(t, id))
      decreases Level(id)
    {
      hide KValid, Under, Parent, SubFrames, ChildFrames, NoLeaves, Returned, Pte2Pa, FreeSet, NodeOk, Intact, Child, Rwx;
      ghost var h := H();
      IntactClosed(h, t, id);
      IntactSelf(h, t, id);
      var i := 0;
      while i < FANOUT
        invariant 0 <= i <= FANOUT && KValid() && Walking(h, H(), t, id, i) && CleanTo(h, t, id, i)
      {
        ghost var h1 := H();
        ChildIntact(h, h1, t, id, i);
        ChildAligned(h1, t, Child(id, i));
        EntrySeen(h, t, id, i);
        var pte := pages[table][i];
        if Valid(pte) && !Rwx(pte) {
          var child := Pte2Pa(pte);
          ok := FreeWalk(child, t, Child(id, i));
          if !ok {
            if NoLeaves(h.pages, t, id) { NoLeavesBelow(h, t, id, i); }
            return false;
          }
          ghost var h2 := H();
          TableStays(h1, h2, t, id, i);
          Store(table, pages[table][i := 0]);
          WalkingChild(h, h1, h2, H(), t, id, i);
        } else if Valid(pte) {
          if NoLeaves(h.pages, t, id) { NoLeavesBelow(h, t, id, i); }
          return false;
        } else {
          WalkingSkip(h, h1, t, id, i);
        }
        i := i + 1;
      }
      CleanAll(h, t, id);
      ghost var h1 := H();
      ok := Kfree(table);
      TableFreed(h, h1, H(), t, id);
    }

    lemma ReturnedSet(h: Heap, h': Heap, frames: set<nat>)
      requires Returned(h, h', frames)
      ensures FreeSet(h'.free) == FreeSet(h.free) + frames
    {
    }

    lemma SafeIntact(t: Tables)
      requires Safe(t)
      ensures Intact(H(), t, 0) && Closed(t)
    {
      hide KValid;
      assert forall a :: a in t ==> NodeOk(pages, t, a);
    }

    lemma RootFrames(t: Tables)
      requires Closed(t)
      ensures SubFrames(t, 0) == NewTables(map[], t)
    {
      forall a | a in t
        ensures Under(a, 0)
      {
        assert a < LASTNODE;
      }
    }

    /** A tree without mappings has no leaf for freewalk to trip over, and the other way round. */
    lemma LeavesGone(pages: Pages, t: Tables)
      requires TreeOk(pages, t)
      ensures NoLeaves(pages, t, 0) <==> forall v: nat :: Leaf(pages, t, v) == 0
    {
      if NoLeaves(pages, t, 0) {
        forall v: nat
          ensures Leaf(pages, t, v) == 0
        {
          if LowNode(v) in t {
            assert NodeOk(pages, t, LowNode(v));
            assert Under(LowNode(v), 0);
          }
        }
      }
      if forall v: nat :: Leaf(pages, t, v) == 0 {
        forall a | a in t && a >= FIRSTLOW
          ensures t[a] in pages && AllZero(pages[t[a]])
        {
          assert NodeOk(pages, t, a);
          forall i | 0 <= i < FANOUT
            ensures pages[t[a]][i] == 0
          {
            var v: nat := FANOUT * (a - FIRSTLOW) + i;
            assert LowNode(v) == a && v % FANOUT == i;
            assert Leaf(pages, t, v) == 0;
          }
        }
      }
    }

    /**
      Free an address space of sz bytes: its pages, then its tables. When it maps
      exactly its first pages, every table and every page without another
      reference goes back to the free list, once.
     */
    method UvmFree(root: nat, sz: nat, ghost tables: Tables) returns (ok: bool)
      requires Safe(tables) && 0 in tables && tables[0] == root
      requires Held(H(), tables, 0, Vpn(PgRoundUp(sz)))
      modifies this`pages, this`head, this`refs, this`free
      ensures KValid()
      ensures ok <==>
        && AllMapped(old(pages), tables, 0, Vpn(PgRoundUp(sz)))
        && forall v: nat :: v >= Vpn(PgRoundUp(sz)) ==> Leaf(old(pages), tables, v) == 0
      ensures ok ==>
        FreeSet(free) == FreeSet(old(free)) + LastRefs(old(H()), FramesOf(old(pages), tables, 0, Vpn(PgRoundUp(sz)))) + NewTables(map[], tables)
    {
      assert Vpn(0) == 0 && (sz == 0 ==> Vpn(PgRoundUp(sz)) == 0);
      hide KValid, TreeOk, Leaf, NoLeaves, FramesOf, Intact, Closed, FreeSet, SubFrames, Held, LastRefs, NewTables, Vpn, PgRoundUp, FreedRun, Returned;
      var r := Ok;
      if sz > 0 {
        r := UvmUnmap(root, 0, Vpn(PgRoundUp(sz)), true, tables);
        if r != Ok { return false; }
      } else {
        NothingFreed(H(), tables, 0);
      }
      ghost var h := H();
      FreedOthers(old(H()), h, tables, FramesOf(old(pages), tables, 0, Vpn(PgRoundUp(sz))));
      SafeIntact(tables);
      LeavesGone(pages, tables);
      RootFrames(tables);
      ok := FreeWalk(root, tables, 0);
      if ok { ReturnedSet(h, H(), SubFrames(tables, 0)); }
    }
  }
}
