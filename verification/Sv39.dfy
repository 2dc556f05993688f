/**
  Three-level page tables. Table pages are numbered as a 512-ary heap: the root
  is node 0 and entry i of node id leads to node 512 * id + i + 1, so level-0
  tables are the nodes from FIRSTLOW on and the leaf entry of virtual page v is
  entry v % 512 of node FIRSTLOW + v / 512.
 */
module Sv39 {

  const PGSIZE := 4096
  const FANOUT := 512
  const FIRSTLOW := 513
  const LASTNODE := 513 + 512 * 512
  const MAXPAGE := 0x4000000         // MAXVA / PGSIZE
  const MAXVA := MAXPAGE * PGSIZE

  const PTE_V := 1
  const PTE_R := 2
  const PTE_W := 4
  const PTE_X := 8
  const PTE_U := 16

  /** A 4096-byte page, seen as 512 words. */
  type Page = p: seq<nat> | |p| == FANOUT witness seq(FANOUT, _ => 0)

  function ZeroPage(): (p: Page)
    ensures forall i :: 0 <= i < FANOUT ==> p[i] == 0
  {
    seq(FANOUT, _ => 0)
  }

  // ----- addresses and entries -----

  /** The virtual page number. */
  function Vpn(va: nat): nat {
    va / PGSIZE
  }

  /** PX(level, va). */
  function Px(level: nat, va: nat): (i: nat)
    requires level <= 2
    ensures i < FANOUT
  {
    if level == 0 then Vpn(va) % FANOUT
    else if level == 1 then Vpn(va) / FANOUT % FANOUT
    else Vpn(va) / FANOUT / FANOUT % FANOUT
  }

  /** The three indices name the page, and below MAXVA no two pages share them. */
  lemma PxInjective(va: nat, vb: nat)
    requires va < MAXVA && vb < MAXVA
    requires Px(0, va) == Px(0, vb) && Px(1, va) == Px(1, vb) && Px(2, va) == Px(2, vb)
    ensures Vpn(va) == Vpn(vb)
  {
    var a, b := Vpn(va), Vpn(vb);
    var a1, b1 := a / FANOUT, b / FANOUT;
    assert a1 / FANOUT < FANOUT && b1 / FANOUT < FANOUT;
    assert a1 == a1 / FANOUT * FANOUT + a1 % FANOUT && b1 == b1 / FANOUT * FANOUT + b1 % FANOUT;
    assert a == a1 * FANOUT + a % FANOUT && b == b1 * FANOUT + b % FANOUT;
  }

  /** PA2PTE(pa) | flags, for page-aligned pa and flags in the low ten bits. */
  function Pack(pa: nat, flags: nat): nat {
    pa / PGSIZE * 1024 + flags
  }

  function Pte2Pa(pte: nat): nat {
    pte / 1024 * PGSIZE
  }

  function PteFlags(pte: nat): nat {
    pte % 1024
  }

  /** Packing loses nothing. */
  lemma PackRoundTrip(pa: nat, flags: nat)
    requires pa % PGSIZE == 0 && flags < 1024
    ensures Pte2Pa(Pack(pa, flags)) == pa && PteFlags(Pack(pa, flags)) == flags
  {
  }

  /** The flag bits of a packed entry are those of the flags. */
  lemma PackBits(pa: nat, flags: nat)
    ensures Valid(Pack(pa, flags)) <==> Valid(flags)
    ensures Rwx(Pack(pa, flags)) <==> Rwx(flags)
  {
    var n := pa / PGSIZE;
    assert Pack(pa, flags) == 2 * (n * 512) + flags;
    assert Pack(pa, flags) / 2 == 8 * (n * 64) + flags / 2;
  }

  /** perm | PTE_V. */
  function WithV(perm: nat): nat {
    if perm % 2 == 1 then perm else perm + 1
  }

  predicate Valid(pte: nat) {
    pte % 2 == 1
  }

  /** (pte & (PTE_R | PTE_W | PTE_X)) is not 0. */
  predicate Rwx(pte: nat) {
    pte / 2 % 8 != 0
  }

  // ----- the tree -----

  function Child(id: nat, i: nat): nat {
    FANOUT * id + i + 1
  }

  function Parent(id: nat): nat
    requires id > 0
  {
    (id - 1) / FANOUT
  }

  lemma ParentOfChild(id: nat, i: nat)
    requires i < FANOUT
    ensures Parent(Child(id, i)) == id && (Child(id, i) - 1) % FANOUT == i
  {
  }

  /** The node whose table holds the leaf entry of page v. */
  function LowNode(v: nat): nat {
    FIRSTLOW + v / FANOUT
  }

  type Pages = map<nat, Page>
  type Tables = map<nat, nat>

  /** What an interior entry holds: the child's table, or nothing. */
  function Entry(tables: Tables, id: nat): nat {
    if id in tables then Pack(tables[id], PTE_V) else 0
  }

  predicate LeafOk(pte: nat) {
    pte == 0 || (Valid(pte) && Rwx(pte))
  }

  ghost predicate NodeOk(pages: Pages, tables: Tables, id: nat)
    requires id in tables
  {
    && id < LASTNODE && tables[id] % PGSIZE == 0 && tables[id] in pages
    && (id > 0 ==> Parent(id) in tables)
    && (id < FIRSTLOW ==> forall i :: 0 <= i < FANOUT ==> pages[tables[id]][i] == Entry(tables, Child(id, i)))
    && (id >= FIRSTLOW ==> forall i :: 0 <= i < FANOUT ==> LeafOk(pages[tables[id]][i]))
  }

  /** `tables` gives the page of every table reachable from the root, each its own. */
  ghost predicate TreeOk(pages: Pages, tables: Tables) {
    && 0 in tables
    && (forall id :: id in tables ==> NodeOk(pages, tables, id))
    && (forall a, b :: a in tables && b in tables && tables[a] == tables[b] ==> a == b)
  }

  /** The leaf entry of page v; 0 if it is not mapped. */
  ghost function Leaf(pages: Pages, tables: Tables, v: nat): nat
    requires TreeOk(pages, tables)
  {
    if LowNode(v) in tables then
      assert NodeOk(pages, tables, LowNode(v));
      pages[tables[LowNode(v)]][v % FANOUT]
    else 0
  }

  ghost predicate SameLeaves(pages: Pages, tables: Tables, pages': Pages, tables': Tables)
    requires TreeOk(pages, tables) && TreeOk(pages', tables')
  {
    forall v :: Leaf(pages', tables', v) == Leaf(pages, tables, v)
  }

  /** No table of the tree uses the page `frame`. */
  ghost predicate Outside(tables: Tables, frame: nat) {
    forall id :: id in tables ==> tables[id] != frame
  }

  /** Writing pages that are not tables of the tree does not matter to it. */
  lemma TreeFrame(pages: Pages, tables: Tables, pages': Pages)
    requires TreeOk(pages, tables)
    requires forall id :: id in tables ==> tables[id] in pages' && pages'[tables[id]] == pages[tables[id]]
    ensures TreeOk(pages', tables) && SameLeaves(pages, tables, pages', tables)
  {
    forall id | id in tables
      ensures NodeOk(pages', tables, id)
    {
      assert NodeOk(pages, tables, id);
    }
  }

  ghost function Linked(pages: Pages, tables: Tables, id: nat, i: nat, frame: nat): Pages
    requires id in tables && tables[id] in pages && i < FANOUT
  {
    pages[frame := ZeroPage()][tables[id] := pages[tables[id]][i := Pack(frame, PTE_V)]]
  }

  lemma LinkedNode(pages: Pages, tables: Tables, id: nat, i: nat, frame: nat, a: nat)
    requires TreeOk(pages, tables) && id in tables && id < FIRSTLOW && i < FANOUT
    requires Child(id, i) !in tables && Outside(tables, frame) && frame % PGSIZE == 0
    requires a in tables || a == Child(id, i)
    ensures tables[id] in pages
    ensures NodeOk(Linked(pages, tables, id, i, frame), tables[Child(id, i) := frame], a)
  {
    var c := Child(id, i);
    var tables' := tables[c := frame];
    assert NodeOk(pages, tables, id);
    var pages' := Linked(pages, tables, id, i, frame);
    ParentOfChild(id, i);
    if a == c {
      forall j | 0 <= j < FANOUT
        ensures Child(c, j) !in tables
      {
        ParentOfChild(c, j);
      }
    } else {
      assert NodeOk(pages, tables, a);
      if a < FIRSTLOW {
        forall j | 0 <= j < FANOUT
          ensures pages'[tables[a]][j] == Entry(tables', Child(a, j))
        {
          ParentOfChild(a, j);
        }
      }
    }
  }

  /** walk with alloc: hanging a zeroed table into an empty interior entry maps nothing new. */
  lemma LinkKeepsTree(pages: Pages, tables: Tables, id: nat, i: nat, frame: nat)
    requires TreeOk(pages, tables) && id in tables && id < FIRSTLOW && i < FANOUT
    requires Child(id, i) !in tables && Outside(tables, frame) && frame % PGSIZE == 0
    ensures tables[id] in pages
    ensures TreeOk(Linked(pages, tables, id, i, frame), tables[Child(id, i) := frame])
    ensures SameLeaves(pages, tables, Linked(pages, tables, id, i, frame), tables[Child(id, i) := frame])
  {
    hide NodeOk;
    var tables' := tables[Child(id, i) := frame];
    LinkedNode(pages, tables, id, i, frame, id);
    var pages' := Linked(pages, tables, id, i, frame);
    forall a | a in tables'
      ensures NodeOk(pages', tables', a)
    {
      LinkedNode(pages, tables, id, i, frame, a);
    }
    forall v: nat
      ensures Leaf(pages', tables', v) == Leaf(pages, tables, v)
    {
    }
  }

  /** Storing a leaf entry changes the mapping of one page and of no other. */
  lemma SetLeaf(pages: Pages, tables: Tables, v: nat, pte: nat)
    requires TreeOk(pages, tables) && LowNode(v) in tables && LeafOk(pte)
    ensures tables[LowNode(v)] in pages
    ensures
      var t := tables[LowNode(v)];
      var pages' := pages[t := pages[t][v % FANOUT := pte]];
      && TreeOk(pages', tables)
      && forall w :: Leaf(pages', tables, w) == if w == v then pte else Leaf(pages, tables, w)
  {
    var low := LowNode(v);
    assert NodeOk(pages, tables, low);
    var t := tables[low];
    var pages' := pages[t := pages[t][v % FANOUT := pte]];
    forall id | id in tables
      ensures NodeOk(pages', tables, id)
    {
      assert NodeOk(pages, tables, id);
    }
    forall w: nat
      ensures Leaf(pages', tables, w) == if w == v then pte else Leaf(pages, tables, w)
    {
      assert LowNode(w) == low && w % FANOUT == v % FANOUT ==> w == v;
    }
  }

  /** Following an interior entry leads to the child's table, if it has one. */
  lemma EntryLeads(pages: Pages, tables: Tables, id: nat, i: nat)
    requires TreeOk(pages, tables) && id in tables && id < FIRSTLOW && i < FANOUT
    ensures tables[id] in pages
    ensures Valid(pages[tables[id]][i]) <==> Child(id, i) in tables
    ensures Child(id, i) in tables ==> Pte2Pa(pages[tables[id]][i]) == tables[Child(id, i)]
  {
    assert NodeOk(pages, tables, id);
    var c := Child(id, i);
    assert c in tables ==> NodeOk(pages, tables, c);
    hide TreeOk, Pack, Pte2Pa;
    if c in tables {
      PackRoundTrip(tables[c], PTE_V);
      PackBits(tables[c], PTE_V);
    }
  }

  lemma LowNeedsMid(pages: Pages, tables: Tables, v: nat)
    requires TreeOk(pages, tables) && LowNode(v) in tables
    ensures 1 + v / FANOUT / FANOUT in tables
  {
    assert NodeOk(pages, tables, LowNode(v));
    assert Parent(LowNode(v)) == 1 + v / FANOUT / FANOUT;
  }

  /** Distinct page addresses have distinct page numbers. */
  lemma PageNumbers(a: nat, b: nat)
    requires a % PGSIZE == 0 && b % PGSIZE == 0 && a != b
    ensures a / PGSIZE != b / PGSIZE
  {
  }
}
