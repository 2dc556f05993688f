/**
  What the hardware makes of a page table: address translation as section 4.4 of
  the RISC-V privileged specification describes it for Sv39, written with its bit
  positions, and the proof that for the trees the kernel builds it finds exactly
  the leaf entries.
 */
module Mmu {
  import opened Sv39

  /** A page fault, or a physical address and the permission bits of its page. */
  datatype Translation = Fault | Access(pa: nat, r: bool, w: bool, x: bool, u: bool)

  /** Bit k of x, for the bits this is about. */
  predicate BitAt(x: nat, k: nat)
    requires k <= 4
  {
    var shifted := if k == 0 then x else if k == 1 then x / 2 else if k == 2 then x / 2 / 2 else if k == 3 then x / 2 / 2 / 2 else x / 2 / 2 / 2 / 2;
    shifted % 2 == 1
  }

  /** How much of the address space an entry of a level spans: the index of level 0 starts at bit 12, each further one nine bits up. */
  function Span(level: nat): (s: nat)
    requires level <= 2
    ensures s > 0
  {
    if level == 0 then 0x1000 else if level == 1 then 0x20_0000 else 0x4000_0000
  }

  /** The walk from the table at physical address `table` on. Bit 0 is V, then R, W, X and U; the page number starts at bit 10. */
  function TranslateFrom(pages: Pages, table: nat, level: nat, va: nat): Translation
    requires level <= 2
    decreases level
  {
    if table !in pages then Fault
    else
      var pte := pages[table][va / Span(level) % 512];
      var base := pte / 1024 * 4096;
      if !BitAt(pte, 0) || (!BitAt(pte, 1) && BitAt(pte, 2)) then Fault
      else if BitAt(pte, 1) || BitAt(pte, 3) then
        if base % Span(level) != 0 then Fault   // misaligned superpage
        else Access(base + va % Span(level), BitAt(pte, 1), BitAt(pte, 2), BitAt(pte, 3), BitAt(pte, 4))
      else if level == 0 then Fault
      else TranslateFrom(pages, base, level - 1, va)
  }

  /** Bits 63 to 39 of a virtual address must equal bit 38. */
  predicate Canonical(va: nat) {
    va < 0x40_0000_0000 || 0xFFFF_FFC0_0000_0000 <= va <= 0xFFFF_FFFF_FFFF_FFFF
  }

  function Translate(pages: Pages, root: nat, va: nat): Translation {
    if Canonical(va) then TranslateFrom(pages, root, 2, va) else Fault
  }

  /** What a page number and flags grant for an address within the page. */
  function Granted(page: nat, flags: nat, va: nat): Translation {
    if BitAt(flags, 2) && !BitAt(flags, 1) then Fault   // write without read is reserved
    else Access(page * 4096 + va % 4096, BitAt(flags, 1), BitAt(flags, 2), BitAt(flags, 3), BitAt(flags, 4))
  }

  // ----- the kernel's trees -----

  lemma LowBits(x: nat, n: nat, flags: nat)
    requires x == n * 1024 + flags
    ensures forall k :: 0 <= k <= 4 ==> (BitAt(x, k) <==> BitAt(flags, k))
  {
    var f1 := flags / 2;
    var f2 := f1 / 2;
    var f3 := f2 / 2;
    Halved(512 * n, flags);
    Halved(256 * n, f1);
    Halved(128 * n, f2);
    Halved(64 * n, f3);
    Halved(32 * n, f3 / 2);
  }

  lemma Halved(a: nat, b: nat)
    ensures (2 * a + b) / 2 == a + b / 2 && (2 * a + b) % 2 == b % 2
  {
  }

  /** The entry the hardware reads in an interior table leads it to the child, or stops it. */
  lemma InteriorStep(pages: Pages, tables: Tables, id: nat, i: nat, level: nat, va: nat)
    requires TreeOk(pages, tables) && id in tables && id < FIRSTLOW && 1 <= level <= 2 && i == va / Span(level) % 512
    ensures TranslateFrom(pages, tables[id], level, va) ==
            if Child(id, i) in tables then TranslateFrom(pages, tables[Child(id, i)], level - 1, va) else Fault
  {
    assert NodeOk(pages, tables, id);
    var c := Child(id, i);
    if c in tables {
      assert NodeOk(pages, tables, c);
      EntryBits(tables[c]);
      hide BitAt, Pack;
    }
  }

  lemma EntryBits(table: nat)
    requires table % 4096 == 0
    ensures
      var pte := Pack(table, PTE_V);
      BitAt(pte, 0) && !BitAt(pte, 1) && !BitAt(pte, 2) && !BitAt(pte, 3) && pte / 1024 * 4096 == table
  {
    LowBits(Pack(table, PTE_V), table / 4096, 1);
    PackRoundTrip(table, PTE_V);
  }

  lemma LeafStep(pages: Pages, tables: Tables, id: nat, va: nat)
    requires TreeOk(pages, tables) && id in tables && id >= FIRSTLOW
    ensures tables[id] in pages
    ensures
      var pte := pages[tables[id]][va / 4096 % 512];
      TranslateFrom(pages, tables[id], 0, va) == if pte == 0 then Fault else Granted(pte / 1024, pte, va)
  {
    assert NodeOk(pages, tables, id);
    var pte := pages[tables[id]][va / 4096 % 512];
    assert LeafOk(pte);
    Aligned(pte / 1024);
    if pte != 0 { SomeAccess(pte); }
    hide BitAt;
  }

  lemma Aligned(page: nat)
    ensures page * 4096 % 4096 == 0
  {
  }

  lemma SomeAccess(pte: nat)
    requires Rwx(pte) && Valid(pte)
    ensures BitAt(pte, 0) && (BitAt(pte, 1) || BitAt(pte, 2) || BitAt(pte, 3))
  {
    Octal(pte / 2);
  }

  lemma Octal(y: nat)
    ensures y % 2 == 0 && y / 2 % 2 == 0 && y / 2 / 2 % 2 == 0 ==> y % 8 == 0
  {
    if y % 2 == 0 && y / 2 % 2 == 0 && y / 2 / 2 % 2 == 0 {
      Twice(y);
      Twice(y / 2);
      Twice(y / 2 / 2);
      Eightfold(y, y / 2 / 2 / 2);
    }
  }

  lemma Twice(y: nat)
    requires y % 2 == 0
    ensures y == y / 2 + y / 2
  {
  }

  lemma Eightfold(y: nat, c: nat)
    requires y == 8 * c
    ensures y % 8 == 0
  {
  }

  lemma Indices(va: nat)
    requires va < 0x40_0000_0000
    ensures
      var v := va / 4096;
      && Child(0, va / Span(2) % 512) == 1 + v / 512 / 512 < FIRSTLOW
      && Child(1 + v / 512 / 512, va / Span(1) % 512) == LowNode(v)
  {
    var v := va / 4096;
    assert va / 0x20_0000 == v / 512 && va / 0x4000_0000 == v / 512 / 512;
    assert v / 512 == 512 * (v / 512 / 512) + v / 512 % 512;
  }

  /** For every address below MAXVA, the hardware finds the leaf entry of its page, and faults where there is none. */
  lemma TranslatesLeaf(pages: Pages, tables: Tables, va: nat)
    requires TreeOk(pages, tables) && va < 0x40_0000_0000
    ensures
      var pte := Leaf(pages, tables, va / 4096);
      Translate(pages, tables[0], va) == if pte == 0 then Fault else Granted(pte / 1024, pte, va)
  {
    Indices(va);
    var v := va / 4096;
    var mid, low := 1 + v / 512 / 512, LowNode(v);
    if low in tables { LowNeedsMid(pages, tables, v); }
    hide TreeOk, TranslateFrom, Granted, Span, LowNode;
    InteriorStep(pages, tables, 0, va / Span(2) % 512, 2, va);
    if mid in tables {
      InteriorStep(pages, tables, mid, va / Span(1) % 512, 1, va);
      if low in tables { LeafStep(pages, tables, low, va); }
    }
  }

  /** A leaf packed from a page address and a permission grants that permission on that page. */
  lemma PackGrants(pa: nat, perm: nat, va: nat)
    requires perm < 1024 && Rwx(perm)
    ensures
      var pte := Pack(pa, WithV(perm));
      pte != 0 && Granted(pte / 1024, pte, va) == Granted(pa / 4096, perm, va)
  {
    var pte, f := Pack(pa, WithV(perm)), WithV(perm);
    LowBits(pte, pa / 4096, f);
    assert f / 2 == perm / 2;
    assert pte / 1024 == pa / 4096;
  }
}
