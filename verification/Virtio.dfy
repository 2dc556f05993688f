/**
  The virtio disk driver of virtio_disk.c against a device that fetches the
  offered chains and completes them in any order (split virtqueues, section 2.6
  of Virtio 1.1; block devices, section 5.2). Every method is one atomic step:
  driver code under vdisk_lock up to a sleep, one turn of the interrupt loop, or
  one action of the device.
 */
module Virtio {

  const NUM := 8
  const WRAP := 0x1_0000        // ring indices are 16 bits wide
  const BSIZE := 1024
  const REQSIZE := 16           // sizeof(struct virtio_blk_req)

  const SECTSIZE := 512         // section 5.2: sectors are 512 bytes

  type byte = x: int | 0 <= x < 256

  /** b->data, and a sector of the disk. */
  type Data = d: seq<byte> | |d| == BSIZE witness seq(BSIZE, _ => 0)
  type Sect = d: seq<byte> | |d| == SECTSIZE witness seq(SECTSIZE, _ => 0)

  /** What a descriptor's addr points to: a command header, a buffer's data or a status byte. */
  datatype Addr = Nowhere | Op(i: nat) | Block(buf: nat) | Status(h: nat)

  /** flags are kept as their two bits, VRING_DESC_F_WRITE and VRING_DESC_F_NEXT. */
  datatype Desc = Desc(addr: Addr, len: nat, write: bool, more: bool, next: nat)

  const NODESC := Desc(Nowhere, 0, false, false, 0)

  datatype BlkReq = BlkReq(write: bool, sector: nat)
  datatype Option<T> = None | Some(value: T)
  datatype Info = Info(buf: Option<nat>, status: nat)

  /** Where a request is: offered on the avail ring, taken by the device, on the used ring, or acknowledged. */
  datatype Phase = Offered | Taken | Used | Acked

  /** A request in flight, with the descriptors that follow its head. */
  datatype Request = Request(d1: nat, d2: nat, buf: nat, write: bool, sector: nat, phase: Phase)

  function Triple(h: nat, r: Request): seq<nat> {
    [h, r.d1, r.d2]
  }

  function Count(free: seq<bool>): nat {
    if free == [] then 0 else Count(free[..|free| - 1]) + if free[|free| - 1] then 1 else 0
  }

  lemma {:induction false} CountUpdate(free: seq<bool>, i: nat, v: bool)
    requires i < |free|
    ensures Count(free[i := v]) + (if free[i] then 1 else 0) == Count(free) + if v then 1 else 0
  {
    var n := |free| - 1;
    if i < n {
      assert free[i := v][..n] == free[..n][i := v];
      CountUpdate(free[..n], i, v);
    } else {
      assert free[i := v][..n] == free[..n];
    }
  }

  lemma {:induction false} CountNone(free: seq<bool>)
    requires forall i :: 0 <= i < |free| ==> !free[i]
    ensures Count(free) == 0
  {
    if free != [] { CountNone(free[..|free| - 1]); }
  }

  lemma {:induction false} CountAll(free: seq<bool>)
    requires forall i :: 0 <= i < |free| ==> free[i]
    ensures Count(free) == |free|
  {
    if free != [] { CountAll(free[..|free| - 1]); }
  }

  // ----- what holds between steps -----

  /** The driver's per-descriptor tables. */
  datatype Table = Table(free: seq<bool>, desc: seq<Desc>, ops: seq<BlkReq>, info: seq<Info>) {
    ghost predicate Sized() { |free| == |desc| == |ops| == |info| == NUM }
  }

  ghost predicate ChainOk(t: Table, h: nat, r: Request)
    requires t.Sized()
  {
    && h < NUM && r.d1 < NUM && r.d2 < NUM && h != r.d1 && h != r.d2 && r.d1 != r.d2
    && !t.free[h] && !t.free[r.d1] && !t.free[r.d2]
    && t.desc[h] == Desc(Op(h), REQSIZE, false, true, r.d1)
    && t.desc[r.d1] == Desc(Block(r.buf), BSIZE, !r.write, true, r.d2)
    && t.desc[r.d2] == Desc(Status(h), 1, true, false, 0)
    && t.ops[h] == BlkReq(r.write, r.sector)
    && t.info[h].buf == Some(r.buf)
  }

  ghost predicate Tables(t: Table, flight: map<nat, Request>) {
    && t.Sized()
    && (forall h :: h in flight ==> ChainOk(t, h, flight[h]))
    && (forall i :: 0 <= i < NUM && t.free[i] ==> t.desc[i] == NODESC)
    && Count(t.free) + 3 * |flight| == NUM
  }

  ghost predicate Distinct(h: nat, r: Request, g: nat, s: Request) {
    r.buf != s.buf && forall x :: x in Triple(h, r) ==> x !in Triple(g, s)
  }

  ghost predicate Separate(flight: map<nat, Request>) {
    forall h, g :: h in flight && g in flight && h != g ==> Distinct(h, flight[h], g, flight[g])
  }

  /** b->disk is 1 from submission until the interrupt handler has seen the completion. */
  ghost predicate Marked(busy: set<nat>, flight: map<nat, Request>) {
    && (forall h :: h in flight ==> (flight[h].buf in busy <==> flight[h].phase != Acked))
    && (forall b :: b in busy ==> exists h :: h in flight && flight[h].buf == b)
  }

  /** The ring entries from index `from` on are q, the heads in phase p, each once. */
  ghost predicate Queue(ring: seq<nat>, from: nat, to: nat, q: seq<nat>, flight: map<nat, Request>, p: Phase) {
    && |ring| == NUM && from < WRAP && to == (from + |q|) % WRAP
    && (forall i :: 0 <= i < |q| ==> ring[(from + i) % NUM] == q[i])
    && (forall i, j :: 0 <= i < j < |q| ==> q[i] != q[j])
    && (forall h :: h in q <==> h in flight && flight[h].phase == p)
  }

  // ----- rings -----

  lemma WrapMod(x: nat)
    ensures (x % WRAP) % NUM == x % NUM
  {
    assert x % WRAP == x - (x / WRAP) * WRAP;
    assert x % WRAP == x - (x / WRAP) * (WRAP / NUM) * NUM;
    var k := (x / WRAP) * (WRAP / NUM);
    assert x == x % WRAP + k * NUM;
    AddMultiple(x % WRAP, k);
  }

  lemma {:induction false} AddMultiple(x: nat, k: nat)
    ensures (x + k * NUM) % NUM == x % NUM
  {
    if k > 0 {
      AddMultiple(x, k - 1);
      assert x + k * NUM == x + (k - 1) * NUM + NUM;
    }
  }

  lemma {:induction false} Fewer(q: seq<nat>, s: set<nat>)
    requires forall i, j :: 0 <= i < j < |q| ==> q[i] != q[j]
    requires forall h :: h in q ==> h in s
    ensures |q| <= |s|
  {
    if q != [] {
      Fewer(q[1..], s - {q[0]});
    }
  }

  /** At most two requests are in flight, so neither ring overruns. */
  lemma QueueShort(t: Table, flight: map<nat, Request>, ring: seq<nat>, from: nat, to: nat, q: seq<nat>, p: Phase)
    requires Tables(t, flight) && Queue(ring, from, to, q, flight, p)
    ensures |q| <= |flight| <= 2
    ensures from == to <==> q == []
    ensures q != [] ==> q[0] == ring[from % NUM] && q[0] in flight && flight[q[0]].phase == p
  {
    assert |flight.Keys| == |flight|;
    Fewer(q, flight.Keys);
    assert q != [] ==> ring[(from + 0) % NUM] == q[0];
  }

  lemma NextSlot(from: nat, i: nat)
    ensures ((from + 1) % WRAP + i) % WRAP == (from + (i + 1)) % WRAP
    ensures ((from + 1) % WRAP + i) % NUM == (from + (i + 1)) % NUM
  {
    WrapTwice(from + 1, i);
    WrapMod((from + 1) % WRAP + i);
    WrapMod(from + (i + 1));
  }

  lemma WrapTwice(x: nat, i: nat)
    ensures (x % WRAP + i) % WRAP == (x + i) % WRAP
  {
  }

  /** The consumer takes the first entry; the head moves on to another phase. */
  lemma QueuePop(ring: seq<nat>, from: nat, to: nat, q: seq<nat>, flight: map<nat, Request>, p: Phase, r: Request)
    requires Queue(ring, from, to, q, flight, p) && q != [] && r.phase != p
    ensures Queue(ring, (from + 1) % WRAP, to, q[1..], flight[q[0] := r], p)
  {
    var from', q' := (from + 1) % WRAP, q[1..];
    forall i | 0 <= i < |q'|
      ensures ring[(from' + i) % NUM] == q'[i]
    {
      NextSlot(from, i);
      assert ring[(from + (i + 1)) % NUM] == q[i + 1];
    }
    NextSlot(from, |q'|);
    assert forall h :: h in q' <==> h in q && h != q[0];
  }

  /** The producer adds head h, which was in another phase or new, at the end. */
  lemma QueuePush(ring: seq<nat>, from: nat, to: nat, q: seq<nat>, flight: map<nat, Request>, p: Phase, h: nat, r: Request)
    requires Queue(ring, from, to, q, flight, p) && |q| < NUM && r.phase == p
    requires h in flight ==> flight[h].phase != p
    ensures Queue(ring[to % NUM := h], from, (to + 1) % WRAP, q + [h], flight[h := r], p)
  {
    var q', ring' := q + [h], ring[to % NUM := h];
    WrapMod(from + |q|);
    forall i | 0 <= i < |q'|
      ensures ring'[(from + i) % NUM] == q'[i]
    {
      if i < |q| { SlotsDiffer(from, i, |q|); }
    }
    assert (to + 1) % WRAP == (from + |q'|) % WRAP;
    assert h !in q;
  }

  lemma SlotsDiffer(from: nat, i: nat, j: nat)
    requires i < j < i + NUM
    ensures (from + i) % NUM != (from + j) % NUM
  {
  }

  /** A step outside phase p leaves its queue alone. */
  lemma QueueKept(ring: seq<nat>, from: nat, to: nat, q: seq<nat>, flight: map<nat, Request>, p: Phase, h: nat, r: Request)
    requires Queue(ring, from, to, q, flight, p) && r.phase != p
    requires h in flight ==> flight[h].phase != p
    ensures Queue(ring, from, to, q, flight[h := r], p)
  {
  }

  lemma QueueEmpty(ring: seq<nat>, from: nat, to: nat, flight: map<nat, Request>, p: Phase)
    requires Queue(ring, from, to, [], flight, p)
    ensures forall h :: h in flight ==> flight[h].phase != p
  {
  }

  /** A finished request leaves; it was in no queue. */
  lemma QueueLess(ring: seq<nat>, from: nat, to: nat, q: seq<nat>, flight: map<nat, Request>, p: Phase, h: nat)
    requires Queue(ring, from, to, q, flight, p)
    requires h in flight ==> flight[h].phase != p
    ensures Queue(ring, from, to, q, flight - {h}, p)
  {
  }

  // ----- tables -----

  /** What free_desc leaves of the tables when called for each descriptor of the chain. */
  ghost predicate Returned(t: Table, t': Table, chain: seq<nat>)
    requires t.Sized() && t'.Sized()
  {
    forall i :: 0 <= i < NUM ==>
      t'.free[i] == (t.free[i] || i in chain) && t'.desc[i] == if i in chain then NODESC else t.desc[i]
  }

  ghost predicate SameAt(t: Table, t': Table, x: nat)
    requires t.Sized() && t'.Sized() && x < NUM
  {
    t'.free[x] == t.free[x] && t'.desc[x] == t.desc[x] && t'.ops[x] == t.ops[x] && t'.info[x] == t.info[x]
  }

  lemma ChainKept(t: Table, t': Table, h: nat, r: Request)
    requires t.Sized() && t'.Sized() && ChainOk(t, h, r)
    requires forall x :: x in Triple(h, r) ==> SameAt(t, t', x)
    ensures ChainOk(t', h, r)
  {
    assert h in Triple(h, r) && r.d1 in Triple(h, r) && r.d2 in Triple(h, r);
  }

  lemma ChainTaken(t: Table, h: nat, r: Request)
    requires t.Sized() && ChainOk(t, h, r)
    ensures h < NUM && r.d1 < NUM && r.d2 < NUM && h != r.d1 && h != r.d2 && r.d1 != r.d2
    ensures forall x :: x in Triple(h, r) ==> x < NUM && !t.free[x]
  {
  }

  lemma CountThree(free: seq<bool>, a: nat, b: nat, c: nat, v: bool)
    requires a < |free| && b < |free| && c < |free| && a != b && a != c && b != c
    requires free[a] == free[b] == free[c] == !v
    ensures Count(free[a := v][b := v][c := v]) == Count(free) + if v then 3 else -3
  {
    hide Count;
    CountUpdate(free, a, v);
    CountUpdate(free[a := v], b, v);
    CountUpdate(free[a := v][b := v], c, v);
  }

  lemma SizeGrows(flight: map<nat, Request>, h: nat, r: Request)
    ensures |flight[h := r]| == if h in flight then |flight| else |flight| + 1
  {
    assert flight[h := r].Keys == flight.Keys + {h};
    assert |flight[h := r]| == |flight.Keys + {h}|;
  }

  lemma SizeShrinks(flight: map<nat, Request>, h: nat)
    requires h in flight
    ensures |flight - {h}| == |flight| - 1
  {
    assert (flight - {h}).Keys == flight.Keys - {h};
    assert |flight - {h}| == |flight.Keys - {h}|;
  }

  /** Three free descriptors become a request's chain. */
  lemma ChainAdded(t: Table, t': Table, flight: map<nat, Request>, h: nat, r: Request)
    requires Tables(t, flight) && Separate(flight)
    requires t'.Sized() && ChainOk(t', h, r)
    requires t.free[h] && t.free[r.d1] && t.free[r.d2] && t'.free == t.free[h := false][r.d1 := false][r.d2 := false]
    requires forall x :: 0 <= x < NUM && x !in Triple(h, r) ==> SameAt(t, t', x)
    requires forall g :: g in flight ==> flight[g].buf != r.buf
    ensures h !in flight && Tables(t', flight[h := r]) && Separate(flight[h := r])
  {
    hide Count, SameAt, ChainOk, Distinct;
    ChainTaken(t', h, r);
    CountThree(t.free, h, r.d1, r.d2, false);
    BlankKept(t, t', Triple(h, r));
    forall g | g in flight
      ensures g != h && ChainOk(t', g, flight[g])
      ensures Distinct(h, r, g, flight[g]) && Distinct(g, flight[g], h, r)
    {
      NewApart(t, t', h, r, g, flight[g]);
    }
    SizeGrows(flight, h, r);
  }

  lemma NewApart(t: Table, t': Table, h: nat, r: Request, g: nat, s: Request)
    requires t.Sized() && t'.Sized() && ChainOk(t, g, s) && h < NUM && r.d1 < NUM && r.d2 < NUM
    requires t.free[h] && t.free[r.d1] && t.free[r.d2] && r.buf != s.buf
    requires forall x :: 0 <= x < NUM && x !in Triple(h, r) ==> SameAt(t, t', x)
    ensures g != h && ChainOk(t', g, s) && Distinct(h, r, g, s) && Distinct(g, s, h, r)
  {
    hide SameAt;
    ChainTaken(t, g, s);
    assert g in Triple(g, s);
    ChainKept(t, t', g, s);
  }

  lemma BlankKept(t: Table, t': Table, chain: seq<nat>)
    requires t.Sized() && t'.Sized()
    requires forall i :: 0 <= i < NUM && t.free[i] ==> t.desc[i] == NODESC
    requires forall x :: 0 <= x < NUM && x !in chain ==> SameAt(t, t', x)
    requires forall x :: x in chain && x < NUM ==> !t'.free[x]
    ensures forall i :: 0 <= i < NUM && t'.free[i] ==> t'.desc[i] == NODESC
  {
    forall i | 0 <= i < NUM && t'.free[i]
      ensures t'.desc[i] == NODESC
    {
      assert i !in chain;
      assert SameAt(t, t', i);
    }
  }

  /** A request's chain is returned to the free descriptors. */
  lemma ChainGone(t: Table, t': Table, flight: map<nat, Request>, h: nat)
    requires Tables(t, flight) && Separate(flight) && h in flight && h < NUM
    requires t'.Sized() && t'.ops == t.ops && t'.info == t.info[h := t'.info[h]]
    requires Returned(t, t', Triple(h, flight[h]))
    ensures Tables(t', flight - {h}) && Separate(flight - {h})
  {
    hide Count, ChainOk, Distinct;
    var r := flight[h];
    ThreeReturned(t, t', h, r);
    forall g | g in flight && g != h
      ensures ChainOk(t', g, flight[g])
    {
      OtherKept(t, t', h, r, g, flight[g]);
    }
    SizeShrinks(flight, h);
  }

  lemma ThreeReturned(t: Table, t': Table, h: nat, r: Request)
    requires t.Sized() && t'.Sized() && ChainOk(t, h, r) && Returned(t, t', Triple(h, r))
    ensures Count(t'.free) == Count(t.free) + 3
  {
    hide Count;
    assert t'.free == t.free[h := true][r.d1 := true][r.d2 := true];
    CountThree(t.free, h, r.d1, r.d2, true);
  }

  lemma OtherKept(t: Table, t': Table, h: nat, r: Request, g: nat, s: Request)
    requires t.Sized() && t'.Sized() && h < NUM && t'.ops == t.ops && t'.info == t.info[h := t'.info[h]]
    requires Returned(t, t', Triple(h, r)) && ChainOk(t, g, s) && Distinct(h, r, g, s) && Distinct(g, s, h, r)
    ensures ChainOk(t', g, s)
  {
    ChainTaken(t, g, s);
    assert h in Triple(h, r);
    hide ChainOk;
    ChainKept(t, t', g, s);
  }

  /** A request changes phase, its status byte possibly with it. */
  lemma PhaseChanged(t: Table, t': Table, flight: map<nat, Request>, h: nat, p: Phase)
    requires Tables(t, flight) && Separate(flight) && h in flight && h < NUM
    requires t'.Sized() && t' == t.(info := t.info[h := t.info[h].(status := t'.info[h].status)])
    ensures Tables(t', flight[h := flight[h].(phase := p)]) && Separate(flight[h := flight[h].(phase := p)])
  {
    hide Count, ChainOk, Distinct;
    var flight' := flight[h := flight[h].(phase := p)];
    forall g | g in flight
      ensures ChainOk(t', g, flight'[g])
    {
      PhaseKeeps(t, t', h, p, g, flight[g]);
    }
    forall g, k | g in flight && k in flight && g != k
      ensures Distinct(g, flight'[g], k, flight'[k])
    {
      assert Distinct(g, flight[g], k, flight[k]);
      SamePlace(g, flight[g], k, flight[k], flight'[g].phase, flight'[k].phase);
    }
    SizeGrows(flight, h, flight'[h]);
  }

  lemma PhaseKeeps(t: Table, t': Table, h: nat, p: Phase, g: nat, s: Request)
    requires t.Sized() && h < NUM && ChainOk(t, g, s)
    requires t'.Sized() && t' == t.(info := t.info[h := t.info[h].(status := t'.info[h].status)])
    ensures ChainOk(t', g, if g == h then s.(phase := p) else s)
  {
  }

  lemma SamePlace(h: nat, r: Request, g: nat, s: Request, p: Phase, q: Phase)
    requires Distinct(h, r, g, s)
    ensures Distinct(h, r.(phase := p), g, s.(phase := q))
  {
    assert Triple(h, r.(phase := p)) == Triple(h, r) && Triple(g, s.(phase := q)) == Triple(g, s);
  }

  // ----- marks and views -----

  /** The sector virtio_disk_rw asks for, computed in 32 bits. */
  function Sector(blockno: nat): nat {
    blockno * (BSIZE / 512) % 0x1_0000_0000
  }

  /** It is where the block starts, for block numbers below 2^31 and no others. */
  lemma SectorExact(blockno: nat)
    requires blockno < 0x1_0000_0000
    ensures Sector(blockno) * 512 == blockno * 1024 <==> blockno < 0x8000_0000
  {
  }

  /** The sector is where the block starts, as far as 32 bits reach. */
  ghost predicate StartsBlock(sector: nat, blockno: nat) {
    blockno < 0x8000_0000 ==> sector * 512 == blockno * 1024
  }

  lemma SectorStarts(blockno: nat)
    ensures StartsBlock(Sector(blockno), blockno)
  {
    if blockno < 0x8000_0000 { SectorExact(blockno); }
  }

  ghost function AckAll(flight: map<nat, Request>): map<nat, Request> {
    map h | h in flight :: if flight[h].phase == Used then flight[h].(phase := Acked) else flight[h]
  }

  /** Some of the used requests have been acknowledged, and nothing else has changed. */
  ghost predicate Acknowledging(was: map<nat, Request>, now: map<nat, Request>) {
    && now.Keys == was.Keys
    && forall h :: h in now ==> now[h] == was[h] || (was[h].phase == Used && now[h] == was[h].(phase := Acked))
  }

  lemma AcknowledgesMore(was: map<nat, Request>, mid: map<nat, Request>, h: nat)
    requires Acknowledging(was, mid) && h in mid && mid[h].phase == Used
    ensures Acknowledging(was, mid[h := mid[h].(phase := Acked)])
  {
  }

  lemma TablesFacts(t: Table, flight: map<nat, Request>)
    requires Tables(t, flight)
    ensures t.Sized() && Count(t.free) + 3 * |flight| == NUM
    ensures forall i :: 0 <= i < NUM && t.free[i] ==> t.desc[i] == NODESC
    ensures forall h :: h in flight ==> h < NUM && ChainOk(t, h, flight[h])
  {
  }

  /** The links free_chain follows. */
  ghost predicate Chained(t: Table, h: nat, r: Request)
    requires t.Sized()
  {
    && h < NUM && r.d1 < NUM && r.d2 < NUM && h != r.d1 && h != r.d2 && r.d1 != r.d2
    && !t.free[h] && !t.free[r.d1] && !t.free[r.d2]
    && t.desc[h].more && t.desc[h].next == r.d1 && t.desc[r.d1].more && t.desc[r.d1].next == r.d2 && !t.desc[r.d2].more
  }

  /** What a reader of the tables finds by following the links from h. */
  lemma DeviceSees(t: Table, h: nat, r: Request)
    requires t.Sized() && ChainOk(t, h, r)
    ensures h < NUM && t.desc[h].addr == Op(h) && t.desc[h].len == 16 && !t.desc[h].write && t.ops[h] == BlkReq(r.write, r.sector) && t.desc[h].next < NUM
    ensures
      var d1 := t.desc[t.desc[h].next];
      && d1.addr == Block(r.buf) && d1.write == !r.write && d1.len == 1024 && d1.next < NUM
      && t.desc[d1.next].addr == Status(h) && t.desc[d1.next].write && t.desc[d1.next].len == 1
    ensures Chained(t, h, r)
    ensures t.info[h].buf == Some(r.buf)
  {
  }

  lemma QueueSized(ring: seq<nat>, from: nat, to: nat, q: seq<nat>, flight: map<nat, Request>, p: Phase)
    requires Queue(ring, from, to, q, flight, p)
    ensures |ring| == NUM
  {
  }

  lemma StartedTables(t: Table, t1: Table, t': Table, flight: map<nat, Request>, h: nat, r: Request)
    requires Tables(t, flight) && Separate(flight) && t'.Sized() && ChainOk(t', h, r)
    requires h < NUM && r.d1 < NUM && r.d2 < NUM && h != r.d1 && h != r.d2 && r.d1 != r.d2
    requires t.free[h] && t.free[r.d1] && t.free[r.d2]
    requires t1 == t.(free := t.free[h := false][r.d1 := false][r.d2 := false]) && t'.free == t1.free
    requires forall x :: 0 <= x < NUM && x !in Triple(h, r) ==> SameAt(t1, t', x)
    requires forall g :: g in flight ==> flight[g].buf != r.buf
    ensures h !in flight && Tables(t', flight[h := r]) && Separate(flight[h := r])
  {
    hide ChainOk, Count, Distinct;
    forall x | 0 <= x < NUM && x !in Triple(h, r)
      ensures SameAt(t, t', x)
    {
      assert SameAt(t1, t', x);
      assert x != h && x != r.d1 && x != r.d2;
    }
    ChainAdded(t, t', flight, h, r);
  }

  lemma StartedMarks(busy: set<nat>, flight: map<nat, Request>, h: nat, r: Request)
    requires Marked(busy, flight) && h !in flight && r.phase != Acked
    requires forall g :: g in flight ==> flight[g].buf != r.buf
    ensures Marked(busy + {r.buf}, flight[h := r])
  {
    var flight' := flight[h := r];
    forall b | b in busy + {r.buf}
      ensures exists g :: g in flight' && flight'[g].buf == b
    {
      if b == r.buf {
        assert flight'[h].buf == b;
      } else {
        var g :| g in flight && flight[g].buf == b;
        assert flight'[g].buf == b;
      }
    }
  }

  lemma MarksKept(busy: set<nat>, flight: map<nat, Request>, h: nat, p: Phase)
    requires Marked(busy, flight) && h in flight && flight[h].phase != Acked && p != Acked
    ensures Marked(busy, flight[h := flight[h].(phase := p)])
  {
    var flight' := flight[h := flight[h].(phase := p)];
    forall b | b in busy
      ensures exists g :: g in flight' && flight'[g].buf == b
    {
      var g :| g in flight && flight[g].buf == b;
      assert flight'[g].buf == b;
    }
  }

  lemma MarksReleased(busy: set<nat>, flight: map<nat, Request>, h: nat)
    requires Marked(busy, flight) && Separate(flight) && h in flight && flight[h].phase != Acked
    ensures flight[h].buf in busy
    ensures Marked(busy - {flight[h].buf}, flight[h := flight[h].(phase := Acked)])
  {
    var flight' := flight[h := flight[h].(phase := Acked)];
    assert forall g :: g in flight && g != h ==> Distinct(g, flight[g], h, flight[h]);
    forall b | b in busy - {flight[h].buf}
      ensures exists g :: g in flight' && flight'[g].buf == b
    {
      var g :| g in flight && flight[g].buf == b;
      assert flight'[g].buf == b;
    }
  }

  lemma MarksGone(busy: set<nat>, flight: map<nat, Request>, h: nat)
    requires Marked(busy, flight) && h in flight && flight[h].buf !in busy
    ensures flight[h].phase == Acked && Marked(busy, flight - {h})
  {
    forall b | b in busy
      ensures exists g :: g in flight - {h} && (flight - {h})[g].buf == b
    {
      var g :| g in flight && flight[g].buf == b;
      assert (flight - {h})[g].buf == b;
    }
  }

  // ----- the disk as bytes -----

  function Contents(data: map<nat, Data>, b: nat): Data {
    if b in data then data[b] else seq(BSIZE, _ => 0)
  }

  function SectorAt(store: map<nat, Sect>, k: nat): Sect {
    if k in store then store[k] else seq(SECTSIZE, _ => 0)
  }

  /** Byte p of the disk. */
  function DiskByte(store: map<nat, Sect>, p: nat): byte {
    SectorAt(store, p / SECTSIZE)[p % SECTSIZE]
  }

  /** The bytes d are on the disk from byte `at` on, and no other byte has changed. */
  ghost predicate StoredAt(store: map<nat, Sect>, store': map<nat, Sect>, at: nat, d: seq<byte>) {
    forall p: nat :: DiskByte(store', p) == if at <= p < at + |d| then d[p - at] else DiskByte(store, p)
  }

  /** d is what the disk holds from byte `at` on. */
  ghost predicate ReadFrom(store: map<nat, Sect>, at: nat, d: seq<byte>) {
    forall x :: 0 <= x < |d| ==> d[x] == DiskByte(store, at + x)
  }

  lemma StoredMore(store: map<nat, Sect>, store1: map<nat, Sect>, sector: nat, k: nat, d: Data)
    requires SECTSIZE * (k + 1) <= BSIZE && StoredAt(store, store1, sector * SECTSIZE, d[..SECTSIZE * k])
    ensures StoredAt(store, store1[sector + k := d[SECTSIZE * k..SECTSIZE * (k + 1)]], sector * SECTSIZE, d[..SECTSIZE * (k + 1)])
  {
    var store2 := store1[sector + k := d[SECTSIZE * k..SECTSIZE * (k + 1)]];
    forall p: nat
      ensures DiskByte(store2, p) ==
        if sector * SECTSIZE <= p < sector * SECTSIZE + SECTSIZE * (k + 1) then d[p - sector * SECTSIZE] else DiskByte(store, p)
    {
      InSector(p, sector, k);
      assert DiskByte(store1, p) ==
        if sector * SECTSIZE <= p < sector * SECTSIZE + SECTSIZE * k then d[p - sector * SECTSIZE] else DiskByte(store, p);
    }
  }

  lemma InSector(p: nat, sector: nat, k: nat)
    ensures p / SECTSIZE == sector + k <==> sector * SECTSIZE + SECTSIZE * k <= p < sector * SECTSIZE + SECTSIZE * (k + 1)
    ensures p / SECTSIZE == sector + k ==> p % SECTSIZE == p - sector * SECTSIZE - SECTSIZE * k
  {
    assert p == SECTSIZE * (p / SECTSIZE) + p % SECTSIZE;
  }

  lemma ReadMore(store: map<nat, Sect>, sector: nat, k: nat, d: seq<byte>)
    requires |d| == SECTSIZE * k && ReadFrom(store, sector * SECTSIZE, d)
    ensures ReadFrom(store, sector * SECTSIZE, d + SectorAt(store, sector + k))
  {
    var e := d + SectorAt(store, sector + k);
    forall x | 0 <= x < |e|
      ensures e[x] == DiskByte(store, sector * SECTSIZE + x)
    {
      InSector(sector * SECTSIZE + x, sector, k);
    }
  }

  /** What was stored for a block is what a read of the block finds. */
  lemma ReadBack(store: map<nat, Sect>, store': map<nat, Sect>, n: nat, d: Data, e: Data)
    requires StoredAt(store, store', n * BSIZE, d) && ReadFrom(store', n * BSIZE, e)
    ensures e == d
  {
    forall x | 0 <= x < BSIZE
      ensures e[x] == d[x]
    {
      assert DiskByte(store', n * BSIZE + x) == d[x];
    }
  }

  /** Storing one block changes no byte of another. */
  lemma OtherBlocks(store: map<nat, Sect>, store': map<nat, Sect>, n: nat, m: nat, d: Data, e: Data)
    requires StoredAt(store, store', n * BSIZE, d) && m != n
    ensures ReadFrom(store', m * BSIZE, e) <==> ReadFrom(store, m * BSIZE, e)
  {
    hide DiskByte;
    forall x | 0 <= x < |e|
      ensures e[x] == DiskByte(store', m * BSIZE + x) <==> e[x] == DiskByte(store, m * BSIZE + x)
    {
    }
  }

  class VirtioDisk {
    var free: seq<bool>
    var desc: seq<Desc>
    var ops: seq<BlkReq>
    var info: seq<Info>
    var avail: seq<nat>
    var availIdx: nat
    var used: seq<nat>
    var usedDev: nat              // used->idx, written by the device
    var usedIdx: nat              // how far the driver has looked
    var busy: set<nat>            // the buffers with b->disk == 1
    var devIdx: nat               // how far the device has looked in the avail ring
    var store: map<nat, Sect>     // the disk's sectors
    var data: map<nat, Data>      // the buffers' contents
    ghost var flight: map<nat, Request>
    ghost var offered: seq<nat>
    ghost var done: seq<nat>

    ghost function T(): Table
      reads this
    {
      Table(free, desc, ops, info)
    }

    ghost predicate Valid()
      reads this
    {
      && Tables(T(), flight) && Separate(flight) && Marked(busy, flight)
      && Queue(avail, devIdx, availIdx, offered, flight, Offered)
      && Queue(used, usedIdx, usedDev, done, flight, Used)
    }

    constructor ()
      ensures Valid() && flight == map[] && busy == {}
    {
      free := [true, true, true, true, true, true, true, true];
      desc := seq(NUM, _ => NODESC);
      ops := seq(NUM, _ => BlkReq(false, 0));
      info := seq(NUM, _ => Info(None, 0));
      avail, used := seq(NUM, _ => 0), seq(NUM, _ => 0);
      availIdx, usedDev, usedIdx, devIdx := 0, 0, 0, 0;
      busy, store, data := {}, map[], map[];
      flight, offered, done := map[], [], [];
      new;
      assert Count(free) == NUM by { CountAll(free); }
    }

    /** The lowest free descriptor, now taken; -1 when there is none. */
    method AllocDesc() returns (i: int)
      requires |free| == NUM
      modifies this`free
      ensures -1 <= i < NUM
      ensures i >= 0 ==> old(free)[i] && free == old(free)[i := false] && forall j :: 0 <= j < i ==> !old(free)[j]
      ensures i < 0 ==> free == old(free) && forall j :: 0 <= j < NUM ==> !free[j]
    {
      i := 0;
      while i < NUM
        invariant 0 <= i <= NUM && free == old(free)
        invariant forall j :: 0 <= j < i ==> !free[j]
      {
        if free[i] {
          free := free[i := false];
          return;
        }
        i := i + 1;
      }
      i := -1;
    }

    /** The requires are free_desc's two panics. */
    method FreeDesc(i: nat)
      requires |free| == |desc| == NUM && i < NUM && !free[i]
      modifies this`free, this`desc
      ensures free == old(free)[i := true] && desc == old(desc)[i := Desc(Nowhere, 0, false, false, 0)]
    {
      desc := desc[i := NODESC];
      free := free[i := true];
    }

    /** alloc3_desc's rollback. */
    method PutBack(idx: seq<nat>, ghost was: seq<bool>)
      requires |free| == |desc| == |was| == NUM
      requires forall i :: 0 <= i < |idx| ==> idx[i] < NUM && was[idx[i]] && desc[idx[i]] == NODESC
      requires forall i, j :: 0 <= i < j < |idx| ==> idx[i] != idx[j]
      requires forall x :: 0 <= x < NUM ==> free[x] == (was[x] && x !in idx)
      modifies this`free, this`desc
      ensures free == was && desc == old(desc)
    {
      var j := 0;
      while j < |idx|
        invariant 0 <= j <= |idx| && |free| == NUM && desc == old(desc)
        invariant forall x :: 0 <= x < NUM ==> free[x] == (was[x] && x !in idx[j..])
      {
        assert idx[j..] == [idx[j]] + idx[j + 1..];
        FreeDesc(idx[j]);
        j := j + 1;
      }
    }

    /** Three free descriptors; on failure those already taken are put back. */
    method Alloc3Desc() returns (ok: bool, idx: seq<nat>)
      requires |free| == |desc| == NUM && forall i :: 0 <= i < NUM && free[i] ==> desc[i] == NODESC
      modifies this`free, this`desc
      ensures desc == old(desc) && (ok <==> Count(old(free)) >= 3)
      ensures !ok ==> free == old(free)
      ensures ok ==>
        && |idx| == 3 && idx[0] < NUM && idx[1] < NUM && idx[2] < NUM
        && idx[0] != idx[1] && idx[0] != idx[2] && idx[1] != idx[2]
        && old(free)[idx[0]] && old(free)[idx[1]] && old(free)[idx[2]]
        && free == old(free)[idx[0] := false][idx[1] := false][idx[2] := false]
    {
      idx := [];
      while |idx| < 3
        invariant |idx| <= 3 && |free| == NUM && desc == old(desc)
        invariant forall i :: 0 <= i < |idx| ==> idx[i] < NUM && old(free)[idx[i]]
        invariant forall i, j :: 0 <= i < j < |idx| ==> idx[i] != idx[j]
        invariant forall x :: 0 <= x < NUM ==> free[x] == (old(free)[x] && x !in idx)
        invariant Count(free) + |idx| == Count(old(free))
      {
        ghost var before := free;
        var k := AllocDesc();
        if k < 0 {
          CountNone(free);
          PutBack(idx, old(free));
          return false, [];
        }
        CountUpdate(before, k, false);
        idx := idx + [k];
      }
      ok := true;
    }

    /** free_chain: follows the next links and frees exactly the request's three descriptors. */
    method FreeChain(h: nat, ghost r: Request)
      requires T().Sized() && Chained(T(), h, r)
      modifies this`free, this`desc
      ensures T().Sized() && Returned(old(T()), T(), Triple(h, r))
    {
      ghost var chain, k := Triple(h, r), 0;
      var i := h;
      while true
        invariant 0 <= k < 3 && i == chain[k] && T().Sized()
        invariant Returned(old(T()), T(), chain[..k])
        decreases 3 - k
      {
        var more, nxt := desc[i].more, desc[i].next;
        FreeDesc(i);
        k := k + 1;
        assert chain[..k] == chain[..k - 1] + [i];
        if !more { break; }
        i := nxt;
      }
      assert chain[..k] == chain;
    }

    /** Fill in the three descriptors, the command header and the info entry. */
    method Format(h: nat, r: Request)
      requires T().Sized() && h < NUM && r.d1 < NUM && r.d2 < NUM && h != r.d1 && h != r.d2 && r.d1 != r.d2
      requires !free[h] && !free[r.d1] && !free[r.d2] && r.phase == Offered
      modifies this`desc, this`ops, this`info
      ensures T().Sized() && ChainOk(T(), h, r) && info[h].status == 0xff
      ensures forall x :: 0 <= x < NUM && x !in Triple(h, r) ==> SameAt(old(T()), T(), x)
    {
      ops := ops[h := BlkReq(r.write, r.sector)];
      desc := desc[h := Desc(Op(h), REQSIZE, false, true, r.d1)];
      desc := desc[r.d1 := Desc(Block(r.buf), BSIZE, !r.write, true, r.d2)];
      desc := desc[r.d2 := Desc(Status(h), 1, true, false, 0)];
      info := info[h := Info(Some(r.buf), 0xff)];
    }

    /** virtio_disk_rw up to its second sleep; !ok is the sleep for free descriptors. */
    method Start(b: nat, write: bool, blockno: nat) returns (ok: bool, h: nat)
      requires Valid() && forall g :: g in flight ==> flight[g].buf != b
      modifies this`free, this`desc, this`ops, this`info, this`avail, this`availIdx, this`busy, this`flight, this`offered
      ensures Valid() && (ok <==> |old(flight)| < 2)
      ensures !ok ==> unchanged(this)
      ensures ok ==>
        && h !in old(flight) && h in flight && flight == old(flight)[h := flight[h]] && busy == old(busy) + {b}
        && flight[h] == Request(flight[h].d1, flight[h].d2, b, write, Sector(blockno), Offered)
        && StartsBlock(flight[h].sector, blockno) && h < |info| && info[h].status == 0xff
        && |old(avail)| == 8 && avail == old(avail)[old(availIdx) % 8 := h] && availIdx == (old(availIdx) + 1) % 0x1_0000
        && offered == old(offered) + [h]
    {
      hide Count, Tables, Separate, Marked, Queue, ChainOk, SameAt, Sector, StartsBlock;
      SectorStarts(blockno);
      ghost var t := T();
      TablesFacts(t, flight);
      var idx;
      ok, idx := Alloc3Desc();
      if !ok { return ok, 0; }
      h := idx[0];
      var r := Request(idx[1], idx[2], b, write, Sector(blockno), Offered);
      ghost var t1 := T();
      Format(h, r);
      StartedTables(t, t1, T(), flight, h, r);
      QueueShort(t, flight, avail, devIdx, availIdx, offered, Offered);
      Offer(h, r);
    }

    /** Mark the buffer and put the head on the avail ring. */
    method Offer(h: nat, ghost r: Request)
      requires h !in flight && Tables(T(), flight[h := r]) && Separate(flight[h := r]) && Marked(busy, flight)
      requires Queue(avail, devIdx, availIdx, offered, flight, Offered) && |offered| < NUM
      requires Queue(used, usedIdx, usedDev, done, flight, Used)
      requires r.phase == Offered && T().Sized() && ChainOk(T(), h, r) && forall g :: g in flight ==> flight[g].buf != r.buf
      modifies this`avail, this`availIdx, this`busy, this`flight, this`offered
      ensures Valid() && flight == old(flight)[h := r] && busy == old(busy) + {r.buf} && offered == old(offered) + [h]
      ensures |old(avail)| == 8 && avail == old(avail)[old(availIdx) % 8 := h] && availIdx == (old(availIdx) + 1) % 0x1_0000
    {
      hide Tables, Separate, Marked, Queue, ChainOk;
      DeviceSees(T(), h, r);
      StartedMarks(busy, flight, h, r);
      QueuePush(avail, devIdx, availIdx, offered, flight, Offered, h, r);
      QueueKept(used, usedIdx, usedDev, done, flight, Used, h, r);
      QueueSized(avail, devIdx, availIdx, offered, flight, Offered);
      var b := info[h].buf.value;
      busy := busy + {b};
      avail := avail[availIdx % NUM := h];
      availIdx := (availIdx + 1) % WRAP;
      flight, offered := flight[h := r], offered + [h];
    }

    /** The device takes the next offered chain. */
    method DeviceTake() returns (h: nat)
      requires Valid() && devIdx != availIdx
      modifies this`devIdx, this`flight, this`offered
      ensures Valid() && old(offered) == [h] + offered
      ensures h in old(flight) && old(flight)[h].phase == Offered && flight == old(flight)[h := old(flight)[h].(phase := Taken)]
      ensures |avail| == 8 && h == avail[old(devIdx) % 8] && devIdx == (old(devIdx) + 1) % 0x1_0000
    {
      hide Count, Tables, Separate, Marked, Queue, ChainOk, Triple;
      QueueShort(T(), flight, avail, devIdx, availIdx, offered, Offered);
      QueueSized(avail, devIdx, availIdx, offered, flight, Offered);
      TablesFacts(T(), flight);
      h := avail[devIdx % NUM];
      ghost var r := flight[h].(phase := Taken);
      PhaseChanged(T(), T(), flight, h, Taken);
      MarksKept(busy, flight, h, Taken);
      QueuePop(avail, devIdx, availIdx, offered, flight, Offered, r);
      QueueKept(used, usedIdx, usedDev, done, flight, Used, h, r);
      devIdx := (devIdx + 1) % WRAP;
      flight, offered := flight[h := r], offered[1..];
    }

    /** The device stores a buffer's worth of bytes from a sector on. */
    method StoreSectors(sector: nat, len: nat, d: Data)
      requires len == BSIZE
      modifies this`store
      ensures StoredAt(old(store), store, sector * SECTSIZE, d)
    {
      hide StoredAt, DiskByte;
      var k := 0;
      NothingStored(store, sector * SECTSIZE, d);
      while SECTSIZE * (k + 1) <= len
        invariant 0 <= SECTSIZE * k <= len && StoredAt(old(store), store, sector * SECTSIZE, d[..SECTSIZE * k])
        decreases len - SECTSIZE * k
      {
        StoredMore(old(store), store, sector, k, d);
        store := store[sector + k := d[SECTSIZE * k..SECTSIZE * (k + 1)]];
        k := k + 1;
      }
      assert d[..SECTSIZE * k] == d;
    }

    lemma NothingStored(store: map<nat, Sect>, at: nat, d: Data)
      ensures StoredAt(store, store, at, d[..0])
    {
    }

    method LoadSectors(sector: nat, len: nat) returns (d: Data)
      requires len == BSIZE
      ensures ReadFrom(store, sector * SECTSIZE, d)
    {
      hide ReadFrom, DiskByte;
      var k, got: seq<byte> := 0, [];
      NothingRead(store, sector * SECTSIZE);
      while SECTSIZE * (k + 1) <= len
        invariant 0 <= SECTSIZE * k <= len && |got| == SECTSIZE * k && ReadFrom(store, sector * SECTSIZE, got)
        decreases len - SECTSIZE * k
      {
        ReadMore(store, sector, k, got);
        got := got + SectorAt(store, sector + k);
        k := k + 1;
      }
      d := got;
    }

    lemma NothingRead(store: map<nat, Sect>, at: nat)
      ensures ReadFrom(store, at, [])
    {
    }

    /**
      What the device does with a chain, as it reads it from the tables; it writes
      only where a descriptor lets it. With an error status the target of the
      transfer holds anything.
     */
    method Execute(h: nat, status: nat, anything: Data, ghost r: Request)
      requires T().Sized() && ChainOk(T(), h, r)
      modifies this`store, this`data, this`info
      ensures info == old(info)[h := old(info)[h].(status := status)]
      ensures Moved(r, status, anything, old(store), old(data), store, data)
    {
      hide ChainOk, StoredAt, ReadFrom;
      DeviceSees(T(), h, r);
      var d0 := desc[h];
      var op, d1 := ops[d0.addr.i], desc[d0.next];
      var d2 := desc[d1.next];
      if op.write && !d1.write {
        StoreSectors(op.sector, d1.len, if status == 0 then Contents(data, d1.addr.buf) else anything);
      } else if !op.write && d1.write {
        var d := LoadSectors(op.sector, d1.len);
        data := data[d1.addr.buf := if status == 0 then d else anything];
      }
      if d2.write { info := info[d2.addr.h := info[d2.addr.h].(status := status)]; }
    }

    /** The transfer of a request: a block's bytes from its sector on, from or to its buffer. */
    ghost predicate Moved(r: Request, status: nat, anything: Data, store: map<nat, Sect>, data: map<nat, Data>,
                          store': map<nat, Sect>, data': map<nat, Data>) {
      if r.write then
        data' == data && StoredAt(store, store', r.sector * SECTSIZE, if status == 0 then Contents(data, r.buf) else anything)
      else
        && store' == store && data' == data[r.buf := Contents(data', r.buf)]
        && (status == 0 ==> ReadFrom(store, r.sector * SECTSIZE, Contents(data', r.buf)))
    }

    /** The device carries out the chain at h, as the tables describe it, and reports it used with any status. */
    method DeviceComplete(h: nat, status: nat, anything: Data)
      requires Valid() && h in flight && flight[h].phase == Taken
      modifies this`store, this`data, this`info, this`used, this`usedDev, this`flight, this`done
      ensures Valid() && flight == old(flight)[h := old(flight)[h].(phase := Used)] && done == old(done) + [h]
      ensures h < |old(info)| && info == old(info)[h := old(info)[h].(status := status)]
      ensures Moved(old(flight)[h], status, anything, old(store), old(data), store, data)
    {
      hide Count, Tables, Separate, Marked, Queue, ChainOk, Moved, Triple;
      TablesFacts(T(), flight);
      ghost var t := T();
      QueueShort(t, flight, used, usedIdx, usedDev, done, Used);
      Execute(h, status, anything, flight[h]);
      PhaseChanged(t, T(), flight, h, Used);
      MarksKept(busy, flight, h, Used);
      Report(h, flight[h].(phase := Used));
    }

    /** The device puts the head on the used ring. */
    method Report(h: nat, ghost r: Request)
      requires h in flight && flight[h].phase == Taken && r.phase == Used
      requires Tables(T(), flight[h := r]) && Separate(flight[h := r]) && Marked(busy, flight[h := r])
      requires Queue(avail, devIdx, availIdx, offered, flight, Offered)
      requires Queue(used, usedIdx, usedDev, done, flight, Used) && |done| < NUM
      modifies this`used, this`usedDev, this`flight, this`done
      ensures Valid() && flight == old(flight)[h := r] && done == old(done) + [h]
    {
      hide Tables, Separate, Marked, Queue;
      QueueSized(used, usedIdx, usedDev, done, flight, Used);
      QueuePush(used, usedIdx, usedDev, done, flight, Used, h, r);
      QueueKept(avail, devIdx, availIdx, offered, flight, Offered, h, r);
      used := used[usedDev % NUM := h];
      usedDev := (usedDev + 1) % WRAP;
      flight, done := flight[h := r], done + [h];
    }

    /**
      One turn of virtio_disk_intr's loop: the buffer of the oldest completion is
      released; ok is false for the panic, exactly when the device reported an error.
     */
    method IntrOne() returns (ok: bool)
      requires Valid() && usedIdx != usedDev
      modifies this`busy, this`usedIdx, this`flight, this`done
      ensures Valid() && old(done) != [] && old(done)[0] < |info|
      ensures ok <==> info[old(done)[0]].status == 0
      ensures !ok ==> unchanged(this)
      ensures ok ==>
        var h := old(done)[0];
        && done == old(done)[1..] && h in old(flight) && old(flight)[h].phase == Used && old(flight)[h].buf in old(busy)
        && flight == old(flight)[h := old(flight)[h].(phase := Acked)]
        && busy == old(busy) - {old(flight)[h].buf}
    {
      hide Count, Tables, Separate, Marked, Queue, ChainOk, Triple;
      QueueShort(T(), flight, used, usedIdx, usedDev, done, Used);
      QueueSized(used, usedIdx, usedDev, done, flight, Used);
      TablesFacts(T(), flight);
      var id := used[usedIdx % NUM];
      DeviceSees(T(), id, flight[id]);
      if info[id].status != 0 { return false; }
      var b := info[id].buf.value;
      ghost var r := flight[id].(phase := Acked);
      PhaseChanged(T(), T(), flight, id, Acked);
      MarksReleased(busy, flight, id);
      QueuePop(used, usedIdx, usedDev, done, flight, Used, r);
      QueueKept(avail, devIdx, availIdx, offered, flight, Offered, id, r);
      busy := busy - {b};
      usedIdx := (usedIdx + 1) % WRAP;
      flight, done := flight[id := r], done[1..];
      ok := true;
    }

    /**
      virtio_disk_intr with no completion arriving meanwhile: all of the used ring
      is seen, unless one of its completions reports an error, which is the panic.
     */
    method Intr() returns (ok: bool)
      requires Valid()
      modifies this`busy, this`usedIdx, this`flight, this`done
      ensures Valid() && forall i :: 0 <= i < |old(done)| ==> old(done)[i] < |info|
      ensures ok <==> forall i :: 0 <= i < |old(done)| ==> info[old(done)[i]].status == 0
      ensures ok ==> usedIdx == usedDev && flight == AckAll(old(flight))
    {
      hide Count, Tables, Separate, Marked, Queue, ChainOk, Triple, AckAll;
      DoneInTable();
      ghost var was, k := done, 0;
      assert Acknowledging(flight, flight);
      while usedIdx != usedDev
        invariant Valid()
        invariant 0 <= k <= |was| && done == was[k..]
        invariant forall i :: 0 <= i < |was| ==> was[i] < |info|
        invariant forall i :: 0 <= i < k ==> info[was[i]].status == 0
        invariant Acknowledging(old(flight), flight)
        decreases |done|
      {
        ghost var mid := flight;
        ok := IntrOne();
        if !ok {
          assert was[k..][0] == was[k];
          return;
        }
        AcknowledgesMore(old(flight), mid, was[k]);
        k := k + 1;
      }
      AllSeen(old(flight));
      ok := true;
    }

    lemma AllSeen(was: map<nat, Request>)
      requires Valid() && usedIdx == usedDev && Acknowledging(was, flight)
      ensures done == [] && flight == AckAll(was)
    {
      hide Tables, Marked, Separate, Queue;
      QueueShort(T(), flight, used, usedIdx, usedDev, done, Used);
      QueueEmpty(used, usedIdx, usedDev, flight, Used);
    }

    lemma DoneInTable()
      requires Valid()
      ensures forall i :: 0 <= i < |done| ==> done[i] < |info|
    {
      TablesFacts(T(), flight);
      hide Tables;
      forall i | 0 <= i < |done|
        ensures done[i] < |info|
      {
        assert done[i] in done;
      }
    }

    /** The rest of virtio_disk_rw once b->disk is 0. */
    method Finish(h: nat)
      requires Valid() && h in flight && flight[h].buf !in busy
      modifies this`info, this`free, this`desc, this`flight
      ensures Valid() && flight == old(flight) - {h}
      ensures h < |old(info)| && info == old(info)[h := old(info)[h].(buf := None)]
      ensures Returned(old(T()), T(), Triple(h, old(flight)[h]))
    {
      hide Count, Tables, Separate, Marked, Queue, ChainOk, Triple;
      TablesFacts(T(), flight);
      ghost var t := T();
      DeviceSees(t, h, flight[h]);
      MarksGone(busy, flight, h);
      info := info[h := info[h].(buf := None)];
      FreeChain(h, flight[h]);
      ChainGone(t, T(), flight, h);
      QueueLess(avail, devIdx, availIdx, offered, flight, Offered, h);
      QueueLess(used, usedIdx, usedDev, done, flight, Used, h);
      flight := flight - {h};
    }

    /** A whole request on an idle driver, with a device that succeeds. */
    method Transfer(b: nat, write: bool, n: nat)
      requires Valid() && flight == map[] && n < 0x8000_0000
      modifies this
      ensures Valid() && flight == map[]
      ensures write ==> data == old(data) && StoredAt(old(store), store, n * BSIZE, Contents(data, b))
      ensures !write ==> store == old(store) && data == old(data)[b := Contents(data, b)] && ReadFrom(store, n * BSIZE, Contents(data, b))
    {
      hide Valid, StoredAt, ReadFrom, Contents;
      var h := Serve(b, write, n);
      assert flight[h].sector * SECTSIZE == n * BSIZE;
      Acknowledge(h);
    }

    /** The driver offers a request, and the device carries it out. */
    method Serve(b: nat, write: bool, n: nat) returns (h: nat)
      requires Valid() && flight == map[]
      modifies this
      ensures Valid() && flight.Keys == {h} && h < |info| && info[h].status == 0 && flight[h].phase == Used
      ensures flight[h].buf == b && flight[h].write == write && StartsBlock(flight[h].sector, n)
      ensures Moved(flight[h], 0, seq(BSIZE, _ => 0), old(store), old(data), store, data)
    {
      hide Valid, StartsBlock, Sector, StoredAt, ReadFrom, Contents;
      var ok;
      ok, h := Start(b, write, n);
      NextTaken(h);
      var g := DeviceTake();
      DeviceComplete(h, 0, seq(BSIZE, _ => 0));
    }

    /** The interrupt, and the rest of virtio_disk_rw. */
    method Acknowledge(h: nat)
      requires Valid() && flight.Keys == {h} && h < |info| && info[h].status == 0 && flight[h].phase == Used
      modifies this`busy, this`usedIdx, this`flight, this`done, this`info, this`free, this`desc
      ensures Valid() && flight == map[]
    {
      hide AckAll, Valid, Returned;
      OnlyDone(h);
      AllAcked(flight, h);
      var ok := Intr();
      Released(h);
      Finish(h);
    }

    lemma NextTaken(h: nat)
      requires Valid() && flight.Keys == {h} && flight[h].phase == Offered
      ensures devIdx != availIdx && offered == [h]
    {
      hide Tables, Separate, Marked;
      assert h in offered;
      if |offered| > 1 { assert offered[0] in offered && offered[1] in offered; }
      hide Queue;
      QueueShort(T(), flight, avail, devIdx, availIdx, offered, Offered);
    }

    lemma OnlyDone(h: nat)
      requires Valid() && flight.Keys == {h}
      ensures forall i :: 0 <= i < |done| ==> done[i] == h
    {
      hide Tables, Separate, Marked;
      forall i | 0 <= i < |done|
        ensures done[i] == h
      {
        assert done[i] in done;
      }
    }

    lemma Released(h: nat)
      requires Valid() && h in flight && flight[h].phase == Acked
      ensures flight[h].buf !in busy
    {
    }

    lemma AllAcked(flight: map<nat, Request>, h: nat)
      requires flight.Keys == {h} && flight[h].phase == Used
      ensures AckAll(flight) == map[h := flight[h].(phase := Acked)]
    {
    }

    /** A block written and read back through another buffer is what was written, and no other block has changed. */
    method WriteThenRead(b: nat, c: nat, n: nat)
      requires Valid() && flight == map[] && n < 0x8000_0000
      modifies this
      ensures Valid() && flight == map[]
      ensures Contents(data, c) == old(Contents(data, b))
      ensures forall m: nat, d: Data :: m != n ==> (ReadFrom(store, m * BSIZE, d) <==> ReadFrom(old(store), m * BSIZE, d))
    {
      hide Tables, Separate, Marked, Queue, StoredAt, ReadFrom, Contents;
      Transfer(b, true, n);
      Transfer(c, false, n);
      ReadBack(old(store), store, n, old(Contents(data, b)), Contents(data, c));
      forall m: nat, d: Data | m != n
        ensures ReadFrom(store, m * BSIZE, d) <==> ReadFrom(old(store), m * BSIZE, d)
      {
        OtherBlocks(old(store), store, n, m, old(Contents(data, b)), d);
      }
    }
  }
}
