/**
  The buffer cache of bio.c: an array of buffers threaded on a doubly linked
  ring, most recently used first, with reference counts, sleep-lock owners and
  validity. Bget, Lock, Fill, Modify, Bwrite, Bpin, Bunpin, Unlock and Unref are
  each one atomic action, so any interleaving of processes is a sequence of
  calls of them; Bread and Brelse put them together.
 */
module Bcache {
  import LogSpec

  type Data = LogSpec.Block

  const NBUF := LogSpec.MAXOPBLOCKS * 3
  const HEAD := NBUF    // index of bcache.head

  /** struct buf; owner is the pid holding the sleep lock, 0 for none. */
  datatype Buf = Buf(valid: bool, dev: nat, blockno: nat, owner: nat, refcnt: nat, prev: nat, next: nat, data: Data)

  datatype Key = Key(dev: nat, blockno: nat)

  function KeyOf(b: Buf): Key {
    Key(b.dev, b.blockno)
  }

  // ----- the ring -----

  /** The buffers in list order with the head at both ends. */
  ghost function Cycle(ring: seq<nat>): seq<nat> {
    [HEAD] + ring + [HEAD]
  }

  ghost predicate Distinct(ring: seq<nat>) {
    && (forall k :: 0 <= k < |ring| ==> ring[k] < NBUF)
    && (forall k, l :: 0 <= k < l < |ring| ==> ring[k] != ring[l])
  }

  /** next and prev of the head and of the listed buffers follow `ring`. */
  ghost predicate Linked(b: seq<Buf>, ring: seq<nat>) {
    && |b| == NBUF + 1 && Distinct(ring)
    && forall k :: 0 <= k <= |ring| ==>
         b[Cycle(ring)[k]].next == Cycle(ring)[k + 1] && b[Cycle(ring)[k + 1]].prev == Cycle(ring)[k]
  }

  lemma LinkedFrame(b: seq<Buf>, b': seq<Buf>, ring: seq<nat>)
    requires Linked(b, ring) && |b'| == |b|
    requires forall i :: 0 <= i < |b| ==> b'[i].next == b[i].next && b'[i].prev == b[i].prev
    ensures Linked(b', ring)
  {
  }

  function Unlinked(b: seq<Buf>, x: nat): (b': seq<Buf>)
    requires |b| == NBUF + 1 && x < NBUF && b[x].next <= HEAD && b[x].prev <= HEAD
    ensures |b'| == |b|
  {
    var b1 := b[b[x].next := b[b[x].next].(prev := b[x].prev)];
    b1[b1[x].prev := b1[b1[x].prev].(next := b1[x].next)]
  }

  function Inserted(b: seq<Buf>, x: nat): (b': seq<Buf>)
    requires |b| == NBUF + 1 && x < NBUF && b[HEAD].next <= HEAD
    ensures |b'| == |b|
  {
    var b1 := b[x := b[x].(next := b[HEAD].next, prev := HEAD)];
    var b2 := b1[b1[HEAD].next := b1[b1[HEAD].next].(prev := x)];
    b2[HEAD := b2[HEAD].(next := x)]
  }

  ghost function Without(ring: seq<nat>, k: nat): seq<nat>
    requires k < |ring|
  {
    ring[..k] + ring[k + 1..]
  }

  lemma UnlinkedRing(b: seq<Buf>, ring: seq<nat>, k: nat)
    requires Linked(b, ring) && k < |ring|
    ensures b[ring[k]].next <= HEAD && b[ring[k]].prev <= HEAD
    ensures Linked(Unlinked(b, ring[k]), Without(ring, k))
  {
    var x := ring[k];
    var c := Cycle(ring);
    assert c[k + 1] == x && b[x].prev == c[k] && b[x].next == c[k + 2];
    var b' := Unlinked(b, x);
    var ring' := Without(ring, k);
    var c' := Cycle(ring');
    forall j | 0 <= j <= |ring'|
      ensures b'[c'[j]].next == c'[j + 1] && b'[c'[j + 1]].prev == c'[j]
    {
      assert c'[j] == if j <= k then c[j] else c[j + 1];
      assert c'[j + 1] == if j + 1 <= k then c[j + 1] else c[j + 2];
    }
  }

  lemma InsertedRing(b: seq<Buf>, ring: seq<nat>, x: nat)
    requires Linked(b, ring) && x < NBUF && x !in ring
    ensures b[HEAD].next <= HEAD
    ensures Linked(Inserted(b, x), [x] + ring)
  {
    var c, c' := Cycle(ring), Cycle([x] + ring);
    assert c[0] == HEAD && b[HEAD].next == c[1];
    var b' := Inserted(b, x);
    forall j | 0 <= j <= |ring| + 1
      ensures b'[c'[j]].next == c'[j + 1] && b'[c'[j + 1]].prev == c'[j]
    {
      if j >= 1 {
        assert c'[j + 1] == c[j];
        if j >= 2 { assert c'[j] == c[j - 1]; }
      }
    }
  }

  /** The ring is a permutation of the buffers. */
  lemma {:induction false} InRing(ring: seq<nat>, j: nat)
    requires Distinct(ring) && |ring| == NBUF && j < NBUF
    ensures j in ring
  {
    if j !in ring {
      Crowded(ring + [j], NBUF);
    }
  }

  /** Distinct numbers below n are at most n. */
  lemma {:induction false} Crowded(s: seq<nat>, n: nat)
    requires forall k :: 0 <= k < |s| ==> s[k] < n
    requires forall k, l :: 0 <= k < l < |s| ==> s[k] != s[l]
    ensures |s| <= n
    decreases n
  {
    if s != [] {
      assert s[0] < n;
      if k :| 0 <= k < |s| && s[k] == n - 1 {
        Crowded(s[..k] + s[k + 1..], n - 1);
      } else {
        Crowded(s, n - 1);
      }
    }
  }

  // ----- contents -----

  /**
    The bookkeeping of the specification: per buffer the processes between bget
    and brelse and the pins of the log; the buffers changed since they were last
    written to disk; and what was last stored in each block.
   */
  datatype Book = Book(users: seq<nat>, pins: seq<nat>, dirty: set<nat>, latest: map<Key, Data>)

  /** The buffer is in use or holds a block; binit's buffers are and do neither. */
  predicate Live(b: Buf) { b.refcnt > 0 || b.valid }

  ghost predicate BufOk(b: Buf, i: nat, disk: map<Key, Data>, book: Book)
    requires |book.users| == |book.pins| == NBUF && i < NBUF && disk.Keys == book.latest.Keys
  {
    && b.refcnt == book.users[i] + book.pins[i]
    && (b.owner != 0 ==> book.users[i] > 0)
    && (Live(b) ==> KeyOf(b) in disk)
    && (b.valid ==> b.data == book.latest[KeyOf(b)])
    && (i in book.dirty ==> b.valid && (b.owner != 0 || book.pins[i] > 0))
  }

  /** No block is cached twice. */
  ghost predicate Unique(b: seq<Buf>)
    requires |b| == NBUF + 1
  {
    forall i, j :: 0 <= i < NBUF && 0 <= j < NBUF && i != j && Live(b[i]) && Live(b[j]) ==> KeyOf(b[i]) != KeyOf(b[j])
  }

  /**
    The buffer that caches a block comes before any unused one that happens to
    bear its number, as binit's all bear number 0 of device 0.
   */
  ghost predicate Foremost(b: seq<Buf>, ring: seq<nat>)
    requires |b| == NBUF + 1 && Distinct(ring)
  {
    forall k, l :: 0 <= k < l < |ring| && Live(b[ring[l]]) ==> KeyOf(b[ring[k]]) != KeyOf(b[ring[l]])
  }

  /** A live buffer changed without taking another number. */
  lemma ForemostKept(b: seq<Buf>, b': seq<Buf>, ring: seq<nat>, i: nat)
    requires |b| == |b'| == NBUF + 1 && Distinct(ring) && Foremost(b, ring) && i < NBUF && b' == b[i := b'[i]]
    requires KeyOf(b'[i]) == KeyOf(b[i]) && (Live(b[i]) || !Live(b'[i]))
    ensures Foremost(b', ring)
  {
  }

  /** Buffer i is the first in the ring to bear its number. */
  ghost predicate First(b: seq<Buf>, ring: seq<nat>, i: nat)
    requires |b| == NBUF + 1 && Distinct(ring) && i < NBUF
  {
    exists k :: 0 <= k < |ring| && ring[k] == i && forall l :: 0 <= l < k ==> KeyOf(b[ring[l]]) != KeyOf(b[i])
  }

  /** The first buffer with a number is the only one that can be live. */
  lemma FirstAlone(b: seq<Buf>, ring: seq<nat>, i: nat)
    requires |b| == NBUF + 1 && Distinct(ring) && |ring| == NBUF && Foremost(b, ring) && i < NBUF && First(b, ring, i)
    ensures forall j :: 0 <= j < NBUF && j != i && Live(b[j]) ==> KeyOf(b[j]) != KeyOf(b[i])
  {
    var k :| 0 <= k < |ring| && ring[k] == i && forall l :: 0 <= l < k ==> KeyOf(b[ring[l]]) != KeyOf(b[i]);
    forall j | 0 <= j < NBUF && j != i && Live(b[j])
      ensures KeyOf(b[j]) != KeyOf(b[i])
    {
      InRing(ring, j);
      var l :| 0 <= l < |ring| && ring[l] == j;
    }
  }

  lemma LiveFirst(b: seq<Buf>, ring: seq<nat>, i: nat)
    requires |b| == NBUF + 1 && Distinct(ring) && |ring| == NBUF && Foremost(b, ring) && i < NBUF && Live(b[i])
    ensures First(b, ring, i)
  {
    InRing(ring, i);
    var k :| 0 <= k < |ring| && ring[k] == i;
    assert forall l :: 0 <= l < k ==> KeyOf(b[ring[l]]) != KeyOf(b[ring[k]]);
  }

  /** After bget, whether it found the first buffer with the number or renumbered an unused one. */
  lemma GotForemost(b: seq<Buf>, b': seq<Buf>, ring: seq<nat>, i: nat)
    requires |b| == |b'| == NBUF + 1 && Distinct(ring) && |ring| == NBUF && Foremost(b, ring) && i < NBUF && b' == b[i := b'[i]]
    requires if KeyOf(b'[i]) == KeyOf(b[i]) then First(b, ring, i) else forall j :: 0 <= j < NBUF ==> KeyOf(b[j]) != KeyOf(b'[i])
    ensures Foremost(b', ring)
  {
    if KeyOf(b'[i]) == KeyOf(b[i]) {
      var p :| 0 <= p < |ring| && ring[p] == i && forall l :: 0 <= l < p ==> KeyOf(b[ring[l]]) != KeyOf(b[i]);
      assert forall l :: 0 <= l < |ring| && ring[l] == i ==> l == p;
    }
  }

  lemma ForemostMoved(b: seq<Buf>, ring: seq<nat>, k: nat)
    requires |b| == NBUF + 1 && Distinct(ring) && Foremost(b, ring) && k < |ring|
    requires forall j :: 0 <= j < NBUF && j != ring[k] && Live(b[j]) ==> KeyOf(b[j]) != KeyOf(b[ring[k]])
    requires Distinct([ring[k]] + Without(ring, k))
    ensures Foremost(b, [ring[k]] + Without(ring, k))
  {
    var r := [ring[k]] + Without(ring, k);
    assert forall m :: 1 <= m < |r| ==> r[m] == ring[if m <= k then m - 1 else m];
  }

  lemma ForemostLinks(b: seq<Buf>, b': seq<Buf>, ring: seq<nat>)
    requires |b| == |b'| == NBUF + 1 && Distinct(ring) && Foremost(b, ring)
    requires forall j :: 0 <= j <= NBUF ==> KeyOf(b'[j]) == KeyOf(b[j]) && Live(b'[j]) == Live(b[j])
    ensures Foremost(b', ring)
  {
  }

  /** The disk is behind only where a dirty buffer is ahead of it. */
  ghost predicate DiskOk(b: seq<Buf>, disk: map<Key, Data>, book: Book)
    requires |b| == NBUF + 1 && disk.Keys == book.latest.Keys
  {
    && (forall i :: i in book.dirty ==> i < NBUF)
    && forall k :: k in disk && disk[k] != book.latest[k] ==> exists i :: i in book.dirty && i < NBUF && KeyOf(b[i]) == k
  }

  ghost predicate Coherent(b: seq<Buf>, disk: map<Key, Data>, book: Book) {
    && |b| == NBUF + 1 && |book.users| == |book.pins| == NBUF && disk.Keys == book.latest.Keys
    && (forall i :: 0 <= i < NBUF ==> BufOk(b[i], i, disk, book))
    && Unique(b) && DiskOk(b, disk, book)
  }

  class Cache {
    const buf: array<Buf>
    var disk: map<Key, Data>
    ghost var ring: seq<nat>     // most recently used first
    ghost var book: Book

    ghost predicate Valid()
      reads this, buf
    {
      && buf.Length == NBUF + 1
      && Linked(buf[..], ring) && |ring| == NBUF
      && Coherent(buf[..], disk, book) && Foremost(buf[..], ring)
    }

    /** binit, with the device's contents. */
    constructor (device: map<Key, Data>)
      ensures Valid() && disk == device && book.latest == device && book.dirty == {} && fresh(buf)
      ensures buf.Length == 31 && forall j :: 0 <= j < 30 ==> buf[j].refcnt == 0 && buf[j].owner == 0 && !buf[j].valid
    {
      var zero: Data := seq(LogSpec.BLOCKWORDS, _ => 0);
      buf := new Buf[NBUF + 1](_ => Buf(false, 0, 0, 0, 0, HEAD, HEAD, zero));
      disk := device;
      ring := [];
      book := Book(seq(NBUF, _ => 0), seq(NBUF, _ => 0), {}, device);
      new;
      var i := 0;
      while i < NBUF
        invariant 0 <= i <= NBUF && |ring| == i && Linked(buf[..], ring)
        invariant forall x :: x in ring ==> x < i
        invariant forall j :: 0 <= j <= NBUF ==> !buf[j].valid && buf[j].dev == 0 && buf[j].owner == 0 && buf[j].refcnt == 0
        invariant disk == device && book == Book(seq(NBUF, _ => 0), seq(NBUF, _ => 0), {}, device)
      {
        Insert(i);
        i := i + 1;
      }
    }

    /** Splice buffer x in after the head. */
    method Insert(x: nat)
      requires buf.Length == NBUF + 1 && Linked(buf[..], ring) && x < NBUF && x !in ring
      modifies this`ring, buf
      ensures ring == [x] + old(ring) && Linked(buf[..], ring)
      ensures forall j :: 0 <= j <= NBUF ==> buf[j] == old(buf[j]).(prev := buf[j].prev, next := buf[j].next)
    {
      InsertedRing(buf[..], ring, x);
      buf[x] := buf[x].(next := buf[HEAD].next, prev := HEAD);
      buf[buf[HEAD].next] := buf[buf[HEAD].next].(prev := x);
      buf[HEAD] := buf[HEAD].(next := x);
      ring := [x] + ring;
    }

    /** Store into buffer i without touching the links. */
    method Update(i: nat, b: Buf)
      requires buf.Length == NBUF + 1 && Linked(buf[..], ring) && i < NBUF
      requires b.prev == buf[i].prev && b.next == buf[i].next
      modifies buf
      ensures buf[..] == old(buf[..])[i := b] && Linked(buf[..], ring)
    {
      LinkedFrame(buf[..], buf[..][i := b], ring);
      buf[i] := b;
      assert buf[..] == old(buf[..])[i := b];
    }

    /** bget's first loop: the buffer holding the block, or HEAD. */
    method FindCached(key: Key) returns (i: nat)
      requires Valid()
      ensures i <= HEAD && (i < HEAD ==> KeyOf(buf[i]) == key && First(buf[..], ring, i))
      ensures i == HEAD ==> forall j :: 0 <= j < NBUF ==> KeyOf(buf[j]) != key
    {
      ghost var k := 0;
      Cycles(ring);
      i := buf[HEAD].next;
      while i != HEAD
        invariant 0 <= k <= |ring| && i == Cycle(ring)[k + 1]
        invariant forall l :: 0 <= l < k ==> KeyOf(buf[ring[l]]) != key
        decreases |ring| - k
      {
        if KeyOf(buf[i]) == key {
          assert ring[k] == i;
          return;
        }
        i := buf[i].next;
        k := k + 1;
      }
      forall j | 0 <= j < NBUF
        ensures KeyOf(buf[j]) != key
      {
        InRing(ring, j);
      }
    }

    /** bget's second loop: the least recently used buffer without references, or HEAD. */
    method FindUnused() returns (i: nat, ghost k: int)
      requires Valid()
      ensures -1 <= k < |ring| && (i == HEAD <==> k == -1) && (k >= 0 ==> i == ring[k] && buf[i].refcnt == 0)
      ensures forall l :: k < l < |ring| ==> buf[ring[l]].refcnt > 0
    {
      Cycles(ring);
      k := |ring| - 1;
      i := buf[HEAD].prev;
      while i != HEAD
        invariant -1 <= k < |ring| && i == Cycle(ring)[k + 1]
        invariant forall l :: k < l < |ring| ==> buf[ring[l]].refcnt > 0
        decreases k
      {
        if buf[i].refcnt == 0 { return; }
        i := buf[i].prev;
        k := k - 1;
      }
    }

    lemma Cycles(ring: seq<nat>)
      ensures forall k :: 0 <= k < |ring| ==> Cycle(ring)[k + 1] == ring[k]
      ensures Cycle(ring)[0] == HEAD && Cycle(ring)[|ring| + 1] == HEAD
    {
    }

    /** What bget did to buffer i. */
    ghost predicate Got(b: seq<Buf>, book: Book, b': seq<Buf>, book': Book, i: nat, key: Key)
      requires |b| == |b'| == NBUF + 1 && i < NBUF && |book.users| == NBUF
    {
      && book' == book.(users := book.users[i := book.users[i] + 1])
      && if KeyOf(b[i]) == key then b' == b[i := b[i].(refcnt := b[i].refcnt + 1)]
         else b[i].refcnt == 0 && b' == b[i := b[i].(dev := key.dev, blockno := key.blockno, valid := false, refcnt := 1)]
    }

    lemma GotCoherent(b: seq<Buf>, disk: map<Key, Data>, book: Book, b': seq<Buf>, book': Book, i: nat, key: Key)
      requires Coherent(b, disk, book) && i < NBUF && key in disk && |b'| == |b|
      requires forall j :: 0 <= j < NBUF && j != i && Live(b[j]) ==> KeyOf(b[j]) != key
      requires Got(b, book, b', book', i, key)
      ensures Coherent(b', disk, book')
    {
      assert BufOk(b[i], i, disk, book);
      forall j | 0 <= j < NBUF
        ensures BufOk(b'[j], j, disk, book')
      {
        assert BufOk(b[j], j, disk, book);
      }
      forall k | k in disk && disk[k] != book'.latest[k]
        ensures exists j :: j in book'.dirty && j < NBUF && KeyOf(b'[j]) == k
      {
        var j :| j in book.dirty && j < NBUF && KeyOf(b[j]) == k;
        assert BufOk(b[j], j, disk, book);
        assert KeyOf(b'[j]) == k;
      }
    }

    /**
      bget's critical section: a reference to the buffer for a block; -1 is the
      "no buffers" panic. A recycled buffer is the least recently used one
      without references.
     */
    method Bget(dev: nat, blockno: nat) returns (i: int)
      requires Valid() && Key(dev, blockno) in disk
      modifies this`book, buf
      ensures Valid()
      ensures i == -1 <==> forall j :: 0 <= j < NBUF ==> old(buf[j].refcnt) > 0 && KeyOf(old(buf[j])) != Key(dev, blockno)
      ensures i == -1 ==> buf[..] == old(buf[..]) && book == old(book)
      ensures i != -1 ==> 0 <= i < NBUF && KeyOf(buf[i]) == Key(dev, blockno)
      ensures i != -1 ==> Got(old(buf[..]), old(book), buf[..], book, i, Key(dev, blockno))
      ensures i != -1 && KeyOf(old(buf[i])) != Key(dev, blockno) ==>
        exists k :: 0 <= k < NBUF && ring[k] == i && forall l :: k < l < NBUF ==> old(buf[ring[l]].refcnt) > 0
    {
      hide Coherent, Foremost, First;
      var key := Key(dev, blockno);
      InLatest(key);
      var b := FindCached(key);
      if b != HEAD {
        FirstAlone(buf[..], ring, b);
        Update(b, buf[b].(refcnt := buf[b].refcnt + 1));
      } else {
        ghost var k;
        b, k := FindUnused();
        if b == HEAD {
          AllBusy();
          return -1;
        }
        Update(b, buf[b].(dev := dev, blockno := blockno, valid := false, refcnt := 1));
      }
      book := book.(users := book.users[b := book.users[b] + 1]);
      i := b;
      GotCoherent(old(buf[..]), disk, old(book), buf[..], book, b, key);
      GotForemost(old(buf[..]), buf[..], ring, b);
    }

    lemma AllBusy()
      requires Valid() && forall l :: 0 <= l < |ring| ==> buf[ring[l]].refcnt > 0
      ensures forall j :: 0 <= j < NBUF ==> buf[j].refcnt > 0
    {
      forall j | 0 <= j < NBUF
        ensures buf[j].refcnt > 0
      {
        InRing(ring, j);
      }
    }

    /** acquiresleep by process p, once the lock is free. */
    method Lock(i: nat, p: nat)
      requires Valid() && i < NBUF && p != 0 && buf[i].owner == 0 && book.users[i] > 0
      modifies buf
      ensures Valid() && buf[..] == old(buf[..])[i := old(buf[i]).(owner := p)]
    {
      Update(i, buf[i].(owner := p));
      OneChanged(old(buf[..]), disk, book, buf[..], disk, book, i);
      ForemostKept(old(buf[..]), buf[..], ring, i);
    }

    /** Buffer i changed in fields that keep its key; the rest of the cache did not. */
    lemma OneChanged(b: seq<Buf>, disk: map<Key, Data>, book: Book, b': seq<Buf>, disk': map<Key, Data>, book': Book, i: nat)
      requires Coherent(b, disk, book) && i < NBUF && |b'| == NBUF + 1 && b' == b[i := b'[i]] && KeyOf(b'[i]) == KeyOf(b[i])
      requires Live(b[i])
      requires |book'.users| == |book'.pins| == NBUF && disk'.Keys == book'.latest.Keys == disk.Keys
      requires BufOk(b'[i], i, disk', book')
      requires forall j :: 0 <= j < NBUF && j != i ==>
        book'.users[j] == book.users[j] && book'.pins[j] == book.pins[j] && (j in book'.dirty <==> j in book.dirty)
      requires forall k :: k in disk && k != KeyOf(b[i]) ==> disk'[k] == disk[k] && book'.latest[k] == book.latest[k]
      requires i in book'.dirty || KeyOf(b[i]) !in disk || disk'[KeyOf(b[i])] == book'.latest[KeyOf(b[i])]
      requires forall j :: j in book'.dirty ==> j < NBUF
      ensures Coherent(b', disk', book')
    {
      forall j | 0 <= j < NBUF
        ensures BufOk(b'[j], j, disk', book')
      {
        assert BufOk(b[j], j, disk, book) && BufOk(b[i], i, disk, book);
      }
      forall k | k in disk' && disk'[k] != book'.latest[k]
        ensures exists j :: j in book'.dirty && j < NBUF && KeyOf(b'[j]) == k
      {
        if k == KeyOf(b[i]) {
          assert i in book'.dirty && KeyOf(b'[i]) == k;
        } else {
          var j :| j in book.dirty && j < NBUF && KeyOf(b[j]) == k;
          assert j in book'.dirty && KeyOf(b'[j]) == k;
        }
      }
    }

    /** The rest of bread: the buffer then holds what was last stored in its block. */
    method Fill(i: nat, p: nat)
      requires Valid() && i < NBUF && p != 0 && buf[i].owner == p
      modifies buf
      ensures Valid() && buf[i].valid && KeyOf(buf[i]) == KeyOf(old(buf[i]))
      ensures KeyOf(buf[i]) in book.latest && buf[i].data == book.latest[KeyOf(buf[i])]
      ensures buf[..] == old(buf[..])[i := old(buf[i]).(valid := true, data := buf[i].data)]
    {
      assert BufOk(buf[i], i, disk, book);
      if !buf[i].valid {
        DiskCurrent(i);
        Update(i, buf[i].(valid := true, data := disk[KeyOf(buf[i])]));
        OneChanged(old(buf[..]), disk, book, buf[..], disk, book, i);
        ForemostKept(old(buf[..]), buf[..], ring, i);
      } else {
        assert buf[..] == old(buf[..])[i := buf[i]];
      }
    }

    /** A block with no dirty buffer is up to date on disk. */
    lemma DiskCurrent(i: nat)
      requires Valid() && i < NBUF && i !in book.dirty && Live(buf[i]) && KeyOf(buf[i]) in disk
      ensures disk[KeyOf(buf[i])] == book.latest[KeyOf(buf[i])]
    {
    }

    /** The holder of a locked buffer changes its contents. */
    method Modify(i: nat, p: nat, d: Data)
      requires Valid() && i < NBUF && p != 0 && buf[i].owner == p && buf[i].valid
      modifies buf, this`book
      ensures Valid() && buf[..] == old(buf[..])[i := old(buf[i]).(data := d)]
      ensures KeyOf(buf[i]) in disk
      ensures book == old(book).(latest := old(book).latest[KeyOf(buf[i]) := d], dirty := old(book).dirty + {i})
    {
      assert BufOk(buf[i], i, disk, book);
      Update(i, buf[i].(data := d));
      book := book.(latest := book.latest[KeyOf(buf[i]) := d], dirty := book.dirty + {i});
      OneChanged(old(buf[..]), disk, old(book), buf[..], disk, book, i);
      ForemostKept(old(buf[..]), buf[..], ring, i);
    }

    /** ok is false for the "bwrite" panic. */
    method Bwrite(i: nat, p: nat) returns (ok: bool)
      requires Valid() && i < NBUF && p != 0 && buf[i].valid
      modifies this`disk, this`book
      ensures Valid() && (ok <==> buf[i].owner == p)
      ensures !ok ==> disk == old(disk) && book == old(book)
      ensures ok ==> disk == old(disk)[KeyOf(buf[i]) := buf[i].data] && book == old(book).(dirty := old(book).dirty - {i})
    {
      if buf[i].owner != p { return false; }
      assert BufOk(buf[i], i, disk, book);
      disk := disk[KeyOf(buf[i]) := buf[i].data];
      book := book.(dirty := book.dirty - {i});
      assert buf[..] == buf[..][i := buf[i]];
      OneChanged(buf[..], old(disk), old(book), buf[..], disk, book, i);
      return true;
    }

    method Bpin(i: nat)
      requires Valid() && i < NBUF && book.users[i] > 0
      modifies buf, this`book
      ensures Valid() && buf[..] == old(buf[..])[i := old(buf[i]).(refcnt := old(buf[i].refcnt) + 1)]
      ensures book == old(book).(pins := old(book).pins[i := old(book).pins[i] + 1])
    {
      assert BufOk(buf[i], i, disk, book);
      Update(i, buf[i].(refcnt := buf[i].refcnt + 1));
      book := book.(pins := book.pins[i := book.pins[i] + 1]);
      StillCurrent(old(buf[..]), disk, old(book), i);
      OneChanged(old(buf[..]), disk, old(book), buf[..], disk, book, i);
      ForemostKept(old(buf[..]), buf[..], ring, i);
    }

    lemma StillCurrent(b: seq<Buf>, disk: map<Key, Data>, book: Book, i: nat)
      requires Coherent(b, disk, book) && i < NBUF && Live(b[i])
      ensures i in book.dirty || KeyOf(b[i]) !in disk || disk[KeyOf(b[i])] == book.latest[KeyOf(b[i])]
    {
    }

    method Bunpin(i: nat)
      requires Valid() && i < NBUF && book.pins[i] > 0
      requires i in book.dirty ==> book.pins[i] > 1 || buf[i].owner != 0
      modifies buf, this`book
      ensures Valid() && old(buf[i].refcnt) > 0
      ensures buf[..] == old(buf[..])[i := old(buf[i]).(refcnt := old(buf[i].refcnt) - 1)]
      ensures book == old(book).(pins := old(book).pins[i := old(book).pins[i] - 1])
    {
      assert BufOk(buf[i], i, disk, book);
      Update(i, buf[i].(refcnt := buf[i].refcnt - 1));
      book := book.(pins := book.pins[i := book.pins[i] - 1]);
      StillCurrent(old(buf[..]), disk, old(book), i);
      OneChanged(old(buf[..]), disk, old(book), buf[..], disk, book, i);
      ForemostKept(old(buf[..]), buf[..], ring, i);
    }

    /** Take the buffer at position k out of the ring. */
    method Unlink(x: nat, ghost k: nat)
      requires buf.Length == NBUF + 1 && Linked(buf[..], ring) && k < |ring| && ring[k] == x
      modifies this`ring, buf
      ensures ring == Without(old(ring), k) && Linked(buf[..], ring) && x !in ring
      ensures forall j :: 0 <= j <= NBUF ==> buf[j] == old(buf[j]).(prev := buf[j].prev, next := buf[j].next)
    {
      UnlinkedRing(buf[..], ring, k);
      buf[buf[x].next] := buf[buf[x].next].(prev := buf[x].prev);
      buf[buf[x].prev] := buf[buf[x].prev].(next := buf[x].next);
      assert buf[..] == Unlinked(old(buf[..]), x);
      ring := Without(ring, k);
    }

    /** Coherence does not depend on the links. */
    lemma LinksAside(b: seq<Buf>, b': seq<Buf>, disk: map<Key, Data>, book: Book)
      requires Coherent(b, disk, book) && |b'| == |b|
      requires forall j :: 0 <= j <= NBUF ==> b'[j] == b[j].(prev := b'[j].prev, next := b'[j].next)
      ensures Coherent(b', disk, book)
    {
      forall j | 0 <= j < NBUF
        ensures BufOk(b'[j], j, disk, book)
      {
        assert BufOk(b[j], j, disk, book);
      }
      forall k | k in disk && disk[k] != book.latest[k]
        ensures exists j :: j in book.dirty && j < NBUF && KeyOf(b'[j]) == k
      {
        var j :| j in book.dirty && j < NBUF && KeyOf(b[j]) == k;
        assert KeyOf(b'[j]) == k;
      }
    }

    /** Move buffer x to the most recently used end. */
    method MoveToFront(x: nat) returns (ghost k: nat)
      requires Valid() && x < NBUF
      requires forall j :: 0 <= j < NBUF && j != x && Live(buf[j]) ==> KeyOf(buf[j]) != KeyOf(buf[x])
      modifies this`ring, buf
      ensures Valid() && k < NBUF && old(ring)[k] == x && ring == [x] + Without(old(ring), k)
      ensures forall j :: 0 <= j <= NBUF ==> buf[j] == old(buf[j]).(prev := buf[j].prev, next := buf[j].next)
    {
      hide Coherent, Foremost;
      InRing(ring, x);
      k :| 0 <= k < |ring| && ring[k] == x;
      Unlink(x, k);
      Insert(x);
      LinksAside(old(buf[..]), buf[..], disk, book);
      ForemostMoved(old(buf[..]), old(ring), k);
      ForemostLinks(old(buf[..]), buf[..], ring);
    }

    /** releasesleep by process p, after brelse's test; ok is false for the "brelse" panic. */
    method Unlock(i: nat, p: nat) returns (ok: bool)
      requires Valid() && i < NBUF && p != 0 && (i in book.dirty ==> book.pins[i] > 0)
      modifies buf
      ensures Valid() && (ok <==> old(buf[i].owner) == p)
      ensures buf[..] == if ok then old(buf[..])[i := old(buf[i]).(owner := 0)] else old(buf[..])
      ensures ok ==> book.users[i] > 0
    {
      if buf[i].owner != p { return false; }
      assert BufOk(buf[i], i, disk, book);
      StillCurrent(buf[..], disk, book, i);
      Update(i, buf[i].(owner := 0));
      OneChanged(old(buf[..]), disk, book, buf[..], disk, book, i);
      ForemostKept(old(buf[..]), buf[..], ring, i);
      return true;
    }

    /**
      The rest of brelse, by a process that has given up the buffer's lock; another
      may have taken it meanwhile, with a reference of its own. The last reference
      moves the buffer to the most recently used end.
     */
    method Unref(i: nat)
      requires Valid() && i < NBUF && book.users[i] > if buf[i].owner != 0 then 1 else 0
      modifies buf, this`ring, this`book
      ensures Valid() && book == old(book).(users := old(book).users[i := old(book).users[i] - 1])
      ensures old(buf[i].refcnt) > 0 && forall j :: 0 <= j < NBUF ==>
        buf[j] == (if j == i then old(buf[i]).(refcnt := old(buf[i].refcnt) - 1) else old(buf[j])).(prev := buf[j].prev, next := buf[j].next)
      ensures old(buf[i].refcnt) > 1 ==> ring == old(ring)
      ensures old(buf[i].refcnt) == 1 ==>
        exists k :: 0 <= k < |old(ring)| && old(ring)[k] == i && ring == [i] + Without(old(ring), k)
    {
      assert BufOk(buf[i], i, disk, book);
      StillCurrent(buf[..], disk, book, i);
      LiveFirst(buf[..], ring, i);
      FirstAlone(buf[..], ring, i);
      Update(i, buf[i].(refcnt := buf[i].refcnt - 1));
      book := book.(users := book.users[i := book.users[i] - 1]);
      OneChanged(old(buf[..]), disk, old(book), buf[..], disk, book, i);
      ForemostKept(old(buf[..]), buf[..], ring, i);
      if buf[i].refcnt == 0 {
        ghost var k := MoveToFront(i);
      }
    }

    /** Both in turn, with nothing in between. */
    method Brelse(i: nat, p: nat) returns (ok: bool)
      requires Valid() && i < NBUF && p != 0 && (i in book.dirty ==> book.pins[i] > 0)
      modifies buf, this`ring, this`book
      ensures Valid() && (ok <==> old(buf[i].owner) == p)
      ensures !ok ==> buf[..] == old(buf[..]) && ring == old(ring) && book == old(book)
      ensures ok ==> old(book).users[i] > 0 && book == old(book).(users := old(book).users[i := old(book).users[i] - 1])
      ensures ok ==> old(buf[i].refcnt) > 0 && forall j :: 0 <= j < NBUF ==>
        buf[j] == (if j == i then old(buf[i]).(owner := 0, refcnt := old(buf[i].refcnt) - 1) else old(buf[j]))
                  .(prev := buf[j].prev, next := buf[j].next)
      ensures ok && old(buf[i].refcnt) > 1 ==> ring == old(ring)
      ensures ok && old(buf[i].refcnt) == 1 ==>
        exists k :: 0 <= k < |old(ring)| && old(ring)[k] == i && ring == [i] + Without(old(ring), k)
    {
      hide Coherent, Foremost, Linked;
      ok := Unlock(i, p);
      if ok {
        assert buf[i] == old(buf[i]).(owner := 0);
        Unref(i);
      }
    }

    /** What bread did to buffer i, whose lock process p got: one reference more, the lock, and the latest contents. */
    ghost predicate Locked(b: seq<Buf>, book: Book, b': seq<Buf>, book': Book, i: nat, key: Key, p: nat)
      requires |b| == |b'| == NBUF + 1 && i < NBUF && |book.users| == NBUF && key in book.latest
    {
      && book' == book.(users := book.users[i := book.users[i] + 1]) && (KeyOf(b[i]) == key || b[i].refcnt == 0)
      && b' == b[i := Buf(true, key.dev, key.blockno, p, b[i].refcnt + 1, b[i].prev, b[i].next, book.latest[key])]
    }

    /**
      bread by process p: -1 is the "no buffers" panic, and locked is false when p has
      its reference but sleeps for another's lock.
     */
    method Bread(p: nat, dev: nat, blockno: nat) returns (i: int, locked: bool)
      requires Valid() && p != 0 && Key(dev, blockno) in disk
      modifies this`book, buf
      ensures Valid() && Key(dev, blockno) in old(book).latest
      ensures i == -1 <==> forall j :: 0 <= j < NBUF ==> old(buf[j].refcnt) > 0 && KeyOf(old(buf[j])) != Key(dev, blockno)
      ensures i == -1 ==> buf[..] == old(buf[..]) && book == old(book)
      ensures i != -1 ==> 0 <= i < NBUF && (locked <==> old(buf[i].owner) == 0)
      ensures i != -1 && locked ==> Locked(old(buf[..]), old(book), buf[..], book, i, Key(dev, blockno), p)
      ensures i != -1 && !locked ==> Got(old(buf[..]), old(book), buf[..], book, i, Key(dev, blockno))
      ensures i != -1 && KeyOf(old(buf[i])) != Key(dev, blockno) ==>
        exists k :: 0 <= k < NBUF && ring[k] == i && forall l :: k < l < NBUF ==> old(buf[ring[l]].refcnt) > 0
    {
      hide Foremost, Linked, Coherent;
      InLatest(Key(dev, blockno));
      i := Bget(dev, blockno);
      if i == -1 { return i, false; }
      if buf[i].owner != 0 { return i, false; }
      Referenced(i);
      Lock(i, p);
      Fill(i, p);
      locked := true;
    }

    lemma InLatest(key: Key)
      requires Valid() && key in disk
      ensures key in book.latest && |book.users| == NBUF
    {
    }

    lemma Referenced(i: nat)
      requires Valid() && i < NBUF && buf[i].refcnt > 0
      ensures |book.users| == NBUF
    {
    }

    /** bread and brelse with nobody else at the buffer: what the block holds, and every reference as it was. */
    method ReadOnce(p: nat, dev: nat, blockno: nat) returns (i: int, locked: bool, data: Data)
      requires Valid() && p != 0 && Key(dev, blockno) in disk
      modifies this`book, this`ring, buf
      ensures Valid() && Key(dev, blockno) in old(book).latest
      ensures i == -1 <==> forall j :: 0 <= j < NBUF ==> old(buf[j].refcnt) > 0 && KeyOf(old(buf[j])) != Key(dev, blockno)
      ensures i != -1 ==> 0 <= i < NBUF && (locked <==> old(buf[i].owner) == 0)
      ensures i != -1 && locked ==> data == old(book).latest[Key(dev, blockno)] && book == old(book)
      ensures i != -1 && locked ==> forall j :: 0 <= j < NBUF ==> buf[j].refcnt == old(buf[j].refcnt) && buf[j].owner == old(buf[j].owner)
    {
      hide Foremost, Linked, Coherent;
      ghost var users := book.users;
      data := seq(LogSpec.BLOCKWORDS, _ => 0);
      NotDirty();
      i, locked := Bread(p, dev, blockno);
      if i == -1 || !locked { return; }
      data := buf[i].data;
      var ok := Brelse(i, p);
      assert users[i := users[i] + 1][i := users[i]] == users;
    }

    lemma NotDirty()
      requires Valid()
      ensures |book.users| == |book.pins| == NBUF
      ensures forall i :: i in book.dirty ==> i < NBUF && (buf[i].owner == 0 ==> book.pins[i] > 0)
    {
      forall i | i in book.dirty
        ensures i < NBUF && (buf[i].owner == 0 ==> book.pins[i] > 0)
      {
        assert BufOk(buf[..][i], i, disk, book);
      }
    }

    /** Any number of reads of any blocks, one after the other, on a cache nobody uses: no panic, and nobody uses it afterwards. */
    method ReadMany(p: nat, keys: seq<Key>) returns (all: seq<Data>)
      requires Valid() && p != 0 && (forall k :: 0 <= k < |keys| ==> keys[k] in disk)
      requires forall j :: 0 <= j < NBUF ==> buf[j].refcnt == 0 && buf[j].owner == 0
      modifies this`book, this`ring, buf
      ensures Valid() && book == old(book) && |all| == |keys|
      ensures forall k :: 0 <= k < |keys| ==> keys[k] in book.latest && all[k] == book.latest[keys[k]]
      ensures forall j :: 0 <= j < NBUF ==> buf[j].refcnt == 0 && buf[j].owner == 0
    {
      assert buf.Length == NBUF + 1;
      hide Valid;
      all := [];
      while |all| < |keys|
        invariant |all| <= |keys| && Valid() && book == old(book)
        invariant forall k :: 0 <= k < |all| ==> keys[k] in book.latest && all[k] == book.latest[keys[k]]
        invariant buf.Length == NBUF + 1 && forall j :: 0 <= j < NBUF ==> buf[j].refcnt == 0 && buf[j].owner == 0
      {
        var key := keys[|all|];
        assert buf[0].refcnt == 0;
        var i, locked, data := ReadOnce(p, key.dev, key.blockno);
        all := all + [data];
      }
    }
  }
}
