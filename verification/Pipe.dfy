/**
  Pipes, pipe.c: a ring of PIPESIZE bytes with 32-bit counters. A method is what
  one process does between taking pi->lock and giving it up, so that any order
  of calls is an interleaving of readers and writers. The ghost histories hold
  every byte put into and taken out of the ring.
 */
module Pipe {

  const PIPESIZE := 512
  const WRAP := 0x1_0000_0000

  /** How a lock-held stretch ends: asleep on the channel, failed with -1, or returning its count. */
  datatype Outcome = Sleeps | Fails | Returns

  /** The bytes between the two counters are in the ring, in order. */
  ghost predicate Holds(ring: seq<char>, accepted: seq<char>, taken: nat) {
    && |ring| == PIPESIZE && taken <= |accepted| <= taken + PIPESIZE
    && forall i :: taken <= i < |accepted| ==> ring[i % PIPESIZE] == accepted[i]
  }

  lemma HoldsMore(ring: seq<char>, accepted: seq<char>, taken: nat, ch: char)
    requires Holds(ring, accepted, taken) && |accepted| < taken + PIPESIZE
    ensures Holds(ring[|accepted| % PIPESIZE := ch], accepted + [ch], taken)
  {
    var n := |accepted|;
    forall i | taken <= i < n
      ensures i % PIPESIZE != n % PIPESIZE
    {
      SlotsDiffer(i, n);
    }
  }

  lemma SlotsDiffer(i: nat, j: nat)
    requires i < j < i + PIPESIZE
    ensures i % PIPESIZE != j % PIPESIZE
  {
  }

  /** The counters modulo 2^32 still tell an empty and a full ring apart, and name the slot to use. */
  lemma Counters(wrote: nat, took: nat)
    requires took <= wrote <= took + PIPESIZE
    ensures (wrote % WRAP - took % WRAP) % WRAP == wrote - took
    ensures wrote % WRAP == took % WRAP <==> wrote == took
    ensures wrote % WRAP == (took % WRAP + PIPESIZE) % WRAP <==> wrote == took + PIPESIZE
    ensures wrote % WRAP % PIPESIZE == wrote % PIPESIZE
  {
    Slot(wrote);
  }

  lemma Slot(n: nat)
    ensures n % WRAP % PIPESIZE == n % PIPESIZE
  {
    var q := n / WRAP;
    assert n == q * WRAP + n % WRAP;
    assert n == (q * (WRAP / PIPESIZE)) * PIPESIZE + n % WRAP;
  }

  lemma Increment(n: nat)
    ensures (n % WRAP + 1) % WRAP == (n + 1) % WRAP
  {
  }

  class Pipe {
    const data: array<char>
    var nread: nat
    var nwrite: nat
    var readopen: bool
    var writeopen: bool
    var readers: set<nat>         // processes asleep on &pi->nread
    var writers: set<nat>         // processes asleep on &pi->nwrite
    ghost var accepted: seq<char>
    ghost var consumed: seq<char>

    ghost predicate Valid()
      reads this, data
    {
      && Holds(data[..], accepted, |consumed|) && consumed == accepted[..|consumed|]
      && nwrite == |accepted| % WRAP && nread == |consumed| % WRAP
      && (writers != {} ==> |accepted| == |consumed| + PIPESIZE && readopen)
    }

    /** A reader that sleeps has nothing to read, and a writer that may come. */
    ghost predicate ReadersWait()
      reads this
    {
      readers != {} ==> consumed == accepted && writeopen
    }

    constructor ()
      ensures Valid() && readopen && writeopen && accepted == [] && consumed == [] && fresh(data)
      ensures readers == {} && writers == {}
    {
      data := new char[PIPESIZE];
      nread, nwrite, readopen, writeopen := 0, 0, true, true;
      accepted, consumed := [], [];
      readers, writers := {}, {};
    }

    /** FIFO: what was consumed is a prefix of what was accepted, and the counters differ by what is in between. */
    lemma Fifo()
      requires Valid()
      ensures consumed <= accepted && |accepted| - |consumed| == (nwrite - nread) % WRAP <= PIPESIZE
    {
      Counters(|accepted|, |consumed|);
    }

    /** One byte into the ring. */
    method Put(ch: char)
      requires Valid() && |accepted| < |consumed| + PIPESIZE
      modifies this`nwrite, this`accepted, data
      ensures Valid() && accepted == old(accepted) + [ch]
    {
      Counters(|accepted|, |consumed|);
      Increment(|accepted|);
      HoldsMore(data[..], accepted, |consumed|, ch);
      data[nwrite % PIPESIZE] := ch;
      nwrite := (nwrite + 1) % WRAP;
      accepted := accepted + [ch];
    }

    /** One byte out of the ring. */
    method Get() returns (ch: char)
      requires Valid() && |consumed| < |accepted| && writers == {}
      modifies this`nread, this`consumed
      ensures Valid() && consumed == old(consumed) + [ch]
    {
      Slot(|consumed|);
      Increment(|consumed|);
      ch := data[nread % PIPESIZE];
      nread := (nread + 1) % WRAP;
      consumed := consumed + [ch];
      assert accepted[..|consumed|] == old(consumed) + [accepted[|old(consumed)|]];
    }

    /**
      pipewrite by process pid from its loop's head, with `start` bytes already
      accepted; copyin can read the first `readable` bytes, and a kill is seen after
      `alive` more bytes. Readers are woken unless the call fails, so that a reader
      is left asleep on a ring with bytes in it exactly by a call that fails after
      accepting some.
     */
    method PipeWrite(pid: nat, bytes: seq<char>, start: nat, readable: nat, alive: nat) returns (i: nat, out: Outcome)
      requires Valid() && start <= |bytes|
      modifies this`nwrite, this`accepted, this`readers, this`writers, data
      ensures Valid() && start <= i <= |bytes|
      ensures accepted == old(accepted) + bytes[start..i]
      ensures out == Returns <==> i == |bytes| || (readopen && i - start < alive && |accepted| < |consumed| + PIPESIZE && readable <= i)
      ensures out == Sleeps <==> i < |bytes| && readopen && i - start < alive && |accepted| == |consumed| + PIPESIZE
      ensures out == Fails <==> i < |bytes| && (!readopen || i - start >= alive)
      ensures i - start <= alive && (i == start || (readopen && i <= readable))
      ensures readers == if out == Fails then old(readers) else {}
      ensures writers == if out == Sleeps then old(writers) + {pid} else old(writers)
      ensures (out == Fails && i > start) <==>
        readopen && 0 < alive < |bytes| - start && start + alive <= readable && |old(accepted)| + alive <= |consumed| + PIPESIZE
      ensures old(ReadersWait()) ==> (ReadersWait() <==> !(out == Fails && i > start && old(readers) != {}))
    {
      i := start;
      assert bytes[start..i] == [];
      while i < |bytes|
        invariant Valid() && start <= i <= |bytes| && accepted == old(accepted) + bytes[start..i]
        invariant i - start <= alive && (i == start || (readopen && i <= readable))
        invariant readers == old(readers) && writers == old(writers)
      {
        Counters(|accepted|, |consumed|);
        if !readopen || i - start >= alive { return i, Fails; }
        if nwrite == (nread + PIPESIZE) % WRAP {
          readers := {};
          writers := writers + {pid};
          return i, Sleeps;
        }
        if i >= readable { break; }
        Put(bytes[i]);
        assert bytes[start..i] + [bytes[i]] == bytes[start..i + 1];
        i := i + 1;
      }
      readers := {};
      out := Returns;
    }

    /**
      piperead by process pid from its first loop's head; copyout can write the
      first `writable` bytes. A byte whose copyout fails is consumed and not counted.
      Writers are woken whenever the call returns.
     */
    method PipeRead(pid: nat, n: nat, writable: nat, killed: bool) returns (got: seq<char>, lost: bool, out: Outcome)
      requires Valid()
      modifies this`nread, this`consumed, this`readers, this`writers
      ensures Valid() && |got| <= n && |got| <= writable && (lost ==> |got| == writable)
      ensures lost <==> out == Returns && writable < n && writable < |accepted| - |old(consumed)|
      ensures old(consumed) + got <= consumed && |consumed| == |old(consumed)| + |got| + (if lost then 1 else 0)
      ensures out == Returns <==> old(consumed) != accepted || !writeopen
      ensures out != Returns ==> got == [] && !lost && (out == Fails <==> killed)
      ensures out == Returns && !lost ==> |got| == n || consumed == accepted
      ensures writers == if out == Returns then {} else old(writers)
      ensures readers == if out == Sleeps then old(readers) + {pid} else old(readers)
      ensures old(ReadersWait()) ==> ReadersWait()
    {
      got, lost := [], false;
      Counters(|accepted|, |consumed|);
      if nread == nwrite && writeopen {
        if killed { return got, lost, Fails; }
        readers := readers + {pid};
        return got, lost, Sleeps;
      }
      out := Returns;
      writers := {};   // wakeup comes after the copying loop, under the same lock
      while |got| < n
        invariant Valid() && |got| <= n && |got| <= writable && consumed == old(consumed) + got
        invariant writers == {} && readers == old(readers)
      {
        Counters(|accepted|, |consumed|);
        if nread == nwrite { break; }
        var ch := Get();
        if |got| >= writable {
          lost := true;
          break;
        }
        got := got + [ch];
      }
    }

    /** pipeclose: whoever waits for the closed end is woken; the page is freed when both ends are closed. */
    method PipeClose(writable: bool) returns (freed: bool)
      requires Valid()
      modifies this`readopen, this`writeopen, this`readers, this`writers
      ensures Valid() && freed == (!readopen && !writeopen)
      ensures writeopen == (old(writeopen) && !writable) && readopen == (old(readopen) && writable)
      ensures readers == (if writable then {} else old(readers)) && writers == (if writable then old(writers) else {})
      ensures old(ReadersWait()) ==> ReadersWait()
    {
      if writable {
        writeopen := false;
        readers := {};
      } else {
        readopen := false;
        writers := {};
      }
      freed := !readopen && !writeopen;
    }

    /** kill wakes a sleeping process. */
    method Kill(pid: nat)
      requires Valid()
      modifies this`readers, this`writers
      ensures Valid() && readers == old(readers) - {pid} && writers == old(writers) - {pid}
      ensures old(ReadersWait()) ==> ReadersWait()
    {
      readers, writers := readers - {pid}, writers - {pid};
    }
  }

  /** A reader waits, a writer is killed after its first byte: the reader sleeps on beside the byte. */
  method StrandReader() returns (p: Pipe)
    ensures fresh(p) && fresh(p.data) && p.Valid() && p.readers == {1} && p.accepted == "a" && p.consumed == [] && p.writeopen
  {
    p := new Pipe();
    var got, lost, out := p.PipeRead(1, 1, 1, false);
    var i;
    i, out := p.PipeWrite(2, "ab", 0, 2, 1);
    assert "ab"[0..1] == "a";
  }

  /** A byte is written, and read by a process whose buffer cannot be written: it is in the pipe no more and nobody has it. */
  method LoseByte() returns (p: Pipe, got: seq<char>, lost: bool)
    ensures fresh(p) && fresh(p.data) && p.Valid() && p.accepted == "a" && p.consumed == "a" && got == [] && lost
  {
    p := new Pipe();
    var i, out := p.PipeWrite(1, "a", 0, 1, 1);
    assert "a"[0..1] == "a";
    got, lost, out := p.PipeRead(2, 1, 0, false);
  }
}
