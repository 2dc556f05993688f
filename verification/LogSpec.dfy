/**
  The on-disk redo log: what recovery makes of a disk, which disks a commit
  passes through one block write at a time, and why a crash between any two of
  those writes (or of the writes of recovery itself) is harmless.
 */
module LogSpec {

  const BLOCKWORDS := 256   // BSIZE / sizeof(uint)
  const MAXOPBLOCKS := 10
  const LOGSIZE := MAXOPBLOCKS * 3

  /** A disk block, seen as its 256 words. */
  type Block = b: seq<int> | |b| == BLOCKWORDS witness seq(BLOCKWORDS, _ => 0)

  type Disk = seq<Block>

  /** `start` and `size` of struct log, and the number of blocks on the disk. */
  datatype Layout = Layout(start: nat, size: nat, total: nat) {

    predicate Valid() {
      1 <= size && start + size <= total
    }

    /** Block numbers outside the log area. */
    predicate Home(b: int) {
      0 <= b < total && !(start <= b < start + size)
    }

    /** How many entries a header can name. */
    function Capacity(): int {
      if LOGSIZE <= size - 1 then LOGSIZE else size - 1
    }
  }

  /** What commit is about to write: block numbers and their new contents. */
  datatype Txn = Txn(blocks: seq<int>, contents: seq<Block>) {

    ghost predicate Valid(L: Layout) {
      && |blocks| == |contents| <= L.Capacity()
      && AllHome(L, blocks)
      && (forall i, j :: 0 <= i < j < |blocks| ==> blocks[i] != blocks[j])
    }
  }

  // ----- the header block -----

  ghost predicate AllHome(L: Layout, targets: seq<int>) {
    forall i :: 0 <= i < |targets| ==> L.Home(targets[i])
  }

  ghost predicate WellFormed(L: Layout, d: Disk) {
    && L.Valid()
    && |d| == L.total
    && 0 <= d[L.start][0] <= L.Capacity()
    && AllHome(L, d[L.start][1..1 + d[L.start][0]])
  }

  ghost function HeadCount(L: Layout, d: Disk): nat
    requires WellFormed(L, d)
  {
    d[L.start][0]
  }

  ghost function Targets(L: Layout, d: Disk): (targets: seq<int>)
    requires WellFormed(L, d)
    ensures |targets| == HeadCount(L, d) <= L.Capacity() && AllHome(L, targets)
  {
    d[L.start][1..1 + HeadCount(L, d)]
  }

  /** write_head: entries past the count keep their old words. */
  ghost function Header(was: Block, blocks: seq<int>): Block
    requires |blocks| <= LOGSIZE
  {
    [|blocks|] + blocks + was[1 + |blocks|..]
  }

  ghost function WithHeader(L: Layout, d: Disk, blocks: seq<int>): Disk
    requires L.Valid() && |d| == L.total && |blocks| <= LOGSIZE
  {
    d[L.start := Header(d[L.start], blocks)]
  }

  // ----- recovery -----

  /** The disk after install_trans has copied the first k log blocks home. */
  ghost function Installed(L: Layout, d: Disk, targets: seq<int>, k: nat): (e: Disk)
    requires L.Valid() && |d| == L.total
    requires k <= |targets| <= L.Capacity() && AllHome(L, targets)
    ensures |e| == |d|
    ensures forall b :: L.start <= b < L.start + L.size ==> e[b] == d[b]
  {
    if k == 0 then d
    else
      var e := Installed(L, d, targets, k - 1);
      e[targets[k - 1] := e[L.start + k]]
  }

  /** The disk after the first k block writes of recover_from_log. */
  ghost function RecoveryState(L: Layout, d: Disk, k: nat): Disk
    requires WellFormed(L, d) && k <= HeadCount(L, d) + 1
  {
    if k <= HeadCount(L, d) then Installed(L, d, Targets(L, d), k)
    else WithHeader(L, Installed(L, d, Targets(L, d), k - 1), [])
  }

  ghost function Recovered(L: Layout, d: Disk): Disk
    requires WellFormed(L, d)
  {
    RecoveryState(L, d, HeadCount(L, d) + 1)
  }

  // ----- commit -----

  /** The disk after write_log has copied the first k blocks into the log. */
  ghost function Logged(L: Layout, d: Disk, t: Txn, k: nat): (e: Disk)
    requires L.Valid() && |d| == L.total && t.Valid(L) && k <= |t.blocks|
    ensures |e| == |d| && e[L.start] == d[L.start]
    ensures forall b :: L.Home(b) ==> e[b] == d[b]
    ensures forall i :: 0 <= i < k ==> e[L.start + 1 + i] == t.contents[i]
  {
    if k == 0 then d else Logged(L, d, t, k - 1)[L.start + k := t.contents[k - 1]]
  }

  ghost function Committed(L: Layout, d: Disk, t: Txn): Disk
    requires L.Valid() && |d| == L.total && t.Valid(L)
  {
    WithHeader(L, Logged(L, d, t, |t.blocks|), t.blocks)
  }

  /** How many block writes commit() makes for a transaction of n blocks. */
  ghost function CommitWrites(n: nat): nat {
    if n == 0 then 0 else 2 * n + 2
  }

  /** The disk after the first k block writes of commit(). */
  ghost function CommitState(L: Layout, d: Disk, t: Txn, k: nat): Disk
    requires L.Valid() && |d| == L.total && t.Valid(L)
    requires k <= CommitWrites(|t.blocks|)
  {
    var n := |t.blocks|;
    if k <= n then Logged(L, d, t, k)
    else if k <= 2 * n + 1 then Installed(L, Committed(L, d, t), t.blocks, k - n - 1)
    else WithHeader(L, Installed(L, Committed(L, d, t), t.blocks, n), [])
  }

  /** Each disk of a recovery is the one before it with a single block replaced. */
  lemma RecoveryStateNext(L: Layout, d: Disk, k: nat)
    requires WellFormed(L, d) && k <= HeadCount(L, d)
    ensures
      var c := RecoveryState(L, d, k);
      RecoveryState(L, d, k + 1) ==
        if k < HeadCount(L, d) then c[Targets(L, d)[k] := c[L.start + 1 + k]] else WithHeader(L, c, [])
  {
  }

  /** Each disk of a commit is the one before it with a single block replaced. */
  lemma CommitStateNext(L: Layout, d: Disk, t: Txn, k: nat)
    requires L.Valid() && |d| == L.total && t.Valid(L)
    requires |t.blocks| > 0 && k < CommitWrites(|t.blocks|)
    ensures
      var n, c := |t.blocks|, CommitState(L, d, t, k);
      CommitState(L, d, t, k + 1) ==
        if k < n then c[L.start + 1 + k := t.contents[k]]
        else if k == n then WithHeader(L, c, t.blocks)
        else if k <= 2 * n then c[t.blocks[k - n - 1] := c[L.start + k - n]]
        else WithHeader(L, c, [])
  {
  }

  // ----- the disks passed through, in order -----

  ghost function LogTrace(L: Layout, d: Disk, t: Txn, k: nat): (tr: seq<Disk>)
    requires L.Valid() && |d| == L.total && t.Valid(L) && k <= |t.blocks|
    ensures |tr| == k
  {
    if k == 0 then [] else LogTrace(L, d, t, k - 1) + [Logged(L, d, t, k)]
  }

  ghost function InstallTrace(L: Layout, d: Disk, targets: seq<int>, k: nat): (tr: seq<Disk>)
    requires L.Valid() && |d| == L.total
    requires k <= |targets| <= L.Capacity() && AllHome(L, targets)
    ensures |tr| == k
  {
    if k == 0 then [] else InstallTrace(L, d, targets, k - 1) + [Installed(L, d, targets, k)]
  }

  ghost function RecoveryTrace(L: Layout, d: Disk): (tr: seq<Disk>)
    requires WellFormed(L, d)
    ensures |tr| == HeadCount(L, d) + 1
  {
    InstallTrace(L, d, Targets(L, d), HeadCount(L, d)) + [Recovered(L, d)]
  }

  ghost function CommitTrace(L: Layout, d: Disk, t: Txn): (tr: seq<Disk>)
    requires L.Valid() && |d| == L.total && t.Valid(L)
    ensures |tr| == CommitWrites(|t.blocks|)
  {
    var n := |t.blocks|;
    if n == 0 then []
    else
      var c := Committed(L, d, t);
      LogTrace(L, d, t, n) + [c] + InstallTrace(L, c, t.blocks, n) + [WithHeader(L, Installed(L, c, t.blocks, n), [])]
  }

  lemma {:induction false} LogTraceAt(L: Layout, d: Disk, t: Txn, n: nat, k: nat)
    requires L.Valid() && |d| == L.total && t.Valid(L) && 1 <= k <= n <= |t.blocks|
    ensures LogTrace(L, d, t, n)[k - 1] == Logged(L, d, t, k)
  {
    if k < n { LogTraceAt(L, d, t, n - 1, k); }
  }

  lemma {:induction false} InstallTraceAt(L: Layout, d: Disk, targets: seq<int>, n: nat, k: nat)
    requires L.Valid() && |d| == L.total
    requires 1 <= k <= n <= |targets| <= L.Capacity() && AllHome(L, targets)
    ensures InstallTrace(L, d, targets, n)[k - 1] == Installed(L, d, targets, k)
  {
    if k < n { InstallTraceAt(L, d, targets, n - 1, k); }
  }

  /** The k-th disk that recovery passes through. */
  lemma RecoveryTraceAt(L: Layout, d: Disk, k: nat)
    requires WellFormed(L, d) && 1 <= k <= HeadCount(L, d) + 1
    ensures RecoveryTrace(L, d)[k - 1] == RecoveryState(L, d, k)
  {
    if k <= HeadCount(L, d) { InstallTraceAt(L, d, Targets(L, d), HeadCount(L, d), k); }
  }

  /** The k-th disk that commit passes through. */
  lemma CommitTraceAt(L: Layout, d: Disk, t: Txn, k: nat)
    requires L.Valid() && |d| == L.total && t.Valid(L)
    requires 1 <= k <= CommitWrites(|t.blocks|)
    ensures CommitTrace(L, d, t)[k - 1] == CommitState(L, d, t, k)
  {
    var n := |t.blocks|;
    if k <= n {
      LogTraceAt(L, d, t, n, k);
    } else if n + 1 < k <= 2 * n + 1 {
      InstallTraceAt(L, Committed(L, d, t), t.blocks, n, k - n - 1);
    }
  }

  // ----- home blocks -----

  ghost predicate SameHome(L: Layout, d: Disk, e: Disk) {
    |d| == |e| == L.total && forall b :: L.Home(b) ==> d[b] == e[b]
  }

  /** The disk with every block of the transaction replaced at its home. */
  ghost function Updated(L: Layout, d: Disk, t: Txn): (e: Disk)
    requires L.Valid() && |d| == L.total && t.Valid(L)
    ensures |e| == |d|
  {
    seq(|d|, b requires 0 <= b < |d| =>
      if b in t.blocks then var i :| 0 <= i < |t.blocks| && t.blocks[i] == b; t.contents[i] else d[b])
  }

  // ----- proofs -----

  /** The last of the first k targets that is b, or -1. */
  ghost function LastIndex(targets: seq<int>, k: nat, b: int): (i: int)
    requires k <= |targets|
    ensures -1 <= i < k
    ensures i >= 0 ==> targets[i] == b
    ensures forall j :: i < j < k ==> targets[j] != b
  {
    if k == 0 then -1 else if targets[k - 1] == b then k - 1 else LastIndex(targets, k - 1, b)
  }

  /** A home block ends up with the log block of the last entry naming it. */
  lemma {:induction false} InstalledAt(L: Layout, d: Disk, targets: seq<int>, k: nat, b: int)
    requires L.Valid() && |d| == L.total
    requires k <= |targets| <= L.Capacity() && AllHome(L, targets)
    requires L.Home(b)
    ensures Installed(L, d, targets, k)[b] ==
            if LastIndex(targets, k, b) >= 0 then d[L.start + 1 + LastIndex(targets, k, b)] else d[b]
  {
    if k > 0 { InstalledAt(L, d, targets, k - 1, b); }
  }

  /** Recovery that starts from a partly installed disk names the same blocks and fills them alike. */
  lemma ReinstalledAt(L: Layout, d: Disk, targets: seq<int>, k: nat, b: int)
    requires L.Valid() && |d| == L.total
    requires k <= |targets| <= L.Capacity() && AllHome(L, targets)
    requires L.Home(b)
    ensures Installed(L, Installed(L, d, targets, k), targets, |targets|)[b] ==
            Installed(L, d, targets, |targets|)[b]
  {
    InstalledAt(L, d, targets, |targets|, b);
    InstalledAt(L, d, targets, k, b);
    InstalledAt(L, Installed(L, d, targets, k), targets, |targets|, b);
  }

  /** Recovery may be cut off after any of its writes and started again. */
  lemma RecoveryRestarts(L: Layout, d: Disk, k: nat)
    requires WellFormed(L, d) && k <= HeadCount(L, d) + 1
    ensures WellFormed(L, RecoveryState(L, d, k))
    ensures SameHome(L, Recovered(L, RecoveryState(L, d, k)), Recovered(L, d))
  {
    var n, t, e := HeadCount(L, d), Targets(L, d), RecoveryState(L, d, k);
    if k <= n {
      assert e[L.start] == d[L.start];
      forall b | L.Home(b)
        ensures Installed(L, e, t, n)[b] == Installed(L, d, t, n)[b]
      {
        ReinstalledAt(L, d, t, k, b);
      }
    } else {
      CleanRecovery(L, e);
    }
  }

  /** `chain` is what is on disk after each of a series of interrupted recoveries. */
  ghost predicate Interrupted(L: Layout, d: Disk, chain: seq<nat>)
    requires WellFormed(L, d)
    decreases |chain|
  {
    chain == [] ||
    (&& chain[0] <= HeadCount(L, d) + 1
     && WellFormed(L, RecoveryState(L, d, chain[0]))
     && Interrupted(L, RecoveryState(L, d, chain[0]), chain[1..]))
  }

  ghost function AfterInterruptions(L: Layout, d: Disk, chain: seq<nat>): (e: Disk)
    requires WellFormed(L, d) && Interrupted(L, d, chain)
    ensures WellFormed(L, e)
    decreases |chain|
  {
    if chain == [] then d else AfterInterruptions(L, RecoveryState(L, d, chain[0]), chain[1..])
  }

  /** However many recoveries are cut off, the one that completes gives the same home blocks. */
  lemma {:induction false} RecoverySurvivesCrashes(L: Layout, d: Disk, chain: seq<nat>)
    requires WellFormed(L, d) && Interrupted(L, d, chain)
    ensures SameHome(L, Recovered(L, AfterInterruptions(L, d, chain)), Recovered(L, d))
    ensures HeadCount(L, Recovered(L, AfterInterruptions(L, d, chain))) == 0
    decreases |chain|
  {
    if chain != [] {
      RecoveryRestarts(L, d, chain[0]);
      RecoverySurvivesCrashes(L, RecoveryState(L, d, chain[0]), chain[1..]);
    }
  }

  /** An empty header makes recovery change no home block. */
  lemma CleanRecovery(L: Layout, d: Disk)
    requires WellFormed(L, d) && HeadCount(L, d) == 0
    ensures SameHome(L, Recovered(L, d), d)
  {
  }

  lemma CommittedIsWellFormed(L: Layout, d: Disk, t: Txn)
    requires L.Valid() && |d| == L.total && t.Valid(L)
    ensures WellFormed(L, Committed(L, d, t))
    ensures Targets(L, Committed(L, d, t)) == t.blocks
  {
    var h := Committed(L, d, t)[L.start];
    assert forall i :: 0 <= i < |t.blocks| ==> h[1 + i] == t.blocks[i];
  }

  /** Installing a committed transaction replaces exactly its blocks. */
  lemma InstalledIsUpdated(L: Layout, d: Disk, t: Txn)
    requires L.Valid() && |d| == L.total && t.Valid(L)
    ensures SameHome(L, Installed(L, Committed(L, d, t), t.blocks, |t.blocks|), Updated(L, d, t))
  {
    forall b | L.Home(b)
      ensures Installed(L, Committed(L, d, t), t.blocks, |t.blocks|)[b] == Updated(L, d, t)[b]
    {
      InstalledAt(L, Committed(L, d, t), t.blocks, |t.blocks|, b);
    }
  }

  /** From the header write on, commit passes through the disks recovery would. */
  lemma CommitFollowsRecovery(L: Layout, d: Disk, t: Txn, k: nat)
    requires L.Valid() && |d| == L.total && t.Valid(L)
    requires |t.blocks| < k <= CommitWrites(|t.blocks|)
    ensures WellFormed(L, Committed(L, d, t))
    ensures HeadCount(L, Committed(L, d, t)) == |t.blocks|
    ensures CommitState(L, d, t, k) == RecoveryState(L, Committed(L, d, t), k - |t.blocks| - 1)
  {
    CommittedIsWellFormed(L, d, t);
  }

  /** Recovering a committed transaction replaces exactly its blocks. */
  lemma CommittedRecovers(L: Layout, d: Disk, t: Txn)
    requires L.Valid() && |d| == L.total && t.Valid(L)
    ensures WellFormed(L, Committed(L, d, t))
    ensures SameHome(L, Recovered(L, Committed(L, d, t)), Updated(L, d, t))
  {
    CommittedIsWellFormed(L, d, t);
    InstalledIsUpdated(L, d, t);
  }

  /**
    A crash after any k of commit's block writes, followed by recovery, leaves
    every home block as it was, or every block of the transaction installed; the
    latter exactly when the header write, number n + 1, reached the disk.
   */
  lemma CommitIsAtomic(L: Layout, d: Disk, t: Txn, k: nat)
    requires WellFormed(L, d) && HeadCount(L, d) == 0
    requires t.Valid(L) && k <= CommitWrites(|t.blocks|)
    ensures WellFormed(L, CommitState(L, d, t, k))
    ensures SameHome(L, Recovered(L, CommitState(L, d, t, k)),
                     if k <= |t.blocks| then d else Updated(L, d, t))
    ensures k == CommitWrites(|t.blocks|) ==> HeadCount(L, CommitState(L, d, t, k)) == 0
  {
    hide RecoveryState, Recovered, Updated;
    var n := |t.blocks|;
    if k <= n {
      CleanRecovery(L, CommitState(L, d, t, k));
    } else {
      CommitFollowsRecovery(L, d, t, k);
      CommittedRecovers(L, d, t);
      RecoveryRestarts(L, Committed(L, d, t), k - n - 1);
    }
  }

  /** Crash atomicity of one commit under any number of further crashes. */
  lemma CommitSurvivesCrashes(L: Layout, d: Disk, t: Txn, k: nat, chain: seq<nat>)
    requires WellFormed(L, d) && HeadCount(L, d) == 0
    requires t.Valid(L) && k <= CommitWrites(|t.blocks|)
    requires WellFormed(L, CommitState(L, d, t, k)) && Interrupted(L, CommitState(L, d, t, k), chain)
    ensures SameHome(L, Recovered(L, AfterInterruptions(L, CommitState(L, d, t, k), chain)),
                     if k <= |t.blocks| then d else Updated(L, d, t))
  {
    CommitIsAtomic(L, d, t, k);
    RecoverySurvivesCrashes(L, CommitState(L, d, t, k), chain);
  }

  // ----- absorption -----

  /** The disk is one that recovers to the home blocks of d, or of e. */
  ghost predicate RecoversTo(L: Layout, disk: Disk, d: Disk, e: Disk) {
    WellFormed(L, disk) && (SameHome(L, Recovered(L, disk), d) || SameHome(L, Recovered(L, disk), e))
  }

  /** Every disk a commit passes through recovers to the old home blocks or to all of the new ones. */
  lemma CommitTraceRecovers(L: Layout, d: Disk, t: Txn)
    requires WellFormed(L, d) && HeadCount(L, d) == 0 && t.Valid(L)
    ensures forall i :: 0 <= i < |CommitTrace(L, d, t)| ==> RecoversTo(L, CommitTrace(L, d, t)[i], d, Updated(L, d, t))
  {
    hide CommitTrace, CommitState, Recovered, Updated, SameHome;
    forall i | 0 <= i < |CommitTrace(L, d, t)|
      ensures RecoversTo(L, CommitTrace(L, d, t)[i], d, Updated(L, d, t))
    {
      CommitTraceAt(L, d, t, i + 1);
      CommitIsAtomic(L, d, t, i + 1);
    }
  }

  /** Every disk a recovery passes through recovers to what the recovery was going to give. */
  lemma RecoveryTraceRecovers(L: Layout, d: Disk)
    requires WellFormed(L, d)
    ensures forall i :: 0 <= i < |RecoveryTrace(L, d)| ==> RecoversTo(L, RecoveryTrace(L, d)[i], Recovered(L, d), Recovered(L, d))
  {
    hide RecoveryTrace, RecoveryState, Recovered, SameHome;
    forall i | 0 <= i < |RecoveryTrace(L, d)|
      ensures RecoversTo(L, RecoveryTrace(L, d)[i], Recovered(L, d), Recovered(L, d))
    {
      RecoveryTraceAt(L, d, i + 1);
      RecoveryRestarts(L, d, i + 1);
    }
  }

  /** log_write on the pending transaction: replace the contents, or append. */
  ghost function Absorbed(t: Txn, b: int, data: Block): Txn
    requires |t.blocks| == |t.contents|
  {
    if b in t.blocks then
      var i :| 0 <= i < |t.blocks| && t.blocks[i] == b;
      t.(contents := t.contents[i := data])
    else
      Txn(t.blocks + [b], t.contents + [data])
  }

  /** Absorption loses nothing: installing the result is installing the old one, then b. */
  lemma AbsorbedUpdates(L: Layout, d: Disk, t: Txn, b: int, data: Block)
    requires L.Valid() && |d| == L.total && t.Valid(L)
    requires L.Home(b) && |t.blocks| < L.Capacity()
    ensures Absorbed(t, b, data).Valid(L)
    ensures Updated(L, d, Absorbed(t, b, data)) == Updated(L, d, t)[b := data]
  {
    var t' := Absorbed(t, b, data);
    if b !in t.blocks {
      assert t'.blocks[|t.blocks|] == b;
      assert forall i :: 0 <= i < |t.blocks| ==> t'.blocks[i] == t.blocks[i] && t'.contents[i] == t.contents[i];
    }
  }

  /** The cached contents of the listed blocks. */
  ghost function ContentsOf(cache: map<int, Block>, blocks: seq<int>): (c: seq<Block>)
    requires forall i :: 0 <= i < |blocks| ==> blocks[i] in cache
    ensures |c| == |blocks|
    ensures forall i :: 0 <= i < |blocks| ==> c[i] == cache[blocks[i]]
  {
    seq(|blocks|, i requires 0 <= i < |blocks| => cache[blocks[i]])
  }

  /** The in-memory header and cache after log_write hold the absorbed transaction. */
  lemma AbsorbedContents(cache: map<int, Block>, blocks: seq<int>, b: int, data: Block, i: nat)
    requires forall j :: 0 <= j < |blocks| ==> blocks[j] in cache
    requires forall j, k :: 0 <= j < k < |blocks| ==> blocks[j] != blocks[k]
    requires i <= |blocks| && b !in blocks[..i] && (i < |blocks| ==> blocks[i] == b)
    ensures var cache' := cache[b := data];
            var blocks' := if i < |blocks| then blocks else blocks + [b];
            && (forall j :: 0 <= j < |blocks'| ==> blocks'[j] in cache')
            && Absorbed(Txn(blocks, ContentsOf(cache, blocks)), b, data) == Txn(blocks', ContentsOf(cache', blocks'))
  {
    var t := Txn(blocks, ContentsOf(cache, blocks));
    var blocks' := if i < |blocks| then blocks else blocks + [b];
    assert blocks[..|blocks|] == blocks;
    assert Absorbed(t, b, data).contents == ContentsOf(cache[b := data], blocks');
  }
}
