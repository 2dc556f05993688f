/**
  Group commit as a state machine: any number of processes run begin_op,
  log_write and end_op in any order, the last one to leave commits, and the
  machine may crash between any two block writes, of commit or of recovery.
 */
module GroupCommit {
  import opened LogSpec

  type Pid = nat

  /** One FS system call between begin_op and end_op, and the blocks it has logged. */
  datatype Op = Op(id: nat, logged: set<int>)

  /** A log_write, with the system call that made it. */
  datatype Write = Write(op: nat, b: int, data: Block)

  datatype Panic = Fine | TooBig | OutsideTransaction | CommittingTwice

  /**
    Where the machine is: serving system calls; inside commit() with k block
    writes done since the disk was `base`; after commit() but before
    log.committing is cleared; or in recovery, k block writes after boot.
   */
  datatype Phase = Running | Writing(base: Disk, k: nat) | Written | Recovering(base: Disk, k: nat)

  datatype State = State(
    disk: Disk,
    blocks: seq<int>,            // log.lh.block[..log.lh.n]
    cache: map<int, Block>,      // contents of the pinned buffers
    outstanding: int,            // log.outstanding
    phase: Phase,
    active: map<Pid, Op>,        // processes between begin_op and end_op
    asleep: set<Pid>,            // processes sleeping in begin_op
    panic: Panic,
    // history, for the specification
    next: nat,                   // fresh system-call number
    ended: set<nat>,             // system calls that have passed end_op
    durable: seq<Write>,         // writes of committed transactions
    pending: seq<Write>,         // writes since the last commit point
    lost: seq<Write>)            // writes dropped by a crash

  predicate Committing(s: State) {
    s.phase.Writing? || s.phase.Written?
  }

  datatype Step =
    | BeginSleep(p: Pid)
    | BeginAdmit(p: Pid)
    | LogWrite(p: Pid, b: int, data: Block)
    | EndOp(p: Pid)
    | CommitWrite
    | CommitDone
    | Crash
    | RecoverWrite

  ghost function Start(d: Disk): State {
    State(d, [], map[], 0, Recovering(d, 0), map[], {}, Fine, 0, {}, [], [], [])
  }

  /** begin_op's second test: this op might exhaust log space. */
  predicate NoRoom(s: State) {
    |s.blocks| + (s.outstanding + 1) * MAXOPBLOCKS > LOGSIZE
  }

  /** `limit` bounds the distinct blocks that one system call logs. */
  ghost predicate Enabled(L: Layout, limit: nat, s: State, step: Step) {
    (step.Crash? || s.panic == Fine) &&
    match step
    case BeginSleep(p) =>
      !s.phase.Recovering? && p !in s.active && p !in s.asleep && (Committing(s) || NoRoom(s))
    case BeginAdmit(p) =>
      !s.phase.Recovering? && p !in s.active && p !in s.asleep && !Committing(s) && !NoRoom(s)
    case LogWrite(p, b, data) => p in s.active && L.Home(b) && |s.active[p].logged + {b}| <= limit
    case EndOp(p) => p in s.active
    case CommitWrite => s.phase.Writing?
    case CommitDone => s.phase.Written?
    case Crash => true
    case RecoverWrite => s.phase.Recovering?
  }

  ghost predicate Shape(L: Layout, s: State) {
    && L.Valid() && |s.disk| == L.total && WellFormed(L, s.disk)
    && |s.blocks| <= L.Capacity() && AllHome(L, s.blocks)
    && (forall i, j :: 0 <= i < j < |s.blocks| ==> s.blocks[i] != s.blocks[j])
    && (forall i :: 0 <= i < |s.blocks| ==> s.blocks[i] in s.cache)
    && (s.phase.Writing? ==> s.phase.k <= 2 * |s.blocks| + 1 && WellFormed(L, s.phase.base))
    && (s.phase.Recovering? ==> WellFormed(L, s.phase.base) && s.phase.k <= HeadCount(L, s.phase.base))
  }

  ghost function TxnOf(L: Layout, s: State): (t: Txn)
    requires Shape(L, s)
    ensures t.Valid(L)
  {
    Txn(s.blocks, ContentsOf(s.cache, s.blocks))
  }

  ghost function Admitted(s: State, p: Pid): State {
    s.(outstanding := s.outstanding + 1, active := s.active[p := Op(s.next, {})], next := s.next + 1)
  }

  ghost function Wrote(s: State, p: Pid, b: int, data: Block): State
    requires p in s.active
  {
    var op := s.active[p];
    s.(blocks := if b in s.blocks then s.blocks else s.blocks + [b],
       cache := s.cache[b := data],
       active := s.active[p := op.(logged := op.logged + {b})],
       pending := s.pending + [Write(op.id, b, data)])
  }

  ghost function Ended(s: State, p: Pid): State
    requires p in s.active
  {
    var s' := s.(outstanding := s.outstanding - 1, active := s.active - {p}, ended := s.ended + {s.active[p].id});
    if Committing(s) then s'.(panic := CommittingTwice)
    else if s'.outstanding == 0 then s'.(phase := Writing(s.disk, 0))
    else s'.(asleep := {})
  }

  /** The next block write of commit(), from the cache and the disk as they are now. */
  ghost function CommitWrote(L: Layout, s: State): State
    requires Shape(L, s) && s.phase.Writing?
  {
    var n, k := |s.blocks|, s.phase.k;
    var go := s.(phase := Writing(s.phase.base, k + 1));
    if n == 0 then s.(phase := Written)
    else if k < n then go.(disk := s.disk[L.start + 1 + k := s.cache[s.blocks[k]]])
    else if k == n then
      go.(disk := WithHeader(L, s.disk, s.blocks), durable := s.durable + s.pending, pending := [])
    else if k <= 2 * n then
      go.(disk := s.disk[s.blocks[k - n - 1] := s.disk[L.start + k - n]])
    else s.(disk := WithHeader(L, s.disk, []), blocks := [], cache := map[], phase := Written)
  }

  /** The next block write of recover_from_log. */
  ghost function RecoverWrote(L: Layout, s: State): State
    requires Shape(L, s) && s.phase.Recovering?
  {
    var targets, k := Targets(L, s.phase.base), s.phase.k;
    if k < |targets| then
      s.(disk := s.disk[targets[k] := s.disk[L.start + 1 + k]], phase := Recovering(s.phase.base, k + 1))
    else
      s.(disk := WithHeader(L, s.disk, []), phase := Running)
  }

  /** Memory is gone; what is on disk, and the history, remain. */
  ghost function Rebooted(s: State): State {
    State(s.disk, [], map[], 0, Recovering(s.disk, 0), map[], {}, Fine,
          s.next, s.ended, s.durable, [], s.lost + s.pending)
  }

  ghost function Apply(L: Layout, limit: nat, s: State, step: Step): State
    requires Shape(L, s) && Enabled(L, limit, s, step)
  {
    match step
    case BeginSleep(p) => s.(asleep := s.asleep + {p})
    case BeginAdmit(p) => Admitted(s, p)
    case LogWrite(p, b, data) =>
      if |s.blocks| >= LOGSIZE || |s.blocks| >= L.size - 1 then s.(panic := TooBig)
      else if s.outstanding < 1 then s.(panic := OutsideTransaction)
      else Wrote(s, p, b, data)
    case EndOp(p) => Ended(s, p)
    case CommitWrite => CommitWrote(L, s)
    case CommitDone => s.(phase := Running, asleep := {})
    case Crash => Rebooted(s)
    case RecoverWrite => RecoverWrote(L, s)
  }

  // ----- the invariant -----

  ghost predicate WritesHome(L: Layout, ws: seq<Write>) {
    forall i :: 0 <= i < |ws| ==> L.Home(ws[i].b)
  }

  /** The disk after a series of writes, each taking effect at its home at once. */
  ghost function Replay(L: Layout, d: Disk, ws: seq<Write>): (e: Disk)
    requires |d| == L.total && WritesHome(L, ws)
    ensures |e| == |d|
  {
    if ws == [] then d
    else Replay(L, d, ws[..|ws| - 1])[ws[|ws| - 1].b := ws[|ws| - 1].data]
  }

  ghost function OpsIn(ws: seq<Write>): set<nat> {
    set i | 0 <= i < |ws| :: ws[i].op
  }

  ghost function ActiveIds(s: State): set<nat> {
    set p | p in s.active :: s.active[p].id
  }

  ghost predicate Below(ids: set<nat>, n: nat) {
    forall id :: id in ids ==> id < n
  }

  /** log.outstanding counts the active system calls, and only a running log has any. */
  ghost predicate Counted(s: State) {
    && s.outstanding == |s.active|
    && (!s.phase.Running? ==> s.active == map[])
    && (s.phase.Running? && s.outstanding == 0 ==> s.blocks == [] && s.asleep == {})
    && (s.phase.Recovering? ==> s.asleep == {})
    && (s.asleep != {} ==> Committing(s) || NoRoom(s))
    && (s.phase.Recovering? || s.phase.Written? || s.blocks == [] ==> s.blocks == [] && s.pending == [])
    && (s.phase.Writing? && s.phase.k > |s.blocks| ==> s.pending == [])
    && (forall p :: p in s.active ==> forall b :: b in s.active[p].logged ==> b in s.blocks)
  }

  /** A system call with a durable write has ended and has no other write pending or lost. */
  ghost predicate Whole(s: State) {
    && OpsIn(s.durable) <= s.ended
    && OpsIn(s.pending) <= s.ended + ActiveIds(s)
    && OpsIn(s.durable) !! OpsIn(s.pending) + OpsIn(s.lost)
    && OpsIn(s.lost) !! OpsIn(s.pending) + ActiveIds(s)
    && s.ended !! ActiveIds(s)
    && Below(s.ended, s.next) && Below(ActiveIds(s), s.next) && Below(OpsIn(s.lost), s.next)
    && (forall p, q :: p in s.active && q in s.active && p != q ==> s.active[p].id != s.active[q].id)
  }

  /** The home blocks on disk, and what they would become, in terms of the writes made. */
  ghost predicate Tracks(L: Layout, origin: Disk, s: State)
    requires Shape(L, s) && |origin| == L.total && WritesHome(L, s.durable) && WritesHome(L, s.pending)
  {
    var t := TxnOf(L, s);
    match s.phase
    case Recovering(base, k) =>
      s.disk == RecoveryState(L, base, k) && SameHome(L, Recovered(L, base), Replay(L, origin, s.durable))
    case Writing(base, k) =>
      && HeadCount(L, base) == 0
      && (if |s.blocks| == 0 then s.disk == base && k == 0 else s.disk == CommitState(L, base, t, k))
      && (k <= |s.blocks| ==> SameHome(L, base, Replay(L, origin, s.durable)))
      && SameHome(L, Updated(L, base, t), Replay(L, origin, s.durable + s.pending))
    case _ =>
      && HeadCount(L, s.disk) == 0
      && SameHome(L, s.disk, Replay(L, origin, s.durable))
      && SameHome(L, Updated(L, s.disk, t), Replay(L, origin, s.durable + s.pending))
  }

  ghost predicate Inv(L: Layout, origin: Disk, s: State) {
    && Shape(L, s) && |origin| == L.total
    && WritesHome(L, s.durable) && WritesHome(L, s.pending)
    && Counted(s) && Whole(s) && Tracks(L, origin, s)
  }

  /** In any state of the invariant, a crash and a completed recovery give the durable writes. */
  lemma RecoversToDurable(L: Layout, origin: Disk, s: State)
    requires Inv(L, origin, s)
    ensures SameHome(L, Recovered(L, s.disk), Replay(L, origin, s.durable))
  {
    match s.phase
    case Recovering(base, k) => RecoveryRestarts(L, base, k);
    case Writing(base, k) =>
      assert s.durable + [] == s.durable;
      if |s.blocks| == 0 { CleanRecovery(L, base); } else { CommitIsAtomic(L, base, TxnOf(L, s), k); }
    case _ => CleanRecovery(L, s.disk);
  }

  lemma ReplayAppend(L: Layout, d: Disk, ws: seq<Write>, w: Write)
    requires |d| == L.total && WritesHome(L, ws) && L.Home(w.b)
    ensures WritesHome(L, ws + [w])
    ensures Replay(L, d, ws + [w]) == Replay(L, d, ws)[w.b := w.data]
  {
    assert (ws + [w])[..|ws|] == ws;
  }

  lemma SameHomeUpdates(L: Layout, d: Disk, e: Disk, b: int, data: Block)
    requires SameHome(L, d, e) && L.Home(b)
    ensures SameHome(L, d[b := data], e[b := data])
  {
  }

  lemma OpsInAppend(a: seq<Write>, b: seq<Write>)
    ensures OpsIn(a + b) == OpsIn(a) + OpsIn(b)
  {
    forall id | id in OpsIn(b)
      ensures id in OpsIn(a + b)
    {
      var i :| 0 <= i < |b| && b[i].op == id;
      assert (a + b)[|a| + i].op == id;
    }
    forall id | id in OpsIn(a)
      ensures id in OpsIn(a + b)
    {
      var i :| 0 <= i < |a| && a[i].op == id;
      assert (a + b)[i].op == id;
    }
  }

  // ----- log_write -----

  lemma LogWriteShape(L: Layout, s: State, p: Pid, b: int, data: Block)
    requires Shape(L, s) && s.phase.Running? && Counted(s)
    requires p in s.active && L.Home(b) && |s.blocks| < L.Capacity()
    ensures Shape(L, Wrote(s, p, b, data)) && Counted(Wrote(s, p, b, data))
  {
    var s' := Wrote(s, p, b, data);
    assert s'.active.Keys == s.active.Keys;
    assert b in s'.blocks && forall c :: c in s.blocks ==> c in s'.blocks;
  }

  lemma LogWriteWhole(s: State, p: Pid, b: int, data: Block)
    requires Whole(s) && p in s.active
    ensures Whole(Wrote(s, p, b, data))
  {
    var s' := Wrote(s, p, b, data);
    var id := s.active[p].id;
    var ws := [Write(id, b, data)];
    OpsInAppend(s.pending, ws);
    assert ws[0].op == id && OpsIn(ws) == {id};
    assert forall q :: q in s.active <==> q in s'.active;
    assert forall q :: q in s.active ==> s'.active[q].id == s.active[q].id;
    assert ActiveIds(s') == ActiveIds(s);
  }

  lemma LogWriteTracks(L: Layout, origin: Disk, s: State, p: Pid, b: int, data: Block)
    requires Inv(L, origin, s) && s.phase.Running?
    requires p in s.active && L.Home(b) && |s.blocks| < L.Capacity()
    requires Shape(L, Wrote(s, p, b, data))
    ensures WritesHome(L, Wrote(s, p, b, data).pending)
    ensures Tracks(L, origin, Wrote(s, p, b, data))
  {
    hide Absorbed, Replay, Updated, SameHome, Whole, Counted;
    var s' := Wrote(s, p, b, data);
    var w := Write(s.active[p].id, b, data);
    var i := if b in s.blocks then var i :| 0 <= i < |s.blocks| && s.blocks[i] == b; i else |s.blocks|;
    AbsorbedContents(s.cache, s.blocks, b, data, i);
    AbsorbedUpdates(L, s.disk, TxnOf(L, s), b, data);
    assert TxnOf(L, s') == Absorbed(TxnOf(L, s), b, data);
    assert s.durable + s'.pending == (s.durable + s.pending) + [w];
    ReplayAppend(L, origin, s.durable + s.pending, w);
    SameHomeUpdates(L, Updated(L, s.disk, TxnOf(L, s)), Replay(L, origin, s.durable + s.pending), b, data);
  }

  lemma LogWriteKeepsInv(L: Layout, origin: Disk, s: State, p: Pid, b: int, data: Block)
    requires Inv(L, origin, s) && p in s.active && L.Home(b) && |s.blocks| < L.Capacity()
    ensures Inv(L, origin, Wrote(s, p, b, data))
  {
    LogWriteShape(L, s, p, b, data);
    LogWriteWhole(s, p, b, data);
    LogWriteTracks(L, origin, s, p, b, data);
  }

  // ----- begin_op and end_op -----

  lemma BeginWhole(s: State, p: Pid)
    requires Whole(s) && p !in s.active
    ensures Whole(Admitted(s, p))
  {
    var s' := Admitted(s, p);
    assert s'.active[p].id == s.next;
    assert forall q :: q in s.active ==> q in s'.active && s'.active[q] == s.active[q];
    assert ActiveIds(s') == ActiveIds(s) + {s.next};
  }

  lemma BeginCounted(s: State, p: Pid)
    requires Counted(s) && s.phase.Running? && p !in s.active
    ensures Counted(Admitted(s, p))
  {
    assert Admitted(s, p).active.Keys == s.active.Keys + {p};
  }

  lemma BeginKeepsInv(L: Layout, origin: Disk, s: State, p: Pid)
    requires Inv(L, origin, s) && s.phase.Running? && p !in s.active
    ensures Inv(L, origin, Admitted(s, p))
  {
    hide Replay, Updated, SameHome, Whole, Counted;
    BeginWhole(s, p);
    BeginCounted(s, p);
    assert TxnOf(L, Admitted(s, p)) == TxnOf(L, s);
  }

  lemma EndWhole(s: State, p: Pid)
    requires Whole(s) && p in s.active
    ensures Whole(Ended(s, p))
  {
    var s' := Ended(s, p);
    forall id | id in ActiveIds(s)
      ensures id in ActiveIds(s') + {s.active[p].id}
    {
      var q :| q in s.active && s.active[q].id == id;
      assert q != p ==> q in s'.active && s'.active[q].id == id;
    }
    forall id | id in ActiveIds(s')
      ensures id in ActiveIds(s) && id != s.active[p].id
    {
      var q :| q in s'.active && s'.active[q].id == id;
      assert q in s.active && q != p;
    }
  }

  lemma EndKeepsInv(L: Layout, origin: Disk, s: State, p: Pid)
    requires Inv(L, origin, s) && p in s.active
    ensures Inv(L, origin, Ended(s, p))
    ensures Ended(s, p).panic == s.panic
  {
    hide Replay, Updated, SameHome, Whole;
    var s' := Ended(s, p);
    assert s'.active.Keys == s.active.Keys - {p};
    EndWhole(s, p);
    assert TxnOf(L, s') == TxnOf(L, s);
  }

  // ----- commit and recovery -----

  lemma CommitWroteState(L: Layout, s: State)
    requires Shape(L, s) && s.phase.Writing? && |s.blocks| > 0
    requires s.disk == CommitState(L, s.phase.base, TxnOf(L, s), s.phase.k)
    ensures CommitWrote(L, s).disk == CommitState(L, s.phase.base, TxnOf(L, s), s.phase.k + 1)
  {
    hide CommitState;
    CommitStateNext(L, s.phase.base, TxnOf(L, s), s.phase.k);
  }

  lemma CommitWholeAndCounted(L: Layout, s: State)
    requires Shape(L, s) && Counted(s) && Whole(s) && s.phase.Writing?
    ensures Whole(CommitWrote(L, s)) && Counted(CommitWrote(L, s))
  {
    OpsInAppend(s.durable, s.pending);
    var s' := CommitWrote(L, s);
    assert s'.active == s.active && ActiveIds(s') == ActiveIds(s);
  }

  lemma CommitKeepsInv(L: Layout, origin: Disk, s: State)
    requires Inv(L, origin, s) && s.phase.Writing?
    ensures Inv(L, origin, CommitWrote(L, s))
  {
    CommitWholeAndCounted(L, s);
    CommitTracks(L, origin, s);
  }

  lemma CommitTracks(L: Layout, origin: Disk, s: State)
    requires Shape(L, s) && Counted(s) && |origin| == L.total && s.phase.Writing?
    requires WritesHome(L, s.durable) && WritesHome(L, s.pending) && Tracks(L, origin, s)
    ensures Shape(L, CommitWrote(L, s))
    ensures WritesHome(L, CommitWrote(L, s).durable) && WritesHome(L, CommitWrote(L, s).pending)
    ensures Tracks(L, origin, CommitWrote(L, s))
  {
    var n, k := |s.blocks|, s.phase.k;
    if n == 0 {
      UpdatedByNothing(L, s.disk, TxnOf(L, s));
    } else if k <= 2 * n {
      CommitMiddleTracks(L, origin, s);
    } else {
      CommitLastTracks(L, origin, s);
    }
  }

  lemma CommitMiddleTracks(L: Layout, origin: Disk, s: State)
    requires Shape(L, s) && Counted(s) && |origin| == L.total && s.phase.Writing?
    requires WritesHome(L, s.durable) && WritesHome(L, s.pending) && Tracks(L, origin, s)
    requires 0 < |s.blocks| && s.phase.k <= 2 * |s.blocks|
    ensures Shape(L, CommitWrote(L, s))
    ensures WritesHome(L, CommitWrote(L, s).durable) && WritesHome(L, CommitWrote(L, s).pending)
    ensures Tracks(L, origin, CommitWrote(L, s))
  {
    hide CommitState, Recovered, Updated, Replay;
    var s', t, k := CommitWrote(L, s), TxnOf(L, s), s.phase.k;
    CommitWroteState(L, s);
    CommitIsAtomic(L, s.phase.base, t, k + 1);
    assert TxnOf(L, s') == t;
    assert s'.durable + s'.pending == s.durable + s.pending;
  }

  lemma CommitLastTracks(L: Layout, origin: Disk, s: State)
    requires Shape(L, s) && Counted(s) && |origin| == L.total && s.phase.Writing?
    requires WritesHome(L, s.durable) && WritesHome(L, s.pending) && Tracks(L, origin, s)
    requires 0 < |s.blocks| && s.phase.k == 2 * |s.blocks| + 1
    ensures Shape(L, CommitWrote(L, s))
    ensures WritesHome(L, CommitWrote(L, s).durable) && WritesHome(L, CommitWrote(L, s).pending)
    ensures Tracks(L, origin, CommitWrote(L, s))
  {
    hide CommitState, Recovered, Updated, Replay;
    var s', t, k := CommitWrote(L, s), TxnOf(L, s), s.phase.k;
    CommitWroteState(L, s);
    CommitIsAtomic(L, s.phase.base, t, k + 1);
    assert s.durable + s.pending == s.durable;
    CleanRecovery(L, s'.disk);
    UpdatedByNothing(L, s'.disk, TxnOf(L, s'));
  }

  lemma UpdatedByNothing(L: Layout, d: Disk, t: Txn)
    requires L.Valid() && |d| == L.total && t.Valid(L) && t.blocks == []
    ensures Updated(L, d, t) == d
  {
  }

  lemma SameOps(s: State, s': State)
    requires Whole(s)
    requires s'.active == s.active && s'.ended == s.ended && s'.next == s.next
    requires s'.durable == s.durable && s'.pending == s.pending && s'.lost == s.lost
    ensures Whole(s')
  {
    assert ActiveIds(s') == ActiveIds(s);
  }

  lemma RecoverKeepsInv(L: Layout, origin: Disk, s: State)
    requires Inv(L, origin, s) && s.phase.Recovering?
    ensures Inv(L, origin, RecoverWrote(L, s))
  {
    hide Replay, Whole, RecoveryState, Updated;
    var s', base, k := RecoverWrote(L, s), s.phase.base, s.phase.k;
    RecoveryStateNext(L, base, k);
    RecoveryRestarts(L, base, k + 1);
    SameOps(s, s');
    if k == HeadCount(L, base) {
      assert s'.durable + s'.pending == s.durable;
      CleanRecovery(L, s'.disk);
      UpdatedByNothing(L, s'.disk, TxnOf(L, s'));
    }
  }

  lemma CrashWhole(s: State)
    requires Whole(s)
    ensures Whole(Rebooted(s))
  {
    OpsInAppend(s.lost, s.pending);
    assert ActiveIds(Rebooted(s)) == {} && OpsIn(Rebooted(s).pending) == {};
  }

  lemma CrashKeepsInv(L: Layout, origin: Disk, s: State)
    requires Inv(L, origin, s)
    ensures Inv(L, origin, Rebooted(s))
  {
    hide Whole, Replay;
    RecoversToDurable(L, origin, s);
    CrashWhole(s);
  }

  lemma PauseKeepsInv(L: Layout, origin: Disk, s: State, s': State)
    requires Inv(L, origin, s)
    requires s' == s.(asleep := s'.asleep, panic := s'.panic) ||
             (s.phase.Written? && s' == s.(phase := Running, asleep := {}))
    requires s'.asleep == {} || s'.asleep == s.asleep || (!s.phase.Recovering? && (Committing(s) || NoRoom(s)))
    ensures Inv(L, origin, s')
  {
    hide Replay, Updated, SameHome, Whole;
    assert TxnOf(L, s') == TxnOf(L, s);
    SameOps(s, s');
  }

  /** Every step of every process, of commit, of recovery and of the power supply keeps the invariant. */
  lemma StepKeepsInv(L: Layout, limit: nat, origin: Disk, s: State, step: Step)
    requires Inv(L, origin, s) && Enabled(L, limit, s, step)
    ensures Inv(L, origin, Apply(L, limit, s, step))
    ensures Apply(L, limit, s, step).panic in {Fine, TooBig}
  {
    hide Tracks, Whole, WritesHome, Shape;
    match step
    case BeginAdmit(p) => BeginKeepsInv(L, origin, s, p);
    case LogWrite(p, b, data) =>
      if |s.blocks| < L.Capacity() {
        LogWriteKeepsInv(L, origin, s, p, b, data);
      } else {
        PauseKeepsInv(L, origin, s, Apply(L, limit, s, step));
      }
    case EndOp(p) => EndKeepsInv(L, origin, s, p);
    case CommitWrite => CommitKeepsInv(L, origin, s);
    case Crash => CrashKeepsInv(L, origin, s);
    case RecoverWrite => RecoverKeepsInv(L, origin, s);
    case _ => PauseKeepsInv(L, origin, s, Apply(L, limit, s, step));
  }

  // ----- runs -----

  ghost predicate Next(L: Layout, limit: nat, s: State, step: Step, s': State) {
    Shape(L, s) && Enabled(L, limit, s, step) && s' == Apply(L, limit, s, step)
  }

  /** The states of a run that boots from disk d. */
  ghost predicate IsRun(L: Layout, limit: nat, d: Disk, states: seq<State>, steps: seq<Step>) {
    && |states| == |steps| + 1 && states[0] == Start(d)
    && forall i :: 0 <= i < |steps| ==> Next(L, limit, states[i], steps[i], states[i + 1])
  }

  ghost predicate Reachable(L: Layout, limit: nat, d: Disk, s: State) {
    exists states, steps :: IsRun(L, limit, d, states, steps) && states[|steps|] == s
  }

  lemma {:induction false} RunKeepsInv(L: Layout, limit: nat, d: Disk, states: seq<State>, steps: seq<Step>)
    requires WellFormed(L, d) && IsRun(L, limit, d, states, steps)
    ensures Inv(L, Recovered(L, d), states[|steps|])
    ensures states[|steps|].panic in {Fine, TooBig}
    decreases |steps|
  {
    hide Tracks, Whole, Shape;
    var n := |steps|;
    if n == 0 {
      StartInv(L, d);
    } else {
      assert IsRun(L, limit, d, states[..n], steps[..n - 1]);
      RunKeepsInv(L, limit, d, states[..n], steps[..n - 1]);
      assert Next(L, limit, states[n - 1], steps[n - 1], states[n]);
      StepKeepsInv(L, limit, Recovered(L, d), states[n - 1], steps[n - 1]);
    }
  }

  lemma StartInv(L: Layout, d: Disk)
    requires WellFormed(L, d)
    ensures Inv(L, Recovered(L, d), Start(d))
  {
    assert ActiveIds(Start(d)) == {} && OpsIn([]) == {};
  }

  /**
    Crash safety of group commit. Whatever the processes did and wherever the
    machine is, losing power now and recovering gives exactly the writes that
    are durable; these are whole system calls, all of which have ended.
   */
  lemma CrashSafety(L: Layout, limit: nat, d: Disk, s: State)
    requires WellFormed(L, d) && Reachable(L, limit, d, s)
    ensures WellFormed(L, s.disk) && WritesHome(L, s.durable)
    ensures SameHome(L, Recovered(L, s.disk), Replay(L, Recovered(L, d), s.durable))
    ensures OpsIn(s.durable) <= s.ended
    ensures OpsIn(s.durable) !! OpsIn(s.pending) + OpsIn(s.lost)
    ensures s.phase.Running? && s.outstanding == 0 ==> s.pending == []
  {
    var states, steps :| IsRun(L, limit, d, states, steps) && states[|steps|] == s;
    RunKeepsInv(L, limit, d, states, steps);
    RecoversToDurable(L, Recovered(L, d), s);
  }

  /**
    Isolation: nobody is inside a system call while the log commits; an idle log
    is empty and leaves nobody asleep in begin_op; whoever sleeps there would
    have to wait if it looked again; and neither the "log.committing" panic nor
    "log_write outside of trans" can happen.
   */
  lemma GroupCommitIsolation(L: Layout, limit: nat, d: Disk, s: State)
    requires WellFormed(L, d) && Reachable(L, limit, d, s)
    ensures Committing(s) ==> s.outstanding == 0 && s.active == map[]
    ensures !Committing(s) && s.outstanding == 0 ==> s.blocks == [] && s.asleep == {}
    ensures s.asleep != {} ==> Committing(s) || NoRoom(s)
    ensures s.panic != CommittingTwice && s.panic != OutsideTransaction
  {
    var states, steps :| IsRun(L, limit, d, states, steps) && states[|steps|] == s;
    RunKeepsInv(L, limit, d, states, steps);
  }

  /**
    No wakeup is lost in begin_op: while anybody sleeps there, the log is
    committing and its next step is enabled, or there is no room and a call is
    under way whose end_op is. Either step that ends the wait wakes everybody,
    and end_op of the last call starts the commit that does.
   */
  lemma NoLostWakeup(L: Layout, limit: nat, d: Disk, s: State)
    requires WellFormed(L, d) && Reachable(L, limit, d, s) && s.asleep != {} && s.panic == Fine
    ensures Committing(s) ==> Enabled(L, limit, s, if s.phase.Writing? then CommitWrite else CommitDone)
    ensures !Committing(s) ==> NoRoom(s) && exists p :: Enabled(L, limit, s, EndOp(p))
    ensures Shape(L, s) && forall step :: Enabled(L, limit, s, step) && Apply(L, limit, s, step).asleep != {} ==>
      s.asleep <= Apply(L, limit, s, step).asleep && (Committing(Apply(L, limit, s, step)) || NoRoom(Apply(L, limit, s, step)))
  {
    hide Tracks, Whole;
    var states, steps :| IsRun(L, limit, d, states, steps) && states[|steps|] == s;
    RunKeepsInv(L, limit, d, states, steps);
    if !Committing(s) {
      var p :| p in s.active;
      assert Enabled(L, limit, s, EndOp(p));
    }
    forall step | Enabled(L, limit, s, step) && Apply(L, limit, s, step).asleep != {}
      ensures s.asleep <= Apply(L, limit, s, step).asleep
      ensures Committing(Apply(L, limit, s, step)) || NoRoom(Apply(L, limit, s, step))
    {
      StepKeepsInv(L, limit, Recovered(L, d), s, step);
    }
  }

  // ----- log space -----

  /** How many more blocks the active system calls may still log, nine each. */
  ghost function Unused(active: map<Pid, Op>): int
    decreases |active|
  {
    if active == map[] then 0
    else
      var p :| p in active;
      assert (active - {p}).Keys == active.Keys - {p};
      MAXOPBLOCKS - 1 - |active[p].logged| + Unused(active - {p})
  }

  lemma {:induction false} UnusedWithout(active: map<Pid, Op>, p: Pid)
    requires p in active
    ensures Unused(active) == MAXOPBLOCKS - 1 - |active[p].logged| + Unused(active - {p})
    decreases |active|
  {
    var q :| q in active &&
      Unused(active) == MAXOPBLOCKS - 1 - |active[q].logged| + Unused(active - {q});
    if q != p {
      assert (active - {q}).Keys == active.Keys - {q};
      assert (active - {p}).Keys == active.Keys - {p};
      UnusedWithout(active - {q}, p);
      UnusedWithout(active - {p}, q);
      assert active - {q} - {p} == active - {p} - {q};
    }
  }

  lemma {:induction false} UnusedBounds(active: map<Pid, Op>)
    requires forall p :: p in active ==> |active[p].logged| <= MAXOPBLOCKS - 1
    ensures 0 <= Unused(active) <= (MAXOPBLOCKS - 1) * |active|
    decreases |active|
  {
    if active != map[] {
      var p :| p in active;
      assert (active - {p}).Keys == active.Keys - {p};
      UnusedWithout(active, p);
      UnusedBounds(active - {p});
    }
  }

  ghost predicate HasRoom(s: State) {
    && (forall p :: p in s.active ==> |s.active[p].logged| <= MAXOPBLOCKS - 1)
    && |s.blocks| + Unused(s.active) <= LOGSIZE - 2
    && s.panic == Fine
  }

  lemma UnusedUpdate(active: map<Pid, Op>, p: Pid, op: Op)
    ensures Unused(active[p := op]) == MAXOPBLOCKS - 1 - |op.logged| + Unused(active - {p})
  {
    UnusedWithout(active[p := op], p);
    assert active[p := op] - {p} == active - {p};
  }

  lemma BeginKeepsRoom(s: State, p: Pid)
    requires Counted(s) && HasRoom(s) && !NoRoom(s) && s.phase.Running? && p !in s.active
    ensures HasRoom(Admitted(s, p))
  {
    hide Unused;
    UnusedBounds(s.active);
    UnusedUpdate(s.active, p, Op(s.next, {}));
    assert s.active - {p} == s.active;
  }

  lemma WriteKeepsRoom(s: State, p: Pid, b: int, data: Block)
    requires Counted(s) && HasRoom(s) && p in s.active && |s.active[p].logged + {b}| <= MAXOPBLOCKS - 1
    ensures |s.blocks| <= LOGSIZE - 2
    ensures HasRoom(Wrote(s, p, b, data))
  {
    hide Unused;
    var logged := s.active[p].logged;
    UnusedBounds(s.active);
    UnusedWithout(s.active, p);
    UnusedUpdate(s.active, p, s.active[p].(logged := logged + {b}));
    if b in logged { assert logged + {b} == logged; }
  }

  lemma EndKeepsRoom(s: State, p: Pid)
    requires Counted(s) && HasRoom(s) && p in s.active
    ensures HasRoom(Ended(s, p))
  {
    hide Unused;
    UnusedWithout(s.active, p);
  }

  lemma CommitKeepsRoom(L: Layout, s: State)
    requires Shape(L, s) && Counted(s) && HasRoom(s) && s.phase.Writing?
    ensures HasRoom(CommitWrote(L, s))
  {
    hide WithHeader;
  }

  lemma StepKeepsRoom(L: Layout, limit: nat, s: State, step: Step)
    requires Shape(L, s) && Counted(s) && HasRoom(s) && Enabled(L, limit, s, step)
    requires limit <= MAXOPBLOCKS - 1 && L.size == LOGSIZE
    ensures HasRoom(Apply(L, limit, s, step))
  {
    hide Unused;
    match step
    case BeginAdmit(p) => BeginKeepsRoom(s, p);
    case LogWrite(p, b, data) => WriteKeepsRoom(s, p, b, data);
    case EndOp(p) => EndKeepsRoom(s, p);
    case CommitWrite => CommitKeepsRoom(L, s);
    case Crash => assert Unused(map[]) == 0 by { UnusedBounds(map[]); }
    case _ =>
  }

  /** With at most nine blocks per system call, log_write never panics. */
  lemma {:induction false} NineBlocksFit(L: Layout, limit: nat, d: Disk, states: seq<State>, steps: seq<Step>)
    requires WellFormed(L, d) && IsRun(L, limit, d, states, steps)
    requires limit <= MAXOPBLOCKS - 1 && L.size == LOGSIZE
    ensures HasRoom(states[|steps|])
    decreases |steps|
  {
    hide Tracks, Whole;
    var n := |steps|;
    if n > 0 {
      assert IsRun(L, limit, d, states[..n], steps[..n - 1]);
      RunKeepsInv(L, limit, d, states[..n], steps[..n - 1]);
      NineBlocksFit(L, limit, d, states[..n], steps[..n - 1]);
      assert Next(L, limit, states[n - 1], steps[n - 1], states[n]);
      StepKeepsRoom(L, limit, states[n - 1], steps[n - 1]);
    }
  }

  /** Reachability by one more step. */
  lemma ReachableStep(L: Layout, limit: nat, d: Disk, s: State, step: Step)
    requires WellFormed(L, d) && Reachable(L, limit, d, s) && Enabled(L, limit, s, step)
    ensures Shape(L, s) && Counted(s)
    ensures Reachable(L, limit, d, Apply(L, limit, s, step))
  {
    hide Tracks, Whole;
    var states, steps :| IsRun(L, limit, d, states, steps) && states[|steps|] == s;
    RunKeepsInv(L, limit, d, states, steps);
    var s' := Apply(L, limit, s, step);
    assert IsRun(L, limit, d, states + [s'], steps + [step]);
    assert (states + [s'])[|steps + [step]|] == s';
  }

  /** One process logs the fresh blocks first .. first + m. */
  lemma {:induction false} LogFresh(L: Layout, limit: nat, d: Disk, s: State, p: Pid, first: nat, m: nat) returns (s': State)
    requires WellFormed(L, d) && Reachable(L, limit, d, s) && s.panic == Fine && s.phase.Running?
    requires p in s.active && |s.active[p].logged| + m <= limit
    requires |s.blocks| + m < LOGSIZE == L.size
    requires L.start + L.size <= first && first + m <= L.total
    requires forall b :: b in s.blocks || b in s.active[p].logged ==> b < first
    ensures Reachable(L, limit, d, s') && s'.panic == Fine && s'.phase.Running?
    ensures |s'.blocks| == |s.blocks| + m
    ensures forall b :: b in s'.blocks ==> b < first + m
    ensures s'.outstanding == s.outstanding && s'.asleep == s.asleep
    ensures s'.active.Keys == s.active.Keys && p in s'.active
    ensures forall q :: q in s.active && q != p ==> s'.active[q] == s.active[q]
    ensures |s'.active[p].logged| == |s.active[p].logged| + m
    decreases m
  {
    s' := s;
    if m > 0 {
      var step := LogWrite(p, first, seq(BLOCKWORDS, _ => 0));
      ReachableStep(L, limit, d, s, step);
      s' := LogFresh(L, limit, d, Apply(L, limit, s, step), p, first + 1, m - 1);
    }
  }

  /** After a clean boot, calls 0 and 1 are admitted. */
  lemma TwoAdmitted(L: Layout, limit: nat, d: Disk) returns (s: State)
    requires WellFormed(L, d) && HeadCount(L, d) == 0 && L.size == LOGSIZE
    ensures Reachable(L, limit, d, s) && s.panic == Fine && s.phase.Running? && s.blocks == []
    ensures s.active.Keys == {0, 1} && s.active[0].logged == s.active[1].logged == {}
    ensures s.outstanding == 2 && s.asleep == {}
  {
    hide Reachable, Whole, Counted;
    StartReachable(L, limit, d);
    s := Take(L, limit, d, Start(d), RecoverWrite);
    s := Take(L, limit, d, s, BeginAdmit(0));
    s := Take(L, limit, d, s, BeginAdmit(1));
  }

  /** Call 1 logs ten blocks and ends while call 0 has logged none, so call 2 is admitted. */
  lemma TenBlocksAdmit(L: Layout, limit: nat, d: Disk) returns (s: State)
    requires WellFormed(L, d) && HeadCount(L, d) == 0
    requires L.size == LOGSIZE && L.total >= L.start + L.size + LOGSIZE && limit >= MAXOPBLOCKS
    ensures Reachable(L, limit, d, s) && s.panic == Fine && s.phase.Running? && |s.blocks| == 10
    ensures forall b :: b in s.blocks ==> b < L.start + L.size + 10
    ensures s.active.Keys == {0, 2} && s.active[0].logged == s.active[2].logged == {}
  {
    hide Reachable, Whole, Counted;
    s := TwoAdmitted(L, limit, d);
    s := LogFresh(L, limit, d, s, 1, L.start + L.size, 10);
    s := Take(L, limit, d, s, EndOp(1));
    s := Take(L, limit, d, s, BeginAdmit(2));
  }

  /** Three system calls of ten blocks each can drive log_write into its panic. */
  lemma TenBlocksPanic(L: Layout, limit: nat, d: Disk) returns (s: State)
    requires WellFormed(L, d) && HeadCount(L, d) == 0
    requires L.size == LOGSIZE && L.total >= L.start + L.size + LOGSIZE && limit >= MAXOPBLOCKS
    ensures Reachable(L, limit, d, s) && s.panic == TooBig
  {
    hide Reachable, Whole, Counted;
    var first := L.start + L.size;
    s := TenBlocksAdmit(L, limit, d);
    s := LogFresh(L, limit, d, s, 0, first + 10, 10);
    s := LogFresh(L, limit, d, s, 2, first + 20, 9);
    s := Take(L, limit, d, s, LogWrite(2, first + 29, seq(BLOCKWORDS, _ => 0)));
  }

  lemma Take(L: Layout, limit: nat, d: Disk, s: State, step: Step) returns (s': State)
    requires WellFormed(L, d) && Reachable(L, limit, d, s) && Enabled(L, limit, s, step)
    ensures Shape(L, s) && Counted(s)
    ensures Reachable(L, limit, d, s') && s' == Apply(L, limit, s, step)
  {
    ReachableStep(L, limit, d, s, step);
    s' := Apply(L, limit, s, step);
  }

  lemma StartReachable(L: Layout, limit: nat, d: Disk)
    ensures Reachable(L, limit, d, Start(d))
  {
    assert IsRun(L, limit, d, [Start(d)], []);
  }

  /**
    log_write's space panics are out of reach exactly when a system call logs at
    most MAXOPBLOCKS - 1 distinct blocks; the documented MAXOPBLOCKS is one too many.
   */
  lemma LogSpaceExact(L: Layout, limit: nat, d: Disk)
    requires WellFormed(L, d) && HeadCount(L, d) == 0
    requires L.size == LOGSIZE && L.total >= L.start + L.size + LOGSIZE
    ensures (forall s :: Reachable(L, limit, d, s) ==> s.panic == Fine) <==> limit <= MAXOPBLOCKS - 1
  {
    if limit <= MAXOPBLOCKS - 1 {
      forall s | Reachable(L, limit, d, s)
        ensures s.panic == Fine
      {
        var states, steps :| IsRun(L, limit, d, states, steps) && states[|steps|] == s;
        NineBlocksFit(L, limit, d, states, steps);
      }
    } else {
      var s := TenBlocksPanic(L, limit, d);
    }
  }
}
