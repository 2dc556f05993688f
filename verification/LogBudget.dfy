/**
  The blocks that a transaction of filewrite logs, against the log's space.
 */
module LogBudget {
  import FsSpec
  import opened GroupCommit
  import opened LogSpec

  /** What filewrite's contract bounds each of its transactions by. */
  ghost function ChunkLimit(sb: FsSpec.Super): nat
    requires sb.Valid()
  {
    6 + FsSpec.BitmapBlocks(sb)
  }

  /**
    In a system whose calls log as many blocks as a chunk of filewrite may,
    log_write never panics exactly when the file system has at most three
    bitmap blocks, that is 24576 blocks.
   */
  lemma ChunksFit(L: Layout, d: Disk, sb: FsSpec.Super)
    requires WellFormed(L, d) && HeadCount(L, d) == 0 && sb.Valid()
    requires L.size == LOGSIZE && L.total >= L.start + L.size + LOGSIZE
    ensures (forall s :: Reachable(L, ChunkLimit(sb), d, s) ==> s.panic == Fine) <==> sb.size <= 24576
  {
    LogSpaceExact(L, ChunkLimit(sb), d);
    hide Reachable, WellFormed;
  }
}
