/** The log area as journal.c keeps it: block numbers that run in a circle between
    j_first and j_last, tids that wrap, and j_free.  Every operation is shown to be
    a step of LogSpace. */
module LogArea {
  import Tid
  import opened LogSpace

  const MIN_JOURNAL_BLOCKS: int := 1024

  /** The fields of transaction_t that the log tail depends on. */
  datatype LoggedTxn = LoggedTxn(tid: Tid.TidNum, logStart: int)

  datatype Option<T> = None | Value(v: T)

  // ------------------------------------------------- arithmetic of the circle

  lemma {:induction false} BlockStep(pos: nat, size: Size)
    ensures Block(pos + 1, size) == if Block(pos, size) + 1 == size then 0 else Block(pos, size) + 1
  {
    if pos >= size {
      BlockStep(pos - size, size);
    }
  }

  /** The distance that __jbd2_update_log_tail computes. */
  function Distance(from: int, to: int, size: int): int {
    if to < from then to - from + size else to - from
  }

  lemma {:induction false} DistanceIsExact(t: nat, p: nat, size: Size)
    requires t <= p < t + size
    ensures Distance(Block(t, size), Block(p, size), size) == p - t
  {
    if t >= size {
      DistanceIsExact(t - size, p - size, size);
    }
  }

  // ------------------------------------------------ serials against positions

  lemma {:induction false} StartsSpread(l: Log, r: bool, i: nat, j: nat)
    requires StartsOk(l, r) && i <= j < |l.starts|
    ensures l.starts[j] - l.starts[i] >= j - i
    decreases j
  {
    if i < j {
      StartsSpread(l, r, i, j - 1);
    }
  }

  /** Marks are at least as far apart in blocks as in transactions. */
  lemma MarksSpread(l: Log, r: bool, a: Mark, b: Mark)
    requires StartsOk(l, r) && Boundary(l, a) && Boundary(l, b) && a.serial <= b.serial
    requires l.committing.NoTxn? ==> r
    ensures b.pos - a.pos >= b.serial - a.serial
  {
    if a.serial < NextCommit(l) {
      if b.serial < NextCommit(l) {
        StartsSpread(l, r, a.serial - l.base, b.serial - l.base);
      } else {
        StartsSpread(l, r, a.serial - l.base, |l.starts| - 1);
      }
    }
  }

  /** Wrapping tids decide correctly between the tail and any mark still to be
      applied, as long as the log has less than 2^31 blocks. */
  lemma TailComparison(s: State, m: Mark)
    requires Inv(s) && s.size < Tid.HALF && Usable(s.log, m)
    requires m == Oldest(s.log) || s.update == Some(m) || s.found == Some(m)
    ensures Tid.Gt(Tid.Of(m.serial), Tid.Of(s.tail.serial)) <==> m.serial > s.tail.serial
    ensures m.serial >= s.tail.serial ==> s.tail.pos <= m.pos < s.tail.pos + s.size
  {
    var r := RecordOut(s.async, s.pc);
    if m.serial >= s.tail.serial {
      MarksSpread(s.log, r, s.tail, m);
      BoundaryOrder(s.log, r, s.tail, m);
    } else {
      MarksSpread(s.log, r, m, s.tail);
      var t := s.log.committing.txn;
      BoundaryOrder(s.log, r, s.tail, Mark(t.serial, t.start));
    }
    Tid.Compare(m.serial, s.tail.serial);
  }

  /** A tail that moved past a mark did so by less than a lap. */
  lemma PassedByLessThanALap(s: State, m: Mark)
    requires Inv(s) && s.log.committing.Is? && s.update == Some(m) && m.serial < s.tail.serial
    ensures m.pos < s.tail.pos < m.pos + s.size
  {
    var r, t := RecordOut(s.async, s.pc), s.log.committing.txn;
    MarksSpread(s.log, r, m, s.tail);
    BoundaryOrder(s.log, r, s.tail, Mark(t.serial, t.start));
  }

  lemma LapLeft(s: State, m: Mark)
    requires Inv(s) && s.size < Tid.HALF && s.pc.Snapped? && s.update == Some(m)
    ensures Distance(Block(s.tail.pos, s.size), Block(m.pos, s.size), s.size)
            == if m.serial >= s.tail.serial then m.pos - s.tail.pos else m.pos + s.size - s.tail.pos
  {
    if m.serial >= s.tail.serial {
      TailComparison(s, m);
      DistanceIsExact(s.tail.pos, m.pos, s.size);
    } else {
      PassedByLessThanALap(s, m);
      DistanceIsExact(s.tail.pos, m.pos + s.size, s.size);
    }
  }

  predicate TxnMaps(first: int, size: Size, t: LoggedTxn, a: Txn) {
    t == LoggedTxn(Tid.Of(a.serial), first + Block(a.start, size))
  }

  predicate CommittingMaps(first: int, size: Size, c: Option<LoggedTxn>, a: MaybeTxn) {
    match a
    case NoTxn => c.None?
    case Is(txn) => c.Value? && TxnMaps(first, size, c.v, txn)
  }

  predicate ListMaps(first: int, size: Size, list: seq<LoggedTxn>, a: seq<Txn>) {
    |list| == |a| && forall i :: 0 <= i < |a| ==> TxnMaps(first, size, list[i], a[i])
  }

  lemma UpdateIsRight(s: State, m: Mark)
    requires Inv(s) && s.size < Tid.HALF && s.pc.Flushed? && s.update == Some(m) && s.mutex.Free?
    ensures Tid.Gt(Tid.Of(m.serial), Tid.Of(s.tail.serial)) <==> m.serial > s.tail.serial
    ensures m.serial > s.tail.serial ==> s.tail.pos <= m.pos < s.tail.pos + s.size
  {
    TailComparison(s, m);
  }

  class Journal {
    var first: int                        // j_first
    var last: int                         // j_last
    var head: int                         // j_head
    var tail: int                         // j_tail
    var free: int                         // j_free
    var maxlen: int                       // j_maxlen
    var tailSequence: Tid.TidNum               // j_tail_sequence
    var transactionSequence: Tid.TidNum        // j_transaction_sequence
    var running: Option<Tid.TidNum>            // tid of j_running_transaction
    var committing: Option<LoggedTxn>     // j_committing_transaction
    var checkpoint: seq<LoggedTxn>        // j_checkpoint_transactions
    var sbSequence: Tid.TidNum                 // s_sequence on disk
    var sbStart: int                      // s_start on disk
    ghost var abs: State

    /** The fields say what abs says.  That abs satisfies Inv is a property of the
        runs of LogSpace and is asked for where an operation relies on it. */
    ghost predicate Valid()
      reads this
    {
      && abs.size < Tid.HALF
      && 0 < first && last == first + abs.size && maxlen == last
      && head == first + Block(abs.log.head, abs.size)
      && tail == first + Block(abs.tail.pos, abs.size)
      && free == FreeBlocks(abs)
      && tailSequence == Tid.Of(abs.tail.serial)
      && transactionSequence == Tid.Of(NextCommit(abs.log) + if abs.running then 1 else 0)
      && running == (if abs.running then Value(Tid.Of(NextCommit(abs.log))) else None)
      && CommittingMaps(first, abs.size, committing, abs.log.committing)
      && ListMaps(first, abs.size, checkpoint, abs.log.checkpoint)
      && sbStart == (if abs.empty then 0 else first + Block(abs.sb.pos, abs.size))
      && (!abs.empty ==> sbSequence == Tid.Of(abs.sb.serial))
    }

    /** j_free is the distance from the head on to the tail, the whole log if they meet. */
    lemma FreeIsDistance()
      requires Valid() && Inv(abs)
      ensures 1 <= free <= last - first && first <= head < last && first <= tail < last
      ensures free == if head < tail then tail - head else last - first - (head - tail)
    {
      DistanceIsExact(abs.tail.pos, abs.log.head, abs.size);
    }

    constructor ()
    {
    }

    /** journal_reset: the log between sbFirst and sbMaxlen becomes empty. */
    method Reset(sbFirst: nat, sbMaxlen: nat, onDiskStart: nat, serial: nat, barrier: bool, async: bool)
      returns (ok: bool)
      requires 0 < sbFirst && sbMaxlen - sbFirst < Tid.HALF
      modifies this
      ensures ok <==> sbFirst + MIN_JOURNAL_BLOCKS <= sbMaxlen + 1
      ensures ok ==> var valid := Valid();
        && valid && first == sbFirst && last == sbMaxlen && free == sbMaxlen - sbFirst
        && abs == Init(sbMaxlen - sbFirst, barrier, async, serial, onDiskStart == 0)
        && head == tail == first && maxlen == last && tailSequence == transactionSequence == Tid.Of(serial)
        && running == None && committing == None && checkpoint == []
        && sbStart == if onDiskStart == 0 then 0 else first
      ensures !ok ==> unchanged(this)
    {
      if sbFirst + MIN_JOURNAL_BLOCKS > sbMaxlen + 1 {
        return false;
      }
      MakeEmpty(sbFirst, sbMaxlen, serial);
      ResetSuperblock(onDiskStart == 0);
      abs := Init(sbMaxlen - sbFirst, barrier, async, serial, onDiskStart == 0);
      return true;
    }

    method MakeEmpty(sbFirst: nat, sbMaxlen: nat, serial: nat)
      requires 0 < sbFirst < sbMaxlen
      modifies this
      ensures first == sbFirst == head == tail && last == maxlen == sbMaxlen && free == sbMaxlen - sbFirst
      ensures transactionSequence == tailSequence == Tid.Of(serial)
      ensures running == None && committing == None && checkpoint == []
    {
      first, last, maxlen, free := sbFirst, sbMaxlen, sbMaxlen, sbMaxlen - sbFirst;
      head, tail := sbFirst, sbFirst;
      transactionSequence := Tid.Of(serial);
      tailSequence := transactionSequence;
      running, committing, checkpoint := None, None, [];
    }

    method ResetSuperblock(empty: bool)
      modifies this`sbSequence, this`sbStart
      ensures sbStart == (if empty then 0 else tail) && (!empty ==> sbSequence == tailSequence)
    {
      if empty {
        sbStart := 0;
      } else {
        sbSequence, sbStart := tailSequence, tail;
      }
    }

    /** jbd2_journal_next_log_block, for a block of the log or the commit record.  The
        block is the one that HandedOutBlockIsDead is about. */
    method NextLogBlock(ghost step: Step) returns (blocknr: int)
      requires Valid() && HandsOutBlock(abs, step) && Enabled(abs, step)
      modifies this
      ensures Valid() && abs == Apply(old(abs), step)
      ensures first <= blocknr < last && blocknr == first + Block(old(abs).log.head, abs.size)
      ensures blocknr == old(head) && head == (if old(head) + 1 == last then first else old(head) + 1)
      ensures free == old(free) - 1 && tail == old(tail) && first == old(first) && last == old(last)
    {
      HandedOut(abs, step);
      ghost var s' := Apply(abs, step);
      blocknr := AdvanceHead(s');
    }

    method AdvanceHead(ghost s': State) returns (blocknr: int)
      requires Valid() && FreeBlocks(abs) > 1
      requires s'.log == Grown(abs.log) && s'.size == abs.size && s'.tail == abs.tail
      requires s'.running == abs.running && s'.empty == abs.empty && s'.sb == abs.sb
      modifies this
      ensures var valid := Valid(); valid && abs == s'
      ensures first <= blocknr < last && blocknr == first + Block(old(abs).log.head, abs.size)
      ensures blocknr == old(head) && head == (if old(head) + 1 == last then first else old(head) + 1)
      ensures free == old(free) - 1 && tail == old(tail) && first == old(first) && last == old(last)
    {
      BlockStep(abs.log.head, abs.size);
      blocknr := head;
      head := head + 1;
      free := free - 1;
      if head == last {
        head := first;
      }
      abs := s';
    }

    /** jbd2_journal_get_log_tail. */
    method GetLogTail() returns (ret: bool, tid: Tid.TidNum, block: int)
      requires Valid() && Inv(abs)
      ensures tid == Tid.Of(Oldest(abs.log).serial)
      ensures block == first + Block(Oldest(abs.log).pos, abs.size)
      ensures ret <==> Candidate(abs).Some?
      ensures ret <==> Oldest(abs.log).serial > abs.tail.serial
      ensures if checkpoint != [] then tid == checkpoint[0].tid && block == checkpoint[0].logStart
              else if committing.Value? then tid == committing.v.tid && block == committing.v.logStart
              else tid == (if running.Value? then running.v else transactionSequence) && block == head
    {
      if |checkpoint| > 0 {
        tid, block := checkpoint[0].tid, checkpoint[0].logStart;
      } else if committing.Value? {
        tid, block := committing.v.tid, committing.v.logStart;
      } else if running.Value? {
        tid, block := running.v, head;
      } else {
        tid, block := transactionSequence, head;
      }
      OldestIsUsable(abs.log);
      TailComparison(abs, Oldest(abs.log));
      ret := Tid.Gt(tid, tailSequence);
    }

    /** The part of the commit that drops an update of the tail which would free
        too little (the two statements after jbd2_journal_get_log_tail).  When the
        tail has moved past the mark meanwhile, the distance is the one left of a lap;
        UpdateLogTail does not apply such a mark. */
    method WorthFreeing(firstBlock: int, ghost m: Mark) returns (keep: bool)
      requires Valid() && Inv(abs) && abs.pc.Snapped? && abs.update == Some(m)
      requires firstBlock == first + Block(m.pos, abs.size)
      ensures m.serial >= abs.tail.serial ==> (keep <==> m.pos - abs.tail.pos >= maxlen / 4)
      ensures m.serial < abs.tail.serial ==> (keep <==> m.pos + abs.size - abs.tail.pos >= maxlen / 4)
    {
      var freed := firstBlock - tail;
      if firstBlock < tail {
        freed := freed + (last - first);
      }
      keep := freed >= maxlen / 4;
      LapLeft(abs, m);
    }

    /** __jbd2_update_log_tail: superblock first, then the tail in memory. */
    method MoveLogTail(tid: Tid.TidNum, block: int, ghost m: Mark, ghost s': State)
      requires Valid()
      requires m.serial > abs.tail.serial
      requires tid == Tid.Of(m.serial) && block == first + Block(m.pos, abs.size)
      requires abs.tail.pos <= m.pos < abs.tail.pos + abs.size
      requires s'.tail == m && s'.sb == m && !s'.empty
      requires s'.log == abs.log && s'.running == abs.running && s'.size == abs.size
      modifies this
      ensures Valid() && abs == s'
      ensures free == old(free) + (m.pos - old(abs).tail.pos)
      ensures tail == sbStart == block && tailSequence == sbSequence == tid && head == old(head)
    {
      sbSequence, sbStart := tid, block;
      var freed := block - tail;
      if block < tail {
        freed := freed + (last - first);
      }
      DistanceIsExact(abs.tail.pos, m.pos, abs.size);
      free := free + freed;
      tailSequence := tid;
      tail := block;
      abs := s';
    }

    /** jbd2_update_log_tail: the tail the commit read before its flush, applied
        only if nobody moved the tail past it meanwhile. */
    method UpdateLogTail(tid: Tid.TidNum, block: int, ghost m: Mark)
      requires Valid() && Inv(abs) && abs.pc.Flushed? && abs.update == Some(m) && abs.mutex.Free?
      requires tid == Tid.Of(m.serial) && block == first + Block(m.pos, abs.size)
      modifies this
      ensures Valid() && abs == TailUpdated(old(abs), m)
      ensures if m.serial > old(abs).tail.serial
              then abs.tail == m && tail == sbStart == block && tailSequence == sbSequence == tid
                   && free == old(free) + (m.pos - old(abs).tail.pos)
              else abs.tail == old(abs).tail && tail == old(tail) && tailSequence == old(tailSequence)
                   && sbStart == old(sbStart) && free == old(free)
    {
      UpdateIsRight(abs, m);
      ghost var s' := TailUpdated(abs, m);
      if Tid.Gt(tid, tailSequence) {
        MoveLogTail(tid, block, m, s');
      } else {
        abs := s';
      }
    }

    /** jbd2_cleanup_journal_tail with j_checkpoint_mutex held: read the oldest
        transaction, flush, move the tail there.  Afterwards the tail is at the first of
        the transactions in the log, and nothing was done exactly if it was before. */
    method CleanupJournalTail() returns (nothing: bool)
      requires Valid() && Inv(abs) && abs.mutex.Held?
      modifies this
      ensures Valid()
      ensures nothing <==> Candidate(old(abs)).NoMark?
      ensures abs == if nothing then old(abs) else Cleaned(old(abs))
      ensures nothing <==> old(abs).tail == Oldest(old(abs).log)
      ensures abs.log == old(abs).log && abs.tail == Oldest(abs.log)
      ensures nothing || (abs.sb == abs.tail && !abs.empty)
    {
      CandidateIff(abs);
      var ret, firstTid, blocknr := GetLogTail();
      if !ret {
        return true;
      }
      ghost var m := Oldest(abs.log);
      OldestIsUsable(abs.log);
      TailComparison(abs, m);
      MoveLogTail(firstTid, blocknr, m, Cleaned(abs));
      nothing := false;
    }
  }
}
