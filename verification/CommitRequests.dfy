/** The commit fields of journal_t and the functions of journal.c and fsync.c that
    read and write them, each one region under j_state_lock.  They see tids only;
    each is shown to take the step of CommitProtocol that it stands for. */
module CommitRequests {
  import opened Tid
  import P = CommitProtocol

  datatype TState = RUNNING | LOCKED | FLUSH | COMMIT | COMMIT_DFLUSH | COMMIT_JFLUSH

  datatype Transaction = Transaction(tid: TidNum, state: TState)

  datatype Option<T> = None | Some(value: T)

  /** The order of the enumeration in transaction_t. */
  function Rank(t: TState): nat {
    match t
    case RUNNING => 0
    case LOCKED => 1
    case FLUSH => 2
    case COMMIT => 3
    case COMMIT_DFLUSH => 4
    case COMMIT_JFLUSH => 5
  }

  function StateAt(pc: P.Pc): TState {
    match pc
    case Idle => RUNNING
    case Woken => RUNNING
    case Locked => LOCKED
    case Flush => FLUSH
    case Commit => COMMIT
    case DFlush => COMMIT_DFLUSH
    case JFlush => COMMIT_JFLUSH
    case JFlushed => COMMIT_JFLUSH
  }

  class Journal {
    var barrier: bool                       // j_flags & JBD2_BARRIER
    var commitSequence: TidNum              // j_commit_sequence
    var commitRequest: TidNum               // j_commit_request
    var transactionSequence: TidNum         // j_transaction_sequence
    var running: Option<Transaction>        // j_running_transaction
    var committing: Option<Transaction>     // j_committing_transaction
    ghost var abs: P.State

    ghost predicate Valid()
      reads this
    {
      && barrier == abs.barrier
      && commitSequence == Of(abs.commitSeq)
      && commitRequest == abs.request
      && transactionSequence == Of(P.Running(abs) + if abs.running then 1 else 0)
      && running == (if abs.running
                     then Some(Transaction(Of(P.Running(abs)), if abs.pc.Locked? then LOCKED else RUNNING))
                     else None)
      && committing == (if P.HasCommitting(abs)
                        then Some(Transaction(Of(P.Committing(abs)), StateAt(abs.pc)))
                        else None)
    }

    /** The tids that journal_reset starts from. */
    constructor (flags: bool, serial: nat)
      ensures Valid() && abs == P.Init(flags, serial)
      ensures barrier == flags && running.None? && committing.None?
      ensures commitSequence == commitRequest == Of(serial) && transactionSequence == Of(serial + 1)
    {
      barrier := flags;
      transactionSequence := Of(serial + 1);
      commitSequence := Of(serial);
      commitRequest := Of(serial);
      running, committing := None, None;
      abs := P.Init(flags, serial);
    }

    /** jbd2_get_transaction. */
    method GetTransaction()
      requires Valid() && P.RequestOk(abs) && running.None?
      modifies this
      ensures Valid() && abs == P.Apply(old(abs), P.BeginTxn)
      ensures running == Some(Transaction(old(transactionSequence), RUNNING)) && committing == old(committing)
      ensures transactionSequence == Increment(old(transactionSequence))
      ensures commitSequence == old(commitSequence) && commitRequest == old(commitRequest) && barrier == old(barrier)
    {
      running := Some(Transaction(transactionSequence, RUNNING));
      NextTid(P.Running(abs));
      transactionSequence := Increment(transactionSequence);
      abs := P.Apply(abs, P.BeginTxn);
    }

    /** __jbd2_log_start_commit: the running transaction, if it is the target, is
        requested afterwards, and by this call if it was not before. */
    method StartCommit(target: TidNum) returns (started: bool)
      requires Valid()
      modifies this
      ensures Valid() && abs == P.Requested(old(abs), target)
      ensures running.Some? && running.value.tid == target ==> commitRequest == abs.request == target
      ensures started <==> running.Some? && running.value.tid == target && old(commitRequest) != target
      ensures commitRequest == if started then target else old(commitRequest)
      ensures running == old(running) && committing == old(committing) && barrier == old(barrier)
      ensures commitSequence == old(commitSequence) && transactionSequence == old(transactionSequence)
    {
      if commitRequest == target {
        return false;
      }
      if running.Some? && running.value.tid == target {
        commitRequest := target;
        abs := P.Requested(abs, target);
        return true;
      }
      return false;
    }

    /** jbd2_trans_will_send_data_barrier, journal and file system on one device. */
    method WillSendDataBarrier(tid: TidNum) returns (ret: bool)
      requires Valid()
      ensures ret == P.WillSend(abs, tid)
      ensures ret <==> barrier && !Geq(commitSequence, tid)
                       && !(committing.Some? && committing.value == Transaction(tid, COMMIT_JFLUSH))
    {
      if !barrier {
        return false;
      }
      if Geq(commitSequence, tid) {
        return false;
      }
      if committing.None? || committing.value.tid != tid {
        return true;
      }
      return Rank(committing.value.state) < Rank(COMMIT_JFLUSH);
    }

    /** ext4_sync_file between the write-out of the data and the wait: it is to flush
        itself if no commit of its transaction will, and this is known for sure when
        the transaction is not 2^31 commits old. */
    method NeedsBarrier(tid: TidNum) returns (needs: bool)
      requires Valid()
      ensures needs == (abs.barrier && !P.WillSend(abs, tid))
      ensures forall serial: nat :: tid == Of(serial) && P.Allocated(abs, serial) && abs.commitSeq < serial + HALF ==>
                (needs <==> abs.barrier && P.FlushPassed(abs, serial))
    {
      forall serial: nat | P.Allocated(abs, serial) && abs.commitSeq < serial + HALF
        ensures P.WillSend(abs, Of(serial)) <==> abs.barrier && !P.FlushPassed(abs, serial)
      {
        P.WillSendIff(abs, serial);
      }
      needs := false;
      var willSend := WillSendDataBarrier(tid);
      if barrier && !willSend {
        needs := true;
      }
    }

    /** jbd2_complete_transaction up to the end of its first region; where it goes on
        from there. */
    method CheckTransaction(tid: TidNum) returns (next: P.FsyncPc)
      requires Valid()
      ensures next == P.NextPc(abs, tid)
      ensures next == P.Requesting <==> running.Some? && running.value.tid == tid && commitRequest != tid
      ensures next == P.Waiting <==> if running.Some? && running.value.tid == tid then commitRequest == tid
                                     else committing.Some? && committing.value.tid == tid
      ensures next in {P.Requesting, P.Waiting, P.Completed}
    {
      var needToWait := true;
      if running.Some? && running.value.tid == tid {
        if commitRequest != tid {
          return P.Requesting;
        }
      } else if !(committing.Some? && committing.value.tid == tid) {
        needToWait := false;
      }
      next := if needToWait then P.Waiting else P.Completed;
    }

    /** The test of the loop in jbd2_log_wait_commit: whoever is let go has its
        transaction committed, and one that is not 2^31 commits old is let go then. */
    method MustWait(tid: TidNum) returns (wait: bool)
      requires Valid()
      ensures wait == Gt(tid, Of(abs.commitSeq))
      ensures forall serial: nat :: tid == Of(serial) && P.Allocated(abs, serial) ==>
                && (!wait ==> serial <= abs.commitSeq)
                && (abs.commitSeq < serial + HALF ==> (wait <==> serial > abs.commitSeq))
    {
      forall serial: nat | P.Allocated(abs, serial)
        ensures !Gt(Of(serial), Of(abs.commitSeq)) ==> serial <= abs.commitSeq
        ensures abs.commitSeq < serial + HALF ==> (Gt(Of(serial), Of(abs.commitSeq)) <==> serial > abs.commitSeq)
      {
        P.LetGoMeansCommitted(abs, serial);
        if abs.commitSeq < serial + HALF {
          P.WillSendIff(abs, serial);
        }
      }
      wait := Gt(tid, commitSequence);
    }

    /** The test of kjournald2 at the head of its loop.  In every reachable state a
        true answer means that there is a transaction to commit and none being
        committed. */
    method RequestsDiffer() returns (differ: bool)
      requires Valid() && P.RequestOk(abs) && abs.pc.Idle?
      ensures differ <==> P.Enabled(abs, P.Wake)
      ensures differ <==> commitSequence != commitRequest
      ensures differ ==> running.Some? && committing.None? && running.value.tid == commitRequest
    {
      differ := commitSequence != commitRequest;
    }

    /** The timer branch of kjournald2. */
    method Expire()
      requires Valid() && abs.pc.Idle?
      modifies this
      ensures Valid()
      ensures abs == if old(abs).running then P.Apply(old(abs), P.Timer) else old(abs)
      ensures commitRequest == if running.Some? then running.value.tid else old(commitRequest)
      ensures running == old(running) && committing == old(committing) && commitSequence == old(commitSequence)
    {
      if running.Some? {
        commitRequest := running.value.tid;
        abs := P.Apply(abs, P.Timer);
      }
    }

    /** The two regions that lock the running transaction and make it the committing
        one. */
    method LockTransaction()
      requires Valid() && P.RequestOk(abs) && abs.pc.Woken?
      modifies this
      ensures Valid() && abs == P.Apply(old(abs), P.Lock)
      ensures running == Some(Transaction(commitRequest, LOCKED)) && committing == old(committing)
      ensures commitRequest == old(commitRequest) && commitSequence == old(commitSequence)
    {
      running := Some(running.value.(state := LOCKED));
      abs := P.Apply(abs, P.Lock);
    }

    method SwitchTransaction()
      requires Valid() && P.RequestOk(abs) && abs.pc.Locked?
      modifies this
      ensures Valid() && abs == P.Apply(old(abs), P.Switch)
      ensures running.None? && committing == Some(Transaction(commitRequest, FLUSH))
      ensures commitRequest == old(commitRequest) && commitSequence == old(commitSequence)
    {
      committing := Some(running.value.(state := FLUSH));
      running := None;
      abs := P.Apply(abs, P.Switch);
    }

    /** The assignments of T_COMMIT, T_COMMIT_DFLUSH and T_COMMIT_JFLUSH. */
    method AdvanceState(step: P.Step)
      requires Valid() && P.Enabled(abs, step) && (step.WriteLog? || step.ToDFlush? || step.ToJFlush?)
      modifies this
      ensures Valid() && abs == P.Apply(old(abs), step)
      ensures committing == Some(Transaction(old(committing).value.tid,
                                             if step.WriteLog? then COMMIT else if step.ToDFlush? then COMMIT_DFLUSH
                                             else COMMIT_JFLUSH))
      ensures running == old(running) && commitRequest == old(commitRequest) && commitSequence == old(commitSequence)
    {
      match step {
        case WriteLog => committing := Some(committing.value.(state := COMMIT));
        case ToDFlush => committing := Some(committing.value.(state := COMMIT_DFLUSH));
        case ToJFlush => committing := Some(committing.value.(state := COMMIT_JFLUSH));
      }
      abs := P.Apply(abs, step);
    }

    /** The region at the end of a commit that publishes j_commit_sequence. */
    method PublishCommit()
      requires Valid() && abs.pc.JFlushed?
      modifies this
      ensures Valid() && abs == P.Apply(old(abs), P.FinishCommit)
      ensures commitSequence == old(committing).value.tid && committing.None?
      ensures running == old(running) && commitRequest == old(commitRequest)
    {
      commitSequence := committing.value.tid;
      committing := None;
      abs := P.Apply(abs, P.FinishCommit);
    }
  }

  /** ++ on a 32-bit number. */
  function Increment(t: TidNum): TidNum {
    if t + 1 == WRAP then 0 else t + 1
  }

  lemma {:induction false} NextTid(serial: nat)
    ensures Increment(Of(serial)) == Of(serial + 1)
  {
    if serial >= WRAP {
      NextTid(serial - WRAP);
    }
  }
}
