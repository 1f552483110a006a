/** Who asks for a commit, who waits for it, and what fsync gets for waiting.

    The commit thread, any number of threads inside ext4_sync_file and everybody
    who starts or requests transactions interleave freely, one region under
    j_state_lock or one submitted flush at a time.  Transactions have serial
    numbers that never wrap; the code sees only their tids, which do. */
module CommitProtocol {
  import opened Tid

  /** The commit thread: in kjournald2, or at a t_state of the commit. */
  datatype Pc =
    | Idle                    // at the head of the loop in kjournald2
    | Woken                   // sequence and request differ: about to commit
    | Locked                  // T_LOCKED
    | Flush                   // T_FLUSH
    | Commit                  // T_COMMIT
    | DFlush                  // T_COMMIT_DFLUSH
    | JFlush                  // T_COMMIT_JFLUSH, commit record not yet submitted
    | JFlushed                // T_COMMIT_JFLUSH, flush issued

  datatype FsyncPc =
    | Written                 // filemap_write_and_wait_range is done
    | Decided                 // needs_barrier is set
    | Requesting              // in jbd2_log_start_commit
    | Waiting                 // in jbd2_log_wait_commit
    | Completed               // jbd2_complete_transaction has returned
    | Returned

  /** One call of ext4_sync_file. */
  datatype Fsync = Fsync(
    pc: FsyncPc,
    wrote: nat,               // flushes issued when the data was written out
    serial: nat,              // transaction of i_sync_tid or i_datasync_tid
    needs: bool               // needs_barrier
  )

  datatype State = State(
    barrier: bool,            // JBD2_BARRIER
    commitSeq: nat,           // serial of j_commit_sequence
    request: TidNum,         // j_commit_request
    running: bool,            // j_running_transaction != NULL
    pc: Pc,
    flushes: nat,             // cache flushes issued to the device so far
    calls: map<nat, Fsync>
  )

  function Init(barrier: bool, serial: nat): State {
    State(barrier, serial, Of(serial), false, Idle, 0, map[])
  }

  predicate HasCommitting(s: State) {
    !s.pc.Idle? && !s.pc.Woken? && !s.pc.Locked?
  }

  /** Serial of j_committing_transaction. */
  function Committing(s: State): nat {
    s.commitSeq + 1
  }

  /** Serial of j_running_transaction, or of the next one to be created. */
  function Running(s: State): nat {
    s.commitSeq + if HasCommitting(s) then 2 else 1
  }

  predicate Allocated(s: State, serial: nat) {
    serial < Running(s) || (s.running && serial == Running(s))
  }

  predicate IsRunning(s: State, tid: TidNum) {
    s.running && tid == Of(Running(s))
  }

  predicate IsCommitting(s: State, tid: TidNum) {
    HasCommitting(s) && tid == Of(Committing(s))
  }

  /** jbd2_trans_will_send_data_barrier, file system and journal on one device. */
  predicate WillSend(s: State, tid: TidNum) {
    && s.barrier
    && !Geq(Of(s.commitSeq), tid)
    && (IsCommitting(s, tid) ==> !s.pc.JFlush? && !s.pc.JFlushed?)
  }

  /** __jbd2_log_start_commit. */
  function Requested(s: State, target: TidNum): State {
    if s.request != target && IsRunning(s, target) then s.(request := target) else s
  }

  /** First region of jbd2_complete_transaction. */
  function NextPc(s: State, tid: TidNum): FsyncPc {
    if IsRunning(s, tid) then if s.request != tid then Requesting else Waiting
    else if IsCommitting(s, tid) then Waiting
    else Completed
  }

  datatype Step =
    | BeginTxn
    | Request(target: TidNum)
    | Timer
    | Wake
    | Lock
    | Switch
    | WriteLog
    | ToDFlush
    | ToJFlush
    | IssueFlush
    | FinishCommit
    | DataWritten(f: nat)
    | Decide(f: nat, serial: nat)
    | Check(f: nat)
    | StartCommit(f: nat)
    | StopWaiting(f: nat)
    | Return(f: nat)

  predicate At(s: State, f: nat, pc: FsyncPc) {
    f in s.calls && s.calls[f].pc == pc
  }

  predicate Enabled(s: State, step: Step) {
    match step
    case BeginTxn => !s.running
    case Request(_) => true
    case Timer => s.running && s.pc.Idle?
    case Wake => s.pc.Idle? && Of(s.commitSeq) != s.request
    case Lock => s.pc.Woken?
    case Switch => s.pc.Locked?
    case WriteLog => s.pc.Flush?
    case ToDFlush => s.pc.Commit?
    case ToJFlush => s.pc.DFlush?
    case IssueFlush => s.pc.JFlush?
    case FinishCommit => s.pc.JFlushed?
    case DataWritten(f) => f !in s.calls
    case Decide(f, serial) => At(s, f, Written) && Allocated(s, serial)
    case Check(f) => At(s, f, Decided)
    case StartCommit(f) => At(s, f, Requesting)
    case StopWaiting(f) => At(s, f, Waiting) && !Gt(Of(s.calls[f].serial), Of(s.commitSeq))
    case Return(f) => At(s, f, Completed)
  }

  function Move(s: State, f: nat, pc: FsyncPc): State
    requires f in s.calls
  {
    s.(calls := s.calls[f := s.calls[f].(pc := pc)])
  }

  function Apply(s: State, step: Step): State
    requires Enabled(s, step)
  {
    match step
    case BeginTxn => s.(running := true)
    case Request(target) => Requested(s, target)
    case Timer => s.(request := Of(Running(s)))
    case Wake => s.(pc := Woken)
    case Lock => s.(pc := Locked)
    case Switch => s.(running := false, pc := Flush)
    case WriteLog => s.(pc := Commit)
    case ToDFlush => s.(pc := DFlush)
    case ToJFlush => s.(pc := JFlush)
    case IssueFlush => s.(flushes := s.flushes + if s.barrier then 1 else 0, pc := JFlushed)
    case FinishCommit => s.(commitSeq := s.commitSeq + 1, pc := Idle)
    case DataWritten(f) => s.(calls := s.calls[f := Fsync(Written, s.flushes, 0, false)])
    case Decide(f, serial) =>
      var c := s.calls[f];
      s.(calls := s.calls[f := c.(pc := Decided, serial := serial,
                                  needs := s.barrier && !WillSend(s, Of(serial)))])
    case Check(f) => Move(s, f, NextPc(s, Of(s.calls[f].serial)))
    case StartCommit(f) => Move(Requested(s, Of(s.calls[f].serial)), f, Waiting)
    case StopWaiting(f) => Move(s, f, Completed)
    case Return(f) =>
      var t := Move(s, f, Returned);
      if s.calls[f].needs then t.(flushes := s.flushes + 1) else t
  }

  // ------------------------------------------------------- the request protocol

  /** The requested tid is the last one committed, the one being committed or the
      running one; and the thread that decided to commit has something to commit. */
  predicate RequestOk(s: State) {
    && (|| (s.request == Of(s.commitSeq) && s.pc.Idle?)
        || IsCommitting(s, s.request)
        || IsRunning(s, s.request))
    && (s.pc.Woken? || s.pc.Locked? ==> IsRunning(s, s.request))
  }

  /** A call that left jbd2_complete_transaction found its transaction committed;
      one that is still inside asked for a tid that was handed out. */
  predicate CallOk(s: State, c: Fsync) {
    && c.wrote <= s.flushes
    && (c.pc.Written? || Allocated(s, c.serial))
    && (c.pc.Completed? || c.pc.Returned? ==> c.serial <= s.commitSeq)
    && (c.pc.Waiting? ==> OnItsWay(s, c.serial))
  }

  /** The transaction is committed, is being committed, or is running and requested. */
  predicate OnItsWay(s: State, serial: nat) {
    || serial <= s.commitSeq
    || (HasCommitting(s) && serial == s.commitSeq + 1)
    || (s.running && serial == Running(s) && s.request == Of(serial))
  }

  predicate Inv(s: State) {
    && RequestOk(s)
    && forall f :: f in s.calls ==> CallOk(s, s.calls[f])
  }

  lemma NearTids(s: State)
    ensures Of(s.commitSeq) != Of(s.commitSeq + 1) && Of(s.commitSeq + 1) != Of(s.commitSeq + 2)
    ensures Of(s.commitSeq) != Of(s.commitSeq + 2)
  {
    Compare(s.commitSeq, s.commitSeq + 1);
    Compare(s.commitSeq + 1, s.commitSeq + 2);
    Compare(s.commitSeq, s.commitSeq + 2);
  }

  lemma InitInv(barrier: bool, serial: nat)
    ensures Inv(Init(barrier, serial))
  {}

  lemma StepKeepsRequest(s: State, step: Step)
    requires RequestOk(s) && Enabled(s, step)
    ensures RequestOk(Apply(s, step))
    ensures s.commitSeq <= Apply(s, step).commitSeq <= s.commitSeq + 1
    ensures forall serial :: Allocated(s, serial) ==> Allocated(Apply(s, step), serial)
    ensures step.Lock? ==> s.running
  {
    NearTids(s);
    AllocatedKept(s, step);
  }

  lemma AllocatedKept(s: State, step: Step)
    requires RequestOk(s) && Enabled(s, step)
    ensures forall serial :: Allocated(s, serial) ==> Allocated(Apply(s, step), serial)
  {
  }

  /** jbd2_complete_transaction lets a caller go only if its transaction is
      committed, whatever the distance of the tids. */
  lemma LetGoMeansCommitted(s: State, serial: nat)
    requires Allocated(s, serial)
    ensures NextPc(s, Of(serial)).Completed? ==> serial <= s.commitSeq
    ensures !Gt(Of(serial), Of(s.commitSeq)) ==> serial <= s.commitSeq
  {
    if serial > s.commitSeq {
      Compare(serial, s.commitSeq);
    }
  }

  /** The flush of the commit of this transaction is over, or too far to be waited for. */
  predicate FlushPassed(s: State, serial: nat) {
    serial <= s.commitSeq || (HasCommitting(s) && serial == Committing(s) && (s.pc.JFlush? || s.pc.JFlushed?))
  }

  /** jbd2_trans_will_send_data_barrier is right about a transaction that is not 2^31
      commits old. */
  lemma WillSendIff(s: State, serial: nat)
    requires Allocated(s, serial) && s.commitSeq < serial + HALF
    ensures WillSend(s, Of(serial)) <==> s.barrier && !FlushPassed(s, serial)
    ensures Gt(Of(serial), Of(s.commitSeq)) <==> serial > s.commitSeq
  {
    Compare(s.commitSeq, serial);
    Compare(serial, s.commitSeq);
    NearTids(s);
  }

  lemma OnItsWayKept(s: State, step: Step, serial: nat)
    requires RequestOk(s) && Enabled(s, step) && OnItsWay(s, serial)
    ensures OnItsWay(Apply(s, step), serial)
  {
    NearTids(s);
  }

  /** Whoever is made to wait waits for a commit that is on its way: the transaction of an
      allocated tid is requested by then unless its commit has begun. */
  lemma WaitsForACommit(s: State, serial: nat)
    requires RequestOk(s) && Allocated(s, serial)
    ensures OnItsWay(Requested(s, Of(serial)), serial)
    ensures NextPc(s, Of(serial)).Waiting? ==> OnItsWay(s, serial)
  {
    NearTids(s);
    if serial > s.commitSeq {
      Compare(serial, s.commitSeq + 1);
    }
  }

  lemma CallKept(s: State, step: Step, f: nat)
    requires RequestOk(s) && Enabled(s, step) && f in s.calls && CallOk(s, s.calls[f])
    ensures f in Apply(s, step).calls && var ok := CallOk(Apply(s, step), Apply(s, step).calls[f]); ok
  {
    if Apply(s, step).calls[f] == s.calls[f] {
      if s.calls[f].pc.Waiting? {
        OnItsWayKept(s, step, s.calls[f].serial);
      }
    } else {
      OwnStepKept(s, step, f);
    }
  }

  /** A step that the call takes itself. */
  lemma OwnStepKept(s: State, step: Step, f: nat)
    requires RequestOk(s) && Enabled(s, step) && f in s.calls && CallOk(s, s.calls[f])
    requires Apply(s, step).calls[f] != s.calls[f]
    ensures var ok := CallOk(Apply(s, step), Apply(s, step).calls[f]); ok
  {
    if !s.calls[f].pc.Written? {
      LetGoMeansCommitted(s, s.calls[f].serial);
      WaitsForACommit(s, s.calls[f].serial);
    }
  }

  lemma NoOtherCalls(s: State, step: Step, f: nat)
    requires Enabled(s, step) && f in Apply(s, step).calls && f !in s.calls
    ensures step == DataWritten(f)
  {}

  lemma StepKeepsInv(s: State, step: Step)
    requires Inv(s) && Enabled(s, step)
    ensures Inv(Apply(s, step))
  {
    StepKeepsRequest(s, step);
    var s' := Apply(s, step);
    forall f | f in s'.calls ensures CallOk(s', s'.calls[f]) {
      if f in s.calls {
        CallKept(s, step, f);
      } else {
        NoOtherCalls(s, step, f);
      }
    }
  }

  // ------------------------------------------------------------------- runs

  predicate Feasible(s: State, steps: seq<Step>)
    decreases steps
  {
    steps == [] || (Enabled(s, steps[0]) && Feasible(Apply(s, steps[0]), steps[1..]))
  }

  function After(s: State, steps: seq<Step>): State
    requires Feasible(s, steps)
    decreases steps
  {
    if steps == [] then s else After(Apply(s, steps[0]), steps[1..])
  }

  /** Over every run: the request protocol holds, commits only add up, a commit
      never starts without a running transaction, and whoever left
      jbd2_complete_transaction has its transaction committed. */
  lemma {:induction false} RunKeepsInv(s: State, steps: seq<Step>)
    requires Inv(s) && Feasible(s, steps)
    ensures Inv(After(s, steps)) && s.commitSeq <= After(s, steps).commitSeq
    ensures var s' := After(s, steps);
            s'.pc.Woken? || s'.pc.Locked? ==> s'.running && s'.request == Of(s'.commitSeq + 1)
    ensures var s' := After(s, steps);
            forall f :: f in s'.calls && (s'.calls[f].pc.Completed? || s'.calls[f].pc.Returned?) ==>
              s'.calls[f].serial <= s'.commitSeq
    ensures var s' := After(s, steps);
            forall f :: f in s'.calls && s'.calls[f].pc.Waiting? ==>
              var serial := s'.calls[f].serial;
              || serial <= s'.commitSeq
              || (HasCommitting(s') && serial == s'.commitSeq + 1)
              || (s'.running && s'.request == Of(serial))
    decreases steps
  {
    if steps != [] {
      StepKeepsInv(s, steps[0]);
      StepKeepsRequest(s, steps[0]);
      RunKeepsInv(Apply(s, steps[0]), steps[1..]);
    }
  }

  lemma {:induction false} Append(s: State, a: seq<Step>, b: seq<Step>)
    requires Feasible(s, a) && Feasible(After(s, a), b)
    ensures Feasible(s, a + b) && After(s, a + b) == After(After(s, a), b)
    decreases a
  {
    if a == [] {
      assert a + b == b;
    } else {
      Append(Apply(s, a[0]), a[1..], b);
      assert (a + b)[1..] == a[1..] + b;
    }
  }

  // ---------------------------------------------------- a requested commit takes place

  /** The step that the commit thread takes next, if it has anything to do. */
  function NextOfCommit(s: State): Step {
    match s.pc
    case Idle => Wake
    case Woken => Lock
    case Locked => Switch
    case Flush => WriteLog
    case Commit => ToDFlush
    case DFlush => ToJFlush
    case JFlush => IssueFlush
    case JFlushed => FinishCommit
  }

  predicate OfCommitThread(step: Step) {
    step.Wake? || step.Lock? || step.Switch? || step.WriteLog? || step.ToDFlush? || step.ToJFlush?
    || step.IssueFlush? || step.FinishCommit?
  }

  function StepsLeft(pc: Pc): nat {
    match pc
    case Idle => 8
    case Woken => 7
    case Locked => 6
    case Flush => 5
    case Commit => 4
    case DFlush => 3
    case JFlush => 2
    case JFlushed => 1
  }

  /** No wakeup is lost: whatever a call waits for, the commit thread by itself goes on
      until it is committed. */
  lemma {:induction false} CommitComes(s: State, serial: nat) returns (steps: seq<Step>)
    requires RequestOk(s) && OnItsWay(s, serial)
    ensures Feasible(s, steps) && serial <= After(s, steps).commitSeq
    ensures forall k :: 0 <= k < |steps| ==> OfCommitThread(steps[k])
    decreases if serial <= s.commitSeq then 0 else serial - s.commitSeq, StepsLeft(s.pc)
  {
    if serial <= s.commitSeq {
      return [];
    }
    NearTids(s);
    var step := NextOfCommit(s);
    StepKeepsRequest(s, step);
    OnItsWayKept(s, step, serial);
    var rest := CommitComes(Apply(s, step), serial);
    steps := [step] + rest;
    assert steps[1..] == rest;
  }

  // -------------------------------------------------------- durability of fsync

  /** Between its decision and its return, a call without needs_barrier relies on
      a flush that has been issued since its data was written, or on a commit that
      has yet to issue one. */
  predicate Promised(s: State, f: nat) {
    f in s.calls && (
      var c := s.calls[f];
      || c.wrote < s.flushes
      || (!c.pc.Returned? && c.needs)
      || ((c.pc.Decided? || c.pc.Requesting? || c.pc.Waiting?) &&
          (IsRunning(s, Of(c.serial)) || (IsCommitting(s, Of(c.serial)) && !s.pc.JFlushed?))))
  }

  predicate IsCallStep(step: Step, f: nat) {
    step == DataWritten(f) || (step.Decide? && step.f == f)
    || step == Check(f) || step == StartCommit(f) || step == StopWaiting(f) || step == Return(f)
  }

  lemma PromiseKeptByOthers(s: State, step: Step, f: nat)
    requires s.barrier && Enabled(s, step) && !IsCallStep(step, f)
    requires Promised(s, f) && s.calls[f].wrote <= s.flushes
    ensures Promised(Apply(s, step), f) && Apply(s, step).calls[f] == s.calls[f]
  {}

  lemma PromiseKeptByCall(s: State, step: Step, f: nat)
    requires s.barrier && Enabled(s, step) && IsCallStep(step, f)
    requires Promised(s, f) && s.calls[f].wrote <= s.flushes && !s.calls[f].pc.Written?
    ensures Promised(Apply(s, step), f)
  {
    Compare(s.commitSeq + 1, s.commitSeq);
    Compare(s.commitSeq + 2, s.commitSeq);
  }

  lemma PromiseKept(s: State, step: Step, f: nat)
    requires s.barrier && Enabled(s, step)
    requires Promised(s, f) && CallOk(s, s.calls[f]) && !s.calls[f].pc.Written?
    ensures Promised(Apply(s, step), f) && Apply(s, step).barrier
    ensures !Apply(s, step).calls[f].pc.Written? && Apply(s, step).calls[f].wrote == s.calls[f].wrote
  {
    if IsCallStep(step, f) {
      PromiseKeptByCall(s, step, f);
    } else {
      PromiseKeptByOthers(s, step, f);
    }
  }

  lemma {:induction false} PromiseKeptOverRun(s: State, steps: seq<Step>, f: nat)
    requires s.barrier && Inv(s) && Feasible(s, steps)
    requires Promised(s, f) && !s.calls[f].pc.Written?
    ensures Promised(After(s, steps), f) && After(s, steps).calls[f].wrote == s.calls[f].wrote
    decreases steps
  {
    if steps != [] {
      PromiseKept(s, steps[0], f);
      StepKeepsInv(s, steps[0]);
      PromiseKeptOverRun(Apply(s, steps[0]), steps[1..], f);
    }
  }

  /** Whatever happens from s on, when call f returns a flush has been issued after
      its data had been written out. */
  ghost predicate DurableOnReturn(s: State, f: nat)
    requires f in s.calls
  {
    forall steps :: Feasible(s, steps) && At(After(s, steps), f, Returned) ==>
      s.calls[f].wrote < After(s, steps).flushes
  }

  /** The tid is neither running nor committing, and is more than 2^31 commits old:
      then jbd2_trans_will_send_data_barrier takes it for one still to come. */
  predicate Stale(s: State, tid: TidNum) {
    !IsRunning(s, tid) && !IsCommitting(s, tid) && !Geq(Of(s.commitSeq), tid)
  }

  lemma StaleMeansOld(s: State, serial: nat)
    requires Allocated(s, serial) && Stale(s, Of(serial))
    ensures serial <= s.commitSeq - HALF
  {
    if serial <= s.commitSeq {
      if s.commitSeq - serial < HALF {
        Compare(s.commitSeq, serial);
      }
    }
  }

  /** An fsync that decides in state s, with barriers on, is sure to have a flush
      behind it when it returns if and only if its tid is not stale or a flush has
      already come by since its data was written. */
  lemma FsyncDurableIff(s: State, f: nat, serial: nat)
    requires Inv(s) && s.barrier && Enabled(s, Decide(f, serial))
    ensures DurableOnReturn(Apply(s, Decide(f, serial)), f) <==>
            !Stale(s, Of(serial)) || s.calls[f].wrote < s.flushes
  {
    var s1 := Apply(s, Decide(f, serial));
    StepKeepsInv(s, Decide(f, serial));
    if !Stale(s, Of(serial)) || s.calls[f].wrote < s.flushes {
      assert Promised(s1, f);
      forall steps | Feasible(s1, steps) && At(After(s1, steps), f, Returned)
        ensures s1.calls[f].wrote < After(s1, steps).flushes
      {
        PromiseKeptOverRun(s1, steps, f);
      }
    } else {
      StaleReturnsAtOnce(s1, f);
    }
  }

  /** Two steps of the call itself, and it is back without a flush. */
  lemma StaleReturnsAtOnce(s1: State, f: nat)
    requires At(s1, f, Decided) && !s1.calls[f].needs && s1.calls[f].wrote >= s1.flushes
    requires Stale(s1, Of(s1.calls[f].serial))
    ensures Feasible(s1, [Check(f), Return(f)])
    ensures At(After(s1, [Check(f), Return(f)]), f, Returned)
    ensures After(s1, [Check(f), Return(f)]).flushes == s1.flushes
    ensures After(s1, [Check(f), Return(f)]).calls[f] == s1.calls[f].(pc := Returned)
    ensures !DurableOnReturn(s1, f)
  {
    var steps: seq<Step> := [Check(f), Return(f)];
    var s2 := Apply(s1, Check(f));
    var s3 := Apply(s2, Return(f));
    assert steps[1..] == [Return(f)] && steps[1..][1..] == [];
    assert Feasible(s2, steps[1..]);
    assert After(s2, steps[1..]) == After(s3, steps[1..][1..]);
    assert After(s1, steps) == After(s2, steps[1..]);
  }

  /** With fewer than 2^31 commits since the inode was last in a transaction, fsync
      keeps its promise in every run. */
  lemma FsyncDurable(serial0: nat, before: seq<Step>, f: nat, serial: nat, after: seq<Step>)
    requires Feasible(Init(true, serial0), before)
    requires var s := After(Init(true, serial0), before);
             && Enabled(s, Decide(f, serial)) && s.commitSeq < serial + HALF
             && Feasible(Apply(s, Decide(f, serial)), after)
             && At(After(Apply(s, Decide(f, serial)), after), f, Returned)
    ensures var s := After(Init(true, serial0), before);
            var s' := After(Apply(s, Decide(f, serial)), after);
            s.calls[f].wrote < s'.flushes && serial <= s'.commitSeq
  {
    InitInv(true, serial0);
    RunKeepsInv(Init(true, serial0), before);
    BarrierKept(Init(true, serial0), before);
    var s := After(Init(true, serial0), before);
    if Stale(s, Of(serial)) {
      StaleMeansOld(s, serial);
    }
    FsyncDurableIff(s, f, serial);
    StepKeepsInv(s, Decide(f, serial));
    RunKeepsInv(Apply(s, Decide(f, serial)), after);
    SerialKept(Apply(s, Decide(f, serial)), after, f);
  }

  /** Step k of the run issues a flush to the device. */
  ghost predicate FlushAt(s: State, steps: seq<Step>, k: nat) {
    && k < |steps| && Feasible(s, steps[..k])
    && var t := After(s, steps[..k]);
       && Enabled(t, steps[k])
       && match steps[k]
          case IssueFlush => t.barrier
          case Return(f) => t.calls[f].needs
          case _ => false
  }

  /** The count of flushes grows by these steps only. */
  lemma {:induction false} FlushesAreIssued(s: State, steps: seq<Step>)
    requires Feasible(s, steps)
    ensures s.flushes <= After(s, steps).flushes
    ensures s.flushes < After(s, steps).flushes ==> exists k: nat :: FlushAt(s, steps, k)
    decreases steps
  {
    if steps != [] {
      var t := Apply(s, steps[0]);
      FlushesAreIssued(t, steps[1..]);
      if s.flushes < t.flushes {
        assert FlushAt(s, steps, 0);
      } else if t.flushes < After(s, steps).flushes {
        var k: nat :| FlushAt(t, steps[1..], k);
        assert steps[..k + 1][1..] == steps[1..][..k];
        assert FlushAt(s, steps, k + 1);
      }
    }
  }

  lemma {:induction false} WroteKept(s: State, steps: seq<Step>, f: nat)
    requires Feasible(s, steps) && f in s.calls
    ensures f in After(s, steps).calls && After(s, steps).calls[f].wrote == s.calls[f].wrote
    decreases steps
  {
    if steps != [] {
      WroteKept(Apply(s, steps[0]), steps[1..], f);
    }
  }

  /** The same by what takes place: between the write-out of the data and the return of
      the call a flush is issued to the device. */
  lemma FsyncFlushes(serial0: nat, before: seq<Step>, f: nat, middle: seq<Step>, serial: nat, after: seq<Step>)
    requires Feasible(Init(true, serial0), before)
    requires var s := After(Init(true, serial0), before);
             && Enabled(s, DataWritten(f)) && Feasible(Apply(s, DataWritten(f)), middle)
             && var t := After(Apply(s, DataWritten(f)), middle);
                && Enabled(t, Decide(f, serial)) && t.commitSeq < serial + HALF
                && Feasible(Apply(t, Decide(f, serial)), after)
                && At(After(Apply(t, Decide(f, serial)), after), f, Returned)
    ensures var s := Apply(After(Init(true, serial0), before), DataWritten(f));
            Feasible(s, middle + ([Decide(f, serial)] + after))
            && exists k: nat :: FlushAt(s, middle + ([Decide(f, serial)] + after), k)
  {
    var s0 := After(Init(true, serial0), before);
    var s := Apply(s0, DataWritten(f));
    var t := After(s, middle);
    var last := [Decide(f, serial)] + after;
    assert last[1..] == after;
    Append(s, middle, last);
    WroteKept(s, middle, f);
    var early := before + ([DataWritten(f)] + middle);
    assert ([DataWritten(f)] + middle)[1..] == middle;
    Append(Init(true, serial0), before, [DataWritten(f)] + middle);
    FsyncDurable(serial0, early, f, serial, after);
    FlushesAreIssued(s, middle + last);
  }

  lemma {:induction false} BarrierKept(s: State, steps: seq<Step>)
    requires Feasible(s, steps)
    ensures After(s, steps).barrier == s.barrier
    decreases steps
  {
    if steps != [] {
      BarrierKept(Apply(s, steps[0]), steps[1..]);
    }
  }

  lemma {:induction false} SerialKept(s: State, steps: seq<Step>, f: nat)
    requires Feasible(s, steps) && f in s.calls && !s.calls[f].pc.Written?
    ensures f in After(s, steps).calls && After(s, steps).calls[f].serial == s.calls[f].serial
    decreases steps
  {
    if steps != [] {
      SerialKept(Apply(s, steps[0]), steps[1..], f);
    }
  }

  // ----------------------------------------- the stale tid does occur in a run

  lemma Extend(s: State, a: seq<Step>, step: Step) returns (b: seq<Step>)
    requires Feasible(s, a) && Enabled(After(s, a), step)
    ensures Feasible(s, b) && After(s, b) == Apply(After(s, a), step)
  {
    var t := After(s, a);
    var one := [step];
    var t' := Apply(t, step);
    assert one[1..] == [] && Feasible(t', []) && After(t', []) == t';
    assert Feasible(t, one);
    assert After(t, one) == After(t', one[1..]);
    Append(s, a, one);
    b := a + one;
  }

  /** One transaction from its creation to the end of its commit. */
  lemma OneCommit(s: State) returns (steps: seq<Step>)
    requires s.pc.Idle? && !s.running && s.request == Of(s.commitSeq)
    ensures Feasible(s, steps)
    ensures After(s, steps) == s.(commitSeq := s.commitSeq + 1, request := Of(s.commitSeq + 1),
                                  flushes := s.flushes + if s.barrier then 1 else 0)
  {
    NearTids(s);
    steps := Extend(s, [], BeginTxn);
    steps := Extend(s, steps, Timer);
    steps := Extend(s, steps, Wake);
    steps := Extend(s, steps, Lock);
    steps := Extend(s, steps, Switch);
    steps := Extend(s, steps, WriteLog);
    steps := Extend(s, steps, ToDFlush);
    steps := Extend(s, steps, ToJFlush);
    steps := Extend(s, steps, IssueFlush);
    steps := Extend(s, steps, FinishCommit);
  }

  lemma {:induction false} ManyCommits(s: State, n: nat) returns (steps: seq<Step>)
    requires s.pc.Idle? && !s.running && s.request == Of(s.commitSeq)
    ensures Feasible(s, steps)
    ensures var s' := After(s, steps);
            && s'.pc.Idle? && !s'.running && s'.commitSeq == s.commitSeq + n
            && s'.calls == s.calls && s'.barrier == s.barrier
    decreases n
  {
    if n == 0 {
      steps := [];
    } else {
      var first := OneCommit(s);
      var rest := ManyCommits(After(s, first), n - 1);
      Append(s, first, rest);
      steps := first + rest;
    }
  }

  /** A whole fsync call with a stale tid and nobody else around. */
  lemma StaleCall(s: State) returns (steps: seq<Step>)
    requires s.barrier && s.calls == map[] && Allocated(s, 0) && Stale(s, Of(0))
    ensures Feasible(s, steps)
    ensures var s' := After(s, steps);
            At(s', 0, Returned) && s'.calls[0].serial == 0 && s'.calls[0].wrote == s'.flushes
  {
    steps := Extend(s, [], DataWritten(0));
    steps := Extend(s, steps, Decide(0, 0));
    StaleReturnsAtOnce(After(s, steps), 0);
    Append(s, steps, [Check(0), Return(0)]);
    steps := steps + [Check(0), Return(0)];
  }

  /** A file that was last in a transaction 2^31 commits ago: its fsync, barriers
      on, comes back with no flush since its data was written. */
  lemma StaleTidLosesTheFlush() returns (steps: seq<Step>)
    ensures Feasible(Init(true, 0), steps)
    ensures var s := After(Init(true, 0), steps);
            At(s, 0, Returned) && s.calls[0].serial == 0 && s.calls[0].wrote == s.flushes
  {
    var s0 := Init(true, 0);
    var commits := ManyCommits(s0, HALF);
    var s := After(s0, commits);
    var call := StaleCall(s);
    Append(s0, commits, call);
    steps := commits + call;
  }
}
