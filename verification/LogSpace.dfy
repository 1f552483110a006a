/** The circular log of the journal: who owns which part of it, and when its
    tail may move.  Positions and serial numbers are unbounded here; the class
    in LogArea.dfy keeps the wrapped block numbers and tids of the source.

    One atomic step is one region under j_state_lock, j_list_lock or
    j_checkpoint_mutex, or one I/O submission; steps of the commit thread, of
    checkpointers and of everybody else interleave freely.  */
module LogSpace {
  import Units

  /** A (tid, block) pair as jbd2_journal_get_log_tail returns it. */
  datatype Mark = Mark(serial: nat, pos: nat)

  datatype Maybe = NoMark | Some(mark: Mark)

  /** A transaction in the log: where it starts, and the buffers on its two
      checkpoint lists. */
  datatype Txn = Txn(serial: nat, start: nat, bufs: set<nat>, finished: bool)

  datatype MaybeTxn = NoTxn | Is(txn: Txn)

  /** The transactions in the log. */
  datatype Log = Log(
    base: nat,                // serial of the first transaction after the reset
    starts: seq<nat>,         // start of every transaction whose commit began
    head: nat,                // j_head
    committing: MaybeTxn,     // j_committing_transaction
    checkpoint: seq<Txn>      // j_checkpoint_transactions, oldest first
  )

  /** Where the commit thread stands. */
  datatype Pc =
    | Idle
    | Logging                 // T_FLUSH, T_COMMIT
    | Snapped                 // tail read, not yet judged
    | DFlush                  // T_COMMIT_DFLUSH
    | Early                   // T_COMMIT_DFLUSH, commit record already submitted
    | JFlush                  // T_COMMIT_JFLUSH
    | Flushed                 // commit record and flush are out
    | TailOwned               // in jbd2_update_log_tail, past its test
    | TailWritten             // ... and past the superblock write
    | Forget                  // forget list to checkpoint lists
    | Callback                // on the list, not T_FINISHED

  /** j_checkpoint_mutex and, when a checkpointer holds it, how far
      jbd2_cleanup_journal_tail got. */
  datatype Mutex = Free | ByCommit | Held | HeldSnap | HeldFlushed | HeldWritten

  type Size = n: nat | n > 0 witness 1

  datatype State = State(
    size: Size,               // j_last - j_first
    barrier: bool,            // JBD2_BARRIER
    async: bool,              // JBD2_FEATURE_INCOMPAT_ASYNC_COMMIT
    log: Log,
    tail: Mark,               // j_tail_sequence, j_tail
    running: bool,            // j_running_transaction != NULL
    pc: Pc,
    update: Maybe,            // first_tid and first_block, while update_tail holds
    mutex: Mutex,
    found: Maybe,             // first_tid and blocknr of jbd2_cleanup_journal_tail
    empty: bool,              // JBD2_FLUSHED: the superblock says s_start == 0
    sb: Mark,                 // log tail in the on-disk superblock
    durable: nat              // every older transaction was out of the log at a flush
  )

  function Init(size: Size, barrier: bool, async: bool, base: nat, clean: bool): State {
    State(size, barrier, async, Log(base, [], 0, NoTxn, []), Mark(base, 0), false,
          Idle, NoMark, Free, NoMark, clean, Mark(base, 0), base)
  }

  /** Serial that the next transaction whose commit begins will have. */
  function NextCommit(l: Log): nat {
    l.base + |l.starts|
  }

  /** jbd2_journal_get_log_tail: the oldest transaction still in the log. */
  function Oldest(l: Log): Mark {
    if l.checkpoint != [] then Mark(l.checkpoint[0].serial, l.checkpoint[0].start)
    else if l.committing.Is? then Mark(l.committing.txn.serial, l.committing.txn.start)
    else Mark(NextCommit(l), l.head)
  }

  function FreeBlocks(s: State): int {
    s.size - (s.log.head - s.tail.pos)
  }

  function Candidate(s: State): Maybe {
    if Oldest(s.log).serial > s.tail.serial then Some(Oldest(s.log)) else NoMark
  }

  predicate OnSomeList(l: Log, b: nat) {
    || (l.committing.Is? && b in l.committing.txn.bufs)
    || exists i :: 0 <= i < |l.checkpoint| && b in l.checkpoint[i].bufs
  }

  function DropAt(list: seq<Txn>, i: nat): seq<Txn>
    requires i < |list|
  {
    list[..i] + list[i + 1..]
  }

  /** __jbd2_journal_remove_checkpoint on a listed transaction. */
  function Removed(list: seq<Txn>, i: nat, b: nat): seq<Txn>
    requires i < |list|
  {
    var t := list[i].(bufs := list[i].bufs - {b});
    if t.bufs == {} && t.finished then DropAt(list, i) else list[i := t]
  }

  /** The end of jbd2_journal_commit_transaction: T_FINISHED, and off the list at
      once if nothing is left to checkpoint. */
  function Finished(list: seq<Txn>): seq<Txn>
    requires list != []
  {
    var last := |list| - 1;
    var t := list[last].(finished := true);
    if t.bufs == {} then list[..last] else list[last := t]
  }

  function Begun(l: Log): Log {
    l.(committing := Is(Txn(NextCommit(l), l.head, {}, false)), starts := l.starts + [l.head])
  }

  function Grown(l: Log): Log {
    l.(head := l.head + 1)
  }

  function WithBufs(l: Log, bufs: set<nat>): Log
    requires l.committing.Is?
  {
    l.(committing := Is(l.committing.txn.(bufs := bufs)))
  }

  function Listed(l: Log): Log
    requires l.committing.Is?
  {
    l.(checkpoint := l.checkpoint + [l.committing.txn], committing := NoTxn)
  }

  /** A flush of the device makes durable whatever was written back before: all that was
      on the lists of the transactions older than the oldest one in the log, except for
      what a later commit logged again. */
  function Flush(s: State): State {
    if s.barrier then s.(durable := Oldest(s.log).serial) else s
  }

  datatype Step =
    | BeginTxn
    | InitSuperblock
    | BeginCommit
    | LogBlock
    | ReadTail
    | JudgeTail(keep: bool)
    | AsyncRecord
    | ToJFlush
    | Record
    | TryTail
    | WriteTailSb
    | MoveTail
    | InsertBuffer(b: nat)
    | RemoveFromCommitting(b: nat)
    | RemoveFromList(i: nat, b: nat)
    | ToCallback
    | Finish
    | Acquire
    | CleanRead
    | CleanFlush
    | CleanWrite
    | CleanMove
    | Release

  /** When a step can be taken.  The assertion on j_free of the source stands
      here: no block is handed out unless more than one is free. */
  predicate Enabled(s: State, step: Step) {
    match step
    case BeginTxn => !s.running
    case InitSuperblock => s.pc.Idle? && s.empty && s.mutex.Free?
    case BeginCommit => s.pc.Idle? && s.running && !s.empty
    case LogBlock => s.pc.Logging? && FreeBlocks(s) > 1
    case ReadTail => s.pc.Logging?
    case JudgeTail(_) => s.pc.Snapped?
    case AsyncRecord => s.pc.DFlush? && s.async && FreeBlocks(s) > 1
    case ToJFlush => if s.async then s.pc.Early? else s.pc.DFlush?
    case Record => s.pc.JFlush? && (s.async || FreeBlocks(s) > 1)
    case TryTail => s.pc.Flushed? && (s.update.Some? ==> s.mutex.Free?)
    case WriteTailSb => s.pc.TailOwned? && s.update.Some?
    case MoveTail => s.pc.TailWritten? && s.update.Some?
    case InsertBuffer(b) => s.pc.Forget? && s.log.committing.Is? && !OnSomeList(s.log, b)
    case RemoveFromCommitting(b) => s.log.committing.Is? && b in s.log.committing.txn.bufs
    case RemoveFromList(i, b) => i < |s.log.checkpoint| && b in s.log.checkpoint[i].bufs
    case ToCallback => s.pc.Forget? && s.log.committing.Is?
    case Finish => s.pc.Callback? && s.log.checkpoint != []
    case Acquire => s.mutex.Free?
    case CleanRead => s.mutex.Held?
    case CleanFlush => s.mutex.HeldSnap?
    case CleanWrite => s.mutex.HeldFlushed? && s.found.Some?
    case CleanMove => s.mutex.HeldWritten? && s.found.Some?
    case Release => s.mutex.Held?
  }

  function Apply(s: State, step: Step): State
    requires Enabled(s, step)
  {
    match step
    case BeginTxn => s.(running := true)
    case InitSuperblock => s.(sb := s.tail, empty := false)
    case BeginCommit => s.(log := Begun(s.log), running := false, pc := Logging)
    case LogBlock => s.(log := Grown(s.log))
    case ReadTail => s.(update := Candidate(s), pc := Snapped)
    case JudgeTail(keep) => s.(update := if keep then s.update else NoMark, pc := DFlush)
    case AsyncRecord => s.(log := Grown(s.log), pc := Early)
    case ToJFlush => s.(pc := JFlush)
    case Record => Flush(if s.async then s else s.(log := Grown(s.log))).(pc := Flushed)
    case TryTail =>
      if s.update.Some? && s.update.mark.serial > s.tail.serial
      then s.(pc := TailOwned, mutex := ByCommit)
      else s.(update := NoMark, pc := Forget)
    case WriteTailSb => s.(sb := s.update.mark, empty := false, pc := TailWritten)
    case MoveTail => s.(tail := s.update.mark, update := NoMark, mutex := Free, pc := Forget)
    case InsertBuffer(b) => s.(log := WithBufs(s.log, s.log.committing.txn.bufs + {b}))
    case RemoveFromCommitting(b) => s.(log := WithBufs(s.log, s.log.committing.txn.bufs - {b}))
    case RemoveFromList(i, b) =>
      s.(log := s.log.(checkpoint := Removed(s.log.checkpoint, i, b)))
    case ToCallback => s.(log := Listed(s.log), pc := Callback)
    case Finish => s.(log := s.log.(checkpoint := Finished(s.log.checkpoint)), pc := Idle)
    case Acquire => s.(mutex := Held)
    case CleanRead =>
      if Candidate(s).Some? then s.(found := Candidate(s), mutex := HeldSnap) else s
    case CleanFlush => Flush(s).(mutex := HeldFlushed)
    case CleanWrite => s.(sb := s.found.mark, empty := false, mutex := HeldWritten)
    case CleanMove => s.(tail := s.found.mark, found := NoMark, mutex := Held)
    case Release => s.(mutex := Free)
  }

  // ---------------------------------------------------------------- invariant

  /** m names the start of a transaction in the log, or the place where the next
      one will start. */
  predicate Boundary(l: Log, m: Mark) {
    && l.base <= m.serial <= NextCommit(l)
    && if m.serial < NextCommit(l) then m.pos == l.starts[m.serial - l.base]
       else l.committing.NoTxn? && m.pos == l.head
  }

  /** A mark read earlier and still to be applied: stale perhaps, but a boundary
      that nothing in the log lies before. */
  predicate Usable(l: Log, m: Mark) {
    Boundary(l, m) && m.serial <= Oldest(l).serial
  }

  /** The commit record of the committing transaction has a block. */
  predicate RecordOut(async: bool, pc: Pc) {
    !pc.Logging? && !pc.Snapped? && !pc.DFlush? && (pc.JFlush? ==> async)
  }

  predicate StartsOk(l: Log, recordOut: bool) {
    && (forall i, j :: 0 <= i < j < |l.starts| ==> l.starts[i] < l.starts[j])
    && (forall i :: 0 <= i < |l.starts| ==> l.starts[i] <= l.head)
    && (l.starts != [] && recordOut ==> l.starts[|l.starts| - 1] < l.head)
  }

  predicate InLog(l: Log, t: Txn) {
    && l.base <= t.serial < NextCommit(l)
    && t.start == l.starts[t.serial - l.base]
  }

  predicate ListOk(l: Log) {
    && (forall i :: 0 <= i < |l.checkpoint| ==> InLog(l, l.checkpoint[i]))
    && (forall i, j :: 0 <= i < j < |l.checkpoint| ==> l.checkpoint[i].serial < l.checkpoint[j].serial)
    && (l.committing.Is? ==>
          && InLog(l, l.committing.txn)
          && l.committing.txn.serial == NextCommit(l) - 1
          && !l.committing.txn.finished
          && forall i :: 0 <= i < |l.checkpoint| ==> l.checkpoint[i].serial < l.committing.txn.serial)
  }

  /** A finished transaction is on the list exactly while it has buffers left; the
      one in its commit callback is last and not finished. */
  predicate FinishedOk(l: Log, callback: bool) {
    && (callback ==>
          && l.checkpoint != []
          && l.checkpoint[|l.checkpoint| - 1].serial == NextCommit(l) - 1)
    && forall i :: 0 <= i < |l.checkpoint| ==>
         if callback && i == |l.checkpoint| - 1 then !l.checkpoint[i].finished
         else l.checkpoint[i].finished && l.checkpoint[i].bufs != {}
  }

  predicate BuffersOk(l: Log) {
    && (forall i, j :: 0 <= i < j < |l.checkpoint| ==> l.checkpoint[i].bufs !! l.checkpoint[j].bufs)
    && (l.committing.Is? ==>
          forall i :: 0 <= i < |l.checkpoint| ==> l.checkpoint[i].bufs !! l.committing.txn.bufs)
  }

  predicate LogOk(l: Log, recordOut: bool, callback: bool) {
    StartsOk(l, recordOut) && ListOk(l) && FinishedOk(l, callback) && BuffersOk(l)
  }

  predicate PcOk(s: State) {
    && (s.log.committing.Is? <==> !s.pc.Idle? && !s.pc.Callback?)
    && (s.mutex.ByCommit? <==> s.pc.TailOwned? || s.pc.TailWritten?)
    && (s.log.committing.Is? ==> !s.empty)
    && (s.update.Some? ==> !s.pc.Idle? && !s.pc.Logging? && !s.pc.Forget? && !s.pc.Callback?)
    && (s.pc.TailOwned? || s.pc.TailWritten? ==> s.update.Some?)
    && (s.found.Some? <==> s.mutex.HeldSnap? || s.mutex.HeldFlushed? || s.mutex.HeldWritten?)
  }

  predicate UsableAll(s: State) {
    && Usable(s.log, s.tail)
    && (!s.empty ==> Usable(s.log, s.sb))
    && (s.update.Some? ==> Usable(s.log, s.update.mark))
    && (s.found.Some? ==> Usable(s.log, s.found.mark))
  }

  /** The superblock is never behind the tail in memory, and differs from it only
      between the two halves of __jbd2_update_log_tail. */
  predicate TailOk(s: State) {
    && (s.update.Some? && (s.pc.TailOwned? || s.pc.TailWritten?) ==> s.tail.serial < s.update.mark.serial)
    && (s.found.Some? ==> s.tail.serial < s.found.mark.serial)
    && (s.mutex.HeldWritten? ==> !s.empty && s.found == Some(s.sb))
    && (s.pc.TailWritten? ==> !s.empty && s.update == Some(s.sb))
    && (!s.empty && !s.mutex.HeldWritten? && !s.pc.TailWritten? ==> s.sb == s.tail)
  }

  predicate DurableOk(s: State) {
    && s.durable <= Oldest(s.log).serial
    && (s.barrier ==>
          && s.tail.serial <= s.durable
          && (!s.empty ==> s.sb.serial <= s.durable)
          && (s.update.Some? && (s.pc.Flushed? || s.pc.TailOwned? || s.pc.TailWritten?) ==>
                s.update.mark.serial <= s.durable)
          && (s.found.Some? && !s.mutex.HeldSnap? ==> s.found.mark.serial <= s.durable))
  }

  predicate SpaceOk(s: State) {
    s.tail.pos <= s.log.head && 1 <= FreeBlocks(s)
  }

  /** A tail that went stale since the commit read it is less than a lap behind
      the transaction that is committing. */
  predicate StaleOk(s: State) {
    s.update.Some? && s.log.committing.Is? ==> s.log.committing.txn.start < s.update.mark.pos + s.size
  }

  predicate PointersOk(s: State) {
    SpaceOk(s) && StaleOk(s) && PcOk(s) && UsableAll(s) && TailOk(s) && DurableOk(s)
  }

  predicate Inv(s: State) {
    LogOk(s.log, RecordOut(s.async, s.pc), s.pc.Callback?) && PointersOk(s)
  }

  // ------------------------------------------------------- the log by itself

  /** Later transactions start later. */
  lemma BoundaryOrder(l: Log, recordOut: bool, a: Mark, b: Mark)
    requires StartsOk(l, recordOut) && Boundary(l, a) && Boundary(l, b) && a.serial <= b.serial
    ensures a.pos <= b.pos <= l.head
  {}

  lemma OldestIsUsable(l: Log)
    requires ListOk(l)
    ensures Usable(l, Oldest(l))
  {}

  /** The next state of the log forgets no mark: what was usable stays usable. */
  ghost predicate Keeps(l: Log, l': Log) {
    && Oldest(l).serial <= Oldest(l').serial
    && forall m :: Usable(l, m) ==> Usable(l', m)
  }

  lemma BegunOk(l: Log)
    requires LogOk(l, true, false) && l.committing.NoTxn?
    ensures LogOk(Begun(l), false, false)
  {}

  lemma BegunKeeps(l: Log)
    requires ListOk(l) && l.committing.NoTxn?
    ensures Keeps(l, Begun(l))
  {}

  lemma GrownOk(l: Log, recordOut: bool)
    requires LogOk(l, recordOut, false) && l.committing.Is?
    ensures LogOk(Grown(l), true, false)
  {
    assert FinishedOk(Grown(l), false) && BuffersOk(Grown(l));
  }

  lemma GrownKeeps(l: Log)
    requires l.committing.Is?
    ensures Keeps(l, Grown(l))
  {}

  lemma WithBufsOk(l: Log, bufs: set<nat>, recordOut: bool)
    requires LogOk(l, recordOut, false) && l.committing.Is?
    requires forall i :: 0 <= i < |l.checkpoint| ==> l.checkpoint[i].bufs !! bufs
    ensures LogOk(WithBufs(l, bufs), recordOut, false)
  {
    WithBufsKeeps(l, bufs);
  }

  lemma WithBufsKeeps(l: Log, bufs: set<nat>)
    requires ListOk(l) && l.committing.Is?
    ensures Keeps(l, WithBufs(l, bufs)) && ListOk(WithBufs(l, bufs))
  {}

  lemma ListedOk(l: Log)
    requires LogOk(l, true, false) && l.committing.Is?
    ensures LogOk(Listed(l), true, true)
  {
    ListedKeeps(l);
  }

  lemma ListedKeeps(l: Log)
    requires ListOk(l) && l.committing.Is?
    ensures Keeps(l, Listed(l)) && ListOk(Listed(l))
  {}

  lemma DropAtAt(list: seq<Txn>, i: nat, k: nat)
    requires i < |list| && k < |list| - 1
    ensures DropAt(list, i)[k] == list[if k < i then k else k + 1]
  {}

  lemma DropAtListOk(l: Log, i: nat)
    requires ListOk(l) && i < |l.checkpoint|
    ensures ListOk(l.(checkpoint := DropAt(l.checkpoint, i)))
  {
    forall k | 0 <= k < |l.checkpoint| - 1
      ensures DropAt(l.checkpoint, i)[k] == l.checkpoint[if k < i then k else k + 1]
    {
      DropAtAt(l.checkpoint, i, k);
    }
  }

  lemma DropAtBuffersOk(l: Log, i: nat)
    requires BuffersOk(l) && i < |l.checkpoint|
    ensures BuffersOk(l.(checkpoint := DropAt(l.checkpoint, i)))
  {
    var c, d := l.checkpoint, DropAt(l.checkpoint, i);
    forall j, k | 0 <= j < k < |d| ensures d[j].bufs !! d[k].bufs {
      DropAtAt(c, i, j);
      DropAtAt(c, i, k);
    }
    forall k | 0 <= k < |d| && l.committing.Is? ensures d[k].bufs !! l.committing.txn.bufs {
      DropAtAt(c, i, k);
    }
  }

  lemma DropAtFinishedOk(l: Log, i: nat, callback: bool)
    requires FinishedOk(l, callback) && i < |l.checkpoint|
    requires callback ==> i < |l.checkpoint| - 1
    ensures FinishedOk(l.(checkpoint := DropAt(l.checkpoint, i)), callback)
  {
    forall k | 0 <= k < |l.checkpoint| - 1
      ensures DropAt(l.checkpoint, i)[k] == l.checkpoint[if k < i then k else k + 1]
    {
      DropAtAt(l.checkpoint, i, k);
    }
  }

  lemma DropAtKeeps(l: Log, i: nat)
    requires ListOk(l) && i < |l.checkpoint|
    ensures Keeps(l, l.(checkpoint := DropAt(l.checkpoint, i)))
  {
    var l' := l.(checkpoint := DropAt(l.checkpoint, i));
    if |l'.checkpoint| > 0 {
      DropAtAt(l.checkpoint, i, 0);
    }
    assert Oldest(l).serial <= Oldest(l').serial;
  }

  lemma RemovedOk(l: Log, i: nat, b: nat, recordOut: bool, callback: bool)
    requires LogOk(l, recordOut, callback) && i < |l.checkpoint|
    ensures var l' := l.(checkpoint := Removed(l.checkpoint, i, b));
            LogOk(l', recordOut, callback) && Keeps(l, l')
  {
    var t := l.checkpoint[i].(bufs := l.checkpoint[i].bufs - {b});
    if t.bufs == {} && t.finished {
      DropAtListOk(l, i);
      DropAtBuffersOk(l, i);
      DropAtFinishedOk(l, i, callback);
      DropAtKeeps(l, i);
    } else {
      ReplaceOk(l, i, t, callback, callback);
    }
  }

  /** A listed transaction loses a buffer or becomes finished. */
  lemma ReplaceOk(l: Log, i: nat, t: Txn, callback: bool, callback': bool)
    requires ListOk(l) && BuffersOk(l) && FinishedOk(l, callback) && i < |l.checkpoint|
    requires t.serial == l.checkpoint[i].serial && t.start == l.checkpoint[i].start
    requires t.bufs <= l.checkpoint[i].bufs
    requires callback' ==> callback && t.finished == l.checkpoint[i].finished
    requires callback && !callback' ==> i == |l.checkpoint| - 1
    requires !(callback' && i == |l.checkpoint| - 1) ==> t.finished && t.bufs != {}
    ensures var l' := l.(checkpoint := l.checkpoint[i := t]);
            ListOk(l') && BuffersOk(l') && FinishedOk(l', callback') && Keeps(l, l')
  {
    ReplaceBuffersOk(l, i, t);
    ReplaceListOk(l, i, t);
  }

  lemma ReplaceListOk(l: Log, i: nat, t: Txn)
    requires ListOk(l) && i < |l.checkpoint|
    requires t.serial == l.checkpoint[i].serial && t.start == l.checkpoint[i].start
    ensures ListOk(l.(checkpoint := l.checkpoint[i := t]))
    ensures Keeps(l, l.(checkpoint := l.checkpoint[i := t]))
  {}

  lemma ReplaceBuffersOk(l: Log, i: nat, t: Txn)
    requires BuffersOk(l) && i < |l.checkpoint| && t.bufs <= l.checkpoint[i].bufs
    ensures BuffersOk(l.(checkpoint := l.checkpoint[i := t]))
  {}

  lemma FinishedListOk(l: Log)
    requires LogOk(l, true, true) && l.committing.NoTxn?
    ensures var l' := l.(checkpoint := Finished(l.checkpoint));
            LogOk(l', true, false) && Keeps(l, l')
  {
    var last := |l.checkpoint| - 1;
    var t := l.checkpoint[last].(finished := true);
    if t.bufs == {} {
      assert DropAt(l.checkpoint, last) == l.checkpoint[..last];
      DropAtListOk(l, last);
      DropAtBuffersOk(l, last);
      DropAtKeeps(l, last);
    } else {
      ReplaceOk(l, last, t, true, false);
    }
  }

  // -------------------------------------------------------------- every step

  lemma InitInv(size: Size, barrier: bool, async: bool, base: nat, clean: bool)
    ensures Inv(Init(size, barrier, async, base, clean))
  {}

  predicate ChangesLog(step: Step) {
    || step.BeginCommit? || step.LogBlock? || step.AsyncRecord? || step.InsertBuffer?
    || step.RemoveFromCommitting? || step.RemoveFromList? || step.ToCallback? || step.Finish?
    || step.Record?
  }

  predicate ChangesBuffers(step: Step) {
    step.InsertBuffer? || step.RemoveFromCommitting? || step.RemoveFromList?
  }

  lemma BufferPart(s: State, step: Step)
    requires LogOk(s.log, RecordOut(s.async, s.pc), s.pc.Callback?) && PcOk(s)
    requires Enabled(s, step) && ChangesBuffers(step)
    ensures var s' := Apply(s, step);
            LogOk(s'.log, RecordOut(s.async, s'.pc), s'.pc.Callback?) && Keeps(s.log, s'.log)
  {
    match step
    case InsertBuffer(b) =>
      WithBufsOk(s.log, s.log.committing.txn.bufs + {b}, true);
      WithBufsKeeps(s.log, s.log.committing.txn.bufs + {b});
    case RemoveFromCommitting(b) =>
      WithBufsOk(s.log, s.log.committing.txn.bufs - {b}, RecordOut(s.async, s.pc));
      WithBufsKeeps(s.log, s.log.committing.txn.bufs - {b});
    case RemoveFromList(i, b) =>
      RemovedOk(s.log, i, b, RecordOut(s.async, s.pc), s.pc.Callback?);
  }

  /** What a step does to the transactions, seen apart from all pointers. */
  lemma LogPart(s: State, step: Step)
    requires LogOk(s.log, RecordOut(s.async, s.pc), s.pc.Callback?) && PcOk(s)
    requires Enabled(s, step) && ChangesLog(step)
    ensures var s' := Apply(s, step);
            LogOk(s'.log, RecordOut(s.async, s'.pc), s'.pc.Callback?) && Keeps(s.log, s'.log)
  {
    match step
    case BeginCommit => BegunOk(s.log); BegunKeeps(s.log);
    case LogBlock => GrownOk(s.log, false); GrownKeeps(s.log);
    case AsyncRecord => GrownOk(s.log, false); GrownKeeps(s.log);
    case Record => if !s.async { GrownOk(s.log, false); GrownKeeps(s.log); }
    case ToCallback => ListedOk(s.log); ListedKeeps(s.log);
    case Finish => FinishedListOk(s.log);
    case _ => BufferPart(s, step);
  }

  lemma KeptMark(l: Log, l': Log, m: Mark)
    requires Keeps(l, l') && Usable(l, m)
    ensures Usable(l', m)
  {}

  /** Pointers stay right when only the transactions change. */
  lemma PointersCarried(s: State, l: Log)
    requires PointersOk(s) && Keeps(s.log, l)
    requires l.head == s.log.head || (l.head == s.log.head + 1 && FreeBlocks(s) > 1)
    requires l.committing.Is? <==> s.log.committing.Is?
    requires l.committing.Is? ==> l.committing.txn.start == s.log.committing.txn.start
    ensures PointersOk(s.(log := l))
  {
    KeptMark(s.log, l, s.tail);
    if !s.empty { KeptMark(s.log, l, s.sb); }
    if s.update.Some? { KeptMark(s.log, l, s.update.mark); }
    if s.found.Some? { KeptMark(s.log, l, s.found.mark); }
  }

  /** Pointers stay right when the commit thread enters or leaves a commit. */
  lemma PointersAcrossCommit(s: State, l: Log, pc: Pc, running: bool)
    requires PointersOk(s) && Keeps(s.log, l) && l.head == s.log.head
    requires s.pc.Idle? || s.pc.Forget? || s.pc.Callback?
    requires pc.Idle? || pc.Logging? || pc.Callback?
    requires l.committing.Is? <==> pc.Logging?
    requires pc.Logging? ==> !s.empty
    ensures PointersOk(s.(log := l, pc := pc, running := running))
  {
    KeptMark(s.log, l, s.tail);
    if !s.empty { KeptMark(s.log, l, s.sb); }
    if s.found.Some? { KeptMark(s.log, l, s.found.mark); }
  }

  lemma FlushPointers(s: State)
    requires PointersOk(s)
    ensures s.pc.JFlush? ==> PointersOk(Flush(s).(pc := Flushed))
    ensures s.mutex.HeldSnap? ==> PointersOk(Flush(s).(mutex := HeldFlushed))
  {}

  predicate AcrossCommit(step: Step) {
    step.BeginCommit? || step.ToCallback? || step.Finish?
  }

  lemma CommitLogStep(s: State, step: Step)
    requires Inv(s) && Enabled(s, step) && AcrossCommit(step)
    ensures var ok := PointersOk(Apply(s, step)); ok
  {
    var s' := Apply(s, step);
    LogPart(s, step);
    PointersAcrossCommit(s, s'.log, s'.pc, s'.running);
  }

  /** Steps within a commit leave the start of its transaction, and use one block at most. */
  lemma WithinCommit(s: State, step: Step)
    requires Enabled(s, step) && ChangesLog(step) && !AcrossCommit(step)
    ensures var l := Apply(s, step).log;
            && (l.head == s.log.head || (l.head == s.log.head + 1 && FreeBlocks(s) > 1))
            && (l.committing.Is? <==> s.log.committing.Is?)
            && (l.committing.Is? ==> l.committing.txn.start == s.log.committing.txn.start)
  {
  }

  /** What such a step does besides changing the log. */
  lemma StepOnLog(s: State, step: Step)
    requires Enabled(s, step) && ChangesLog(step) && !AcrossCommit(step)
    ensures var s' := Apply(s, step); var t := s.(log := s'.log);
            s' == if step.Record? then Flush(t).(pc := Flushed) else if step.AsyncRecord? then t.(pc := Early) else t
  {
  }

  lemma EarlyPointers(s: State)
    requires PointersOk(s) && s.pc.DFlush?
    ensures PointersOk(s.(pc := Early))
  {
  }

  lemma OtherLogStep(s: State, step: Step)
    requires Inv(s) && Enabled(s, step) && ChangesLog(step) && !AcrossCommit(step)
    ensures var ok := PointersOk(Apply(s, step)); ok
  {
    var t := s.(log := Apply(s, step).log);
    LogPart(s, step);
    WithinCommit(s, step);
    StepOnLog(s, step);
    PointersCarried(s, t.log);
    if step.Record? {
      FlushPointers(t);
    } else if step.AsyncRecord? {
      EarlyPointers(t);
    }
  }

  lemma LogStep(s: State, step: Step)
    requires Inv(s) && Enabled(s, step) && ChangesLog(step)
    ensures var ok := PointersOk(Apply(s, step)); ok
  {
    if AcrossCommit(step) {
      CommitLogStep(s, step);
    } else {
      OtherLogStep(s, step);
    }
  }

  predicate OfCheckpointer(step: Step) {
    step.Acquire? || step.CleanRead? || step.CleanFlush? || step.CleanWrite? || step.CleanMove? || step.Release?
  }

  predicate OfTailUpdate(step: Step) {
    step.TryTail? || step.WriteTailSb? || step.MoveTail?
  }

  /** Pointer steps of jbd2_update_log_tail. */
  lemma UpdatePointerStep(s: State, step: Step)
    requires PointersOk(s) && Enabled(s, step) && OfTailUpdate(step)
    requires step.MoveTail? ==> s.tail.pos <= s.update.mark.pos <= s.log.head
    ensures PointersOk(Apply(s, step))
  {}

  /** Pointer steps of the rest of a commit, and of those who begin a transaction. */
  lemma CommitPointerStep(s: State, step: Step)
    requires PointersOk(s) && Enabled(s, step)
    requires !ChangesLog(step) && !OfCheckpointer(step) && !OfTailUpdate(step)
    requires Usable(s.log, Oldest(s.log))
    requires step.ReadTail? && s.log.committing.Is? ==>
      s.tail.pos <= Oldest(s.log).pos && s.log.committing.txn.start <= s.log.head
    ensures PointersOk(Apply(s, step))
  {}

  /** Pointer steps of jbd2_cleanup_journal_tail. */
  lemma CheckpointerPointerStep(s: State, step: Step)
    requires PointersOk(s) && Enabled(s, step) && OfCheckpointer(step)
    requires Usable(s.log, Oldest(s.log))
    requires step.CleanMove? ==> s.tail.pos <= s.found.mark.pos <= s.log.head
    ensures PointersOk(Apply(s, step))
  {
    if step.CleanFlush? {
      FlushPointers(s);
    }
  }

  /** What jbd2_journal_get_log_tail finds is the first of all that is in the log, or the
      place where the next transaction will start when there is nothing. */
  lemma OldestIsFirst(l: Log, recordOut: bool)
    requires StartsOk(l, recordOut) && ListOk(l)
    ensures forall i :: 0 <= i < |l.checkpoint| ==>
              Oldest(l).serial <= l.checkpoint[i].serial && Oldest(l).pos <= l.checkpoint[i].start
    ensures l.committing.Is? ==> Oldest(l).serial <= l.committing.txn.serial && Oldest(l).pos <= l.committing.txn.start
    ensures || (exists i :: 0 <= i < |l.checkpoint| && Oldest(l) == Mark(l.checkpoint[i].serial, l.checkpoint[i].start))
            || (l.committing.Is? && Oldest(l) == Mark(l.committing.txn.serial, l.committing.txn.start))
            || (l.checkpoint == [] && l.committing.NoTxn? && Oldest(l) == Mark(l.base + |l.starts|, l.head))
  {
    OldestIsUsable(l);
    forall i | 0 <= i < |l.checkpoint|
      ensures Oldest(l).serial <= l.checkpoint[i].serial && Oldest(l).pos <= l.checkpoint[i].start
    {
      BoundaryOrder(l, recordOut, Oldest(l), Mark(l.checkpoint[i].serial, l.checkpoint[i].start));
    }
    if l.committing.Is? {
      BoundaryOrder(l, recordOut, Oldest(l), Mark(l.committing.txn.serial, l.committing.txn.start));
    }
  }

  /** There is something to free exactly while the tail is not there already. */
  lemma CandidateIff(s: State)
    requires Inv(s)
    ensures Candidate(s).NoMark? <==> s.tail == Oldest(s.log)
    ensures Candidate(s).Some? ==> Candidate(s).mark == Oldest(s.log) && s.tail.serial < Oldest(s.log).serial
    ensures s.pc.Logging? ==> Apply(s, ReadTail).update == if s.tail == Oldest(s.log) then NoMark else Some(Oldest(s.log))
    ensures s.mutex.Held? && s.tail != Oldest(s.log) ==>
              Apply(s, CleanRead).found == Some(Oldest(s.log)) && Apply(s, CleanRead).mutex == HeldSnap
  {
    OldestIsUsable(s.log);
  }

  /** Where the tail moves to, seen from where it is. */
  lemma MarkBehindHead(s: State, m: Mark)
    requires LogOk(s.log, RecordOut(s.async, s.pc), s.pc.Callback?)
    requires Usable(s.log, s.tail) && Usable(s.log, m) && s.tail.serial <= m.serial
    ensures s.tail.pos <= m.pos <= s.log.head
  {
    BoundaryOrder(s.log, RecordOut(s.async, s.pc), s.tail, m);
  }

  lemma PointerStep(s: State, step: Step)
    requires Inv(s) && Enabled(s, step) && !ChangesLog(step)
    ensures PointersOk(Apply(s, step))
  {
    OldestIsUsable(s.log);
    if OfCheckpointer(step) {
      if step.CleanMove? {
        MarkBehindHead(s, s.found.mark);
      }
      CheckpointerPointerStep(s, step);
    } else if OfTailUpdate(step) {
      if step.MoveTail? {
        MarkBehindHead(s, s.update.mark);
      }
      UpdatePointerStep(s, step);
    } else {
      MarkBehindHead(s, Oldest(s.log));
      CommitPointerStep(s, step);
    }
  }

  lemma PointerStepLog(s: State, step: Step)
    requires PcOk(s) && Enabled(s, step) && !ChangesLog(step)
    ensures var s' := Apply(s, step);
            && s'.log == s.log && s'.async == s.async
            && RecordOut(s.async, s'.pc) == RecordOut(s.async, s.pc)
            && s'.pc.Callback? == s.pc.Callback?
  {}

  /** Every step of every thread keeps the invariant. */
  lemma StepKeepsInv(s: State, step: Step)
    requires Inv(s) && Enabled(s, step)
    ensures Inv(Apply(s, step))
  {
    if ChangesLog(step) {
      LogStep(s, step);
      LogPart(s, step);
    } else {
      PointerStep(s, step);
      PointerStepLog(s, step);
    }
  }

  // ------------------------------------------------------------------- runs

  predicate Feasible(s: State, steps: seq<Step>)
    decreases steps
  {
    steps == [] || (Enabled(s, steps[0]) && Feasible(Apply(s, steps[0]), steps[1..]))
  }

  function After(s: State, steps: seq<Step>): State
    requires Feasible(s, steps)
    decreases steps
  {
    if steps == [] then s else After(Apply(s, steps[0]), steps[1..])
  }

  lemma {:induction false} RunKeepsInv(s: State, steps: seq<Step>)
    requires Inv(s) && Feasible(s, steps)
    ensures Inv(After(s, steps))
    decreases steps
  {
    if steps != [] {
      StepKeepsInv(s, steps[0]);
      RunKeepsInv(Apply(s, steps[0]), steps[1..]);
    }
  }

  predicate HandsOutBlock(s: State, step: Step) {
    step.LogBlock? || step.AsyncRecord? || (step.Record? && !s.async)
  }

  lemma HandedOut(s: State, step: Step)
    requires HandsOutBlock(s, step) && Enabled(s, step)
    ensures var t := Apply(s, step);
            && FreeBlocks(s) > 1 && t.log == Grown(s.log) && t.size == s.size && t.tail == s.tail
            && t.running == s.running && t.empty == s.empty && t.sb == s.sb
  {
  }

  /** Offset in the log area of the block that a position names: the position,
      taken round the circle. */
  function Block(pos: nat, size: Size): (b: nat)
    ensures b < size
  {
    if pos < size then pos else Block(pos - size, size)
  }

  lemma {:induction false} BlockIsRemainder(pos: nat, size: Size)
    ensures Block(pos, size) == pos % size
  {
    if pos >= size {
      BlockIsRemainder(pos - size, size);
      var q, r := (pos - size) / size, (pos - size) % size;
      assert pos == (q + 1) * size + r;
      Units.QuotientIs(pos, size, q + 1, r);
    }
  }

  /** Positions less than one lap apart are different blocks. */
  lemma {:induction false} OneLap(p: nat, q: nat, size: Size)
    requires p < q < p + size
    ensures Block(p, size) != Block(q, size)
  {
    if p >= size {
      OneLap(p - size, q - size, size);
    }
  }

  /** In every reachable state, the block handed out next holds nothing of a
      transaction that is committing or waits for its checkpoint, and nothing
      that recovery from the on-disk superblock would read. */
  lemma HandedOutBlockIsDead(s0: State, steps: seq<Step>, step: Step)
    requires Inv(s0) && Feasible(s0, steps)
    requires Enabled(After(s0, steps), step) && HandsOutBlock(After(s0, steps), step)
    ensures var s := After(s0, steps);
            && (s.log.committing.Is? ==>
                  forall p :: s.log.committing.txn.start <= p < s.log.head ==> Block(p, s.size) != Block(s.log.head, s.size))
            && (forall i, p :: 0 <= i < |s.log.checkpoint| && s.log.checkpoint[i].start <= p < s.log.head ==>
                  Block(p, s.size) != Block(s.log.head, s.size))
            && (!s.empty ==> forall p :: s.sb.pos <= p < s.log.head ==> Block(p, s.size) != Block(s.log.head, s.size))
  {
    RunKeepsInv(s0, steps);
    HandedOut(After(s0, steps), step);
    HeadIsDead(After(s0, steps));
  }

  lemma HeadIsDead(s: State)
    requires Inv(s) && FreeBlocks(s) > 1
    ensures s.log.committing.Is? ==>
              forall p :: s.log.committing.txn.start <= p < s.log.head ==> Block(p, s.size) != Block(s.log.head, s.size)
    ensures forall i, p :: 0 <= i < |s.log.checkpoint| && s.log.checkpoint[i].start <= p < s.log.head ==>
              Block(p, s.size) != Block(s.log.head, s.size)
    ensures !s.empty ==> forall p :: s.sb.pos <= p < s.log.head ==> Block(p, s.size) != Block(s.log.head, s.size)
  {
    forall p | s.tail.pos <= p < s.log.head ensures Block(p, s.size) != Block(s.log.head, s.size) {
      OneLap(p, s.log.head, s.size);
    }
    NothingBeforeTail(s);
  }

  /** Everything in the log, and everything the superblock names, is at or after
      the tail in memory. */
  lemma NothingBeforeTail(s: State)
    requires Inv(s)
    ensures s.log.committing.Is? ==> s.tail.pos <= s.log.committing.txn.start
    ensures forall i :: 0 <= i < |s.log.checkpoint| ==> s.tail.pos <= s.log.checkpoint[i].start
    ensures !s.empty ==> s.tail.pos <= s.sb.pos
  {
    var r := RecordOut(s.async, s.pc);
    if s.log.committing.Is? {
      var t := s.log.committing.txn;
      BoundaryOrder(s.log, r, s.tail, Mark(t.serial, t.start));
    }
    forall i | 0 <= i < |s.log.checkpoint| ensures s.tail.pos <= s.log.checkpoint[i].start {
      var t := s.log.checkpoint[i];
      BoundaryOrder(s.log, r, s.tail, Mark(t.serial, t.start));
    }
    if !s.empty {
      BoundaryOrder(s.log, r, s.tail, s.sb);
    }
  }

  predicate IsFlush(step: Step) {
    step.Record? || step.CleanFlush?
  }

  /** What `durable` counts: a flush was issued when no older transaction was in
      the log any more. */
  lemma {:induction false} DurableMeansFlushed(s: State, steps: seq<Step>)
    requires Feasible(s, steps)
    ensures var s' := After(s, steps);
            || s'.durable == s.durable
            || exists k :: 0 <= k < |steps| && FlushCovers(s, steps, k, s'.durable)
    decreases steps
  {
    if steps != [] {
      var t := Apply(s, steps[0]);
      DurableMeansFlushed(t, steps[1..]);
      var d := After(s, steps).durable;
      if exists k :: 0 <= k < |steps| - 1 && FlushCovers(t, steps[1..], k, d) {
        var k :| 0 <= k < |steps| - 1 && FlushCovers(t, steps[1..], k, d);
        assert steps[..k + 1][1..] == steps[1..][..k];
        assert FlushCovers(s, steps, k + 1, d);
      } else if t.durable != s.durable {
        assert FlushCovers(s, steps, 0, d);
      }
    }
  }

  /** Step k of the run is a flush, and no transaction older than serial was in
      the log when it was issued. */
  ghost predicate FlushCovers(s: State, steps: seq<Step>, k: nat, serial: nat) {
    && k < |steps| && Feasible(s, steps[..k]) && IsFlush(steps[k])
    && serial <= Oldest(After(s, steps[..k]).log).serial
  }

  /** With barriers, the log tail on disk moves past a transaction only after a
      device flush that was issued when it was out of the log, all its buffers having
      been written back or committed again, although the commit thread applies a tail
      it read long before. */
  lemma DiskTailFollowsFlush(size: Size, async: bool, base: nat, clean: bool, steps: seq<Step>)
    requires Feasible(Init(size, true, async, base, clean), steps)
    ensures var s0 := Init(size, true, async, base, clean);
            var s := After(s0, steps);
            !s.empty && s.sb.serial > base ==>
              exists k, serial :: 0 <= k < |steps| && s.sb.serial <= serial && FlushCovers(s0, steps, k, serial)
  {
    var s0 := Init(size, true, async, base, clean);
    InitInv(size, true, async, base, clean);
    RunKeepsInv(s0, steps);
    ConfigKept(s0, steps);
    DurableMeansFlushed(s0, steps);
    var s := After(s0, steps);
    if !s.empty && s.sb.serial > base {
      var k :| 0 <= k < |steps| && FlushCovers(s0, steps, k, s.durable);
    }
  }

  lemma {:induction false} ConfigKept(s: State, steps: seq<Step>)
    requires Feasible(s, steps)
    ensures var s' := After(s, steps);
            s'.size == s.size && s'.barrier == s.barrier && s'.async == s.async
    decreases steps
  {
    if steps != [] {
      ConfigKept(Apply(s, steps[0]), steps[1..]);
    }
  }

  // ------------------------------------------------- whole operations on the tail

  /** jbd2_update_log_tail in one piece. */
  function TailUpdated(s: State, m: Mark): State {
    var t := s.(update := NoMark, pc := Forget);
    if m.serial > s.tail.serial then t.(sb := m, empty := false, tail := m) else t
  }

  lemma Prepend(s: State, step: Step, rest: seq<Step>)
    requires Enabled(s, step) && Feasible(Apply(s, step), rest)
    ensures Feasible(s, [step] + rest) && After(s, [step] + rest) == After(Apply(s, step), rest)
  {
    assert ([step] + rest)[1..] == rest;
  }

  const UpdateRun := [WriteTailSb] + ([MoveTail] + [])

  lemma TailUpdatedIsRun(s: State, m: Mark)
    requires Inv(s) && s.pc.Flushed? && s.update == Some(m) && s.mutex.Free?
    ensures var inv := Inv(TailUpdated(s, m)); inv
    ensures var run := [TryTail] + if m.serial > s.tail.serial then UpdateRun else [];
            Feasible(s, run) && After(s, run) == TailUpdated(s, m)
  {
    TailUpdatedIsRunSteps(s, m);
    RunKeepsInv(s, [TryTail] + if m.serial > s.tail.serial then UpdateRun else []);
  }

  lemma TailUpdatedIsRunSteps(s: State, m: Mark)
    requires s.pc.Flushed? && s.update == Some(m) && s.mutex.Free?
    ensures var run := [TryTail] + if m.serial > s.tail.serial then UpdateRun else [];
            Feasible(s, run) && After(s, run) == TailUpdated(s, m)
  {
    var s1 := Apply(s, TryTail);
    if m.serial > s.tail.serial {
      var s2 := Apply(s1, WriteTailSb);
      Prepend(s2, MoveTail, []);
      Prepend(s1, WriteTailSb, [MoveTail] + []);
      Prepend(s, TryTail, UpdateRun);
    } else {
      Prepend(s, TryTail, []);
    }
  }

  /** jbd2_cleanup_journal_tail in one piece, when there is something to clean. */
  function Cleaned(s: State): State {
    var m := Oldest(s.log);
    Flush(s).(sb := m, empty := false, tail := m, found := NoMark)
  }

  const CleanRun := [CleanRead] + ([CleanFlush] + ([CleanWrite] + ([CleanMove] + [])))

  lemma CleanedIsRun(s: State)
    requires Inv(s) && s.mutex.Held? && Candidate(s).Some?
    ensures Inv(Cleaned(s))
    ensures Feasible(s, CleanRun) && After(s, CleanRun) == Cleaned(s)
  {
    CleanedIsRunSteps(s);
    RunKeepsInv(s, CleanRun);
  }

  lemma CleanedIsRunSteps(s: State)
    requires s.mutex.Held? && Candidate(s).Some? && s.found.NoMark?
    ensures Feasible(s, CleanRun) && After(s, CleanRun) == Cleaned(s)
  {
    var s1 := Apply(s, CleanRead);
    var s2 := Apply(s1, CleanFlush);
    var s3 := Apply(s2, CleanWrite);
    Prepend(s3, CleanMove, []);
    Prepend(s2, CleanWrite, [CleanMove] + []);
    Prepend(s1, CleanFlush, [CleanWrite] + ([CleanMove] + []));
    Prepend(s, CleanRead, [CleanFlush] + ([CleanWrite] + ([CleanMove] + [])));
  }
}
