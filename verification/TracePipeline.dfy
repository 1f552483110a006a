/** What the trace pipeline does, in terms of records: buffers that fill one after the
    other, and files that take them. */
module TraceFlow {
  import opened TraceRecords

  const IO_BUF_SIZE: nat := 0x4_0000
  const IO_FILE_SIZE: nat := 0x10_0000

  /** A byte-sized size that wraps. */
  function Wrapped(n: nat): nat {
    n % 256
  }

  /** The size that __get_io_buffer_left is asked for: it adds 20 for the header. */
  function Guard(r: Record): nat {
    Wrapped((if r.Io? then LogSize(r) else HEADER_SIZE + 1) + 20)
  }

  /** The size of __check_io_buffer_left. */
  function Check(r: Record): nat {
    Wrapped(if r.Io? then LogSize(r) + 24 else HEADER_SIZE + 1)
  }

  /** The full buffers from the reader's to the writer's, each with its records; the
      records in the writer's buffer; the files, the last of which is open. */
  datatype Flow = Flow(fulls: seq<seq<Record>>, cur: seq<Record>, files: seq<seq<Record>>)

  predicate AllOk(rss: seq<seq<Record>>) {
    forall i :: 0 <= i < |rss| ==> RecordsOk(rss[i])
  }

  function Flatten(rss: seq<seq<Record>>): seq<Record> {
    if rss == [] then [] else rss[0] + Flatten(rss[1..])
  }

  /** No buffer or file is larger than it may be, and no full buffer is empty. */
  predicate FlowOk(f: Flow, n: nat) {
    && f.files != [] && |f.fulls| <= n && (|f.fulls| == n ==> f.cur == [])
    && AllOk(f.fulls) && RecordsOk(f.cur) && AllOk(f.files)
    && Size(f.cur) <= IO_BUF_SIZE
    && (forall i :: 0 <= i < |f.fulls| ==> 0 < Size(f.fulls[i]) <= IO_BUF_SIZE)
    && (forall i :: 0 <= i < |f.files| ==> Size(f.files[i]) <= IO_FILE_SIZE)
  }

  predicate Room(cur: seq<Record>, r: Record) {
    Size(cur) + Guard(r) <= IO_BUF_SIZE
  }

  /** Some buffer has room for the record, or is unused. */
  predicate Accepts(f: Flow, n: nat, r: Record) {
    |f.fulls| < n && (Room(f.cur, r) || |f.fulls| + 1 < n)
  }

  /** The buffer that the record goes to: the writer's, or the next one. */
  function Placed(f: Flow, r: Record): Flow {
    if Room(f.cur, r) then f.(cur := f.cur + [r]) else f.(fulls := f.fulls + [f.cur], cur := [r])
  }

  /** The buffer is declared full when its last record was about the last to fit. */
  function Checked(f: Flow, r: Record): Flow {
    if Size(f.cur) + Check(r) > IO_BUF_SIZE then f.(fulls := f.fulls + [f.cur], cur := []) else f
  }

  function Added(f: Flow, r: Record): Flow {
    Checked(Placed(f, r), r)
  }

  /** The reader's buffer goes to the open file, or to a new one. */
  function Drained(f: Flow): Flow
    requires f.fulls != []
  {
    var k := |f.files| - 1;
    Flow(f.fulls[1..], f.cur,
         if k >= 0 && Size(f.files[k]) + Size(f.fulls[0]) <= IO_FILE_SIZE
         then f.files[..k] + [f.files[k] + f.fulls[0]] else f.files + [f.fulls[0]])
  }

  /** All records in the pipeline, in order. */
  function Records(f: Flow): seq<Record> {
    Flatten(f.files) + Flatten(f.fulls) + f.cur
  }

  lemma {:induction false} FlattenBoth(a: seq<seq<Record>>, b: seq<seq<Record>>)
    ensures Flatten(a + b) == Flatten(a) + Flatten(b)
  {
    if a == [] {
      assert a + b == b;
    } else {
      FlattenBoth(a[1..], b);
      assert (a + b)[0] == a[0] && (a + b)[1..] == a[1..] + b;
      GlueRecords(a[0], Flatten(a[1..]), Flatten(b));
    }
  }

  lemma FlattenOne(a: seq<Record>)
    ensures Flatten([a]) == a
  {
    assert [a][1..] == [];
  }

  lemma GuardOk(r: Record)
    requires RecordOk(r)
    ensures HEADER_SIZE + LogSize(r) <= Guard(r) < 256
  {
  }

  /** What is asked for is 20 bytes more than a log_size, and 31 for a suspend record. */
  lemma GuardIs(r: Record)
    requires RecordOk(r)
    ensures Guard(r) == if r.Io? then LogSize(r) + 20 else 31
  {
  }

  lemma SizeOne(r: Record)
    ensures Size([r]) == HEADER_SIZE + LogSize(r)
  {
    assert [r][1..] == [];
  }

  lemma PlacedOk(f: Flow, n: nat, r: Record)
    requires FlowOk(f, n) && RecordOk(r) && Accepts(f, n, r)
    ensures var ok := FlowOk(Placed(f, r), n); ok && |Placed(f, r).fulls| < n && Placed(f, r).cur != []
  {
    SizeBoth(f.cur, [r]);
    SizeOne(r);
    GuardOk(r);
  }

  lemma CheckedOk(f: Flow, n: nat, r: Record)
    requires FlowOk(f, n) && |f.fulls| < n && f.cur != []
    ensures var ok := FlowOk(Checked(f, r), n); ok
  {
  }

  /** Where a record goes, and which buffers it closes. */
  lemma AddedWhere(f: Flow, r: Record)
    requires RecordOk(r)
    ensures var room := Size(f.cur) + (if r.Io? then LogSize(r) + 20 else 31) <= 0x4_0000;
            var now := if room then f.cur + [r] else [r];
            var closes := Size(now) + (if r.Io? then (LogSize(r) + 24) % 256 else 11) > 0x4_0000;
            && Added(f, r).cur == (if closes then [] else now) && Added(f, r).files == f.files
            && Added(f, r).fulls == f.fulls + (if room then [] else [f.cur]) + (if closes then [now] else [])
  {
    GuardIs(r);
    assert f.fulls + [] + [] == f.fulls;
  }

  lemma CloseKeepsRecords(files: seq<seq<Record>>, fulls: seq<seq<Record>>, cur: seq<Record>)
    ensures Flatten(files) + Flatten(fulls + [cur]) + [] == Flatten(files) + Flatten(fulls) + cur
  {
    FlattenBoth(fulls, [cur]);
    FlattenOne(cur);
  }

  /** An accepted record is behind all others, and nothing outgrows its buffer. */
  lemma AddKeeps(f: Flow, n: nat, r: Record)
    requires FlowOk(f, n) && RecordOk(r) && Accepts(f, n, r)
    ensures var ok := FlowOk(Added(f, r), n); ok
    ensures Records(Added(f, r)) == Records(f) + [r]
  {
    PlacedOk(f, n, r);
    CheckedOk(Placed(f, r), n, r);
    PlacedLast(f, r);
    CheckedSame(Placed(f, r), r);
  }

  lemma PlacedLast(f: Flow, r: Record)
    ensures Records(Placed(f, r)) == Records(f) + [r]
  {
    if Room(f.cur, r) {
      assert Flatten(f.files) + Flatten(f.fulls) + (f.cur + [r]) == (Flatten(f.files) + Flatten(f.fulls) + f.cur) + [r];
    } else {
      CloseKeepsRecords(f.files, f.fulls, f.cur);
      var a := Flatten(f.files) + Flatten(f.fulls + [f.cur]);
      assert a + [] == a;
    }
  }

  lemma CheckedSame(f: Flow, r: Record)
    ensures Records(Checked(f, r)) == Records(f)
  {
    CloseKeepsRecords(f.files, f.fulls, f.cur);
  }

  /** A drain puts the first full buffer behind what the files hold, and keeps the order
      of all records. */
  lemma DrainKeepsRecords(f: Flow)
    requires f.fulls != []
    ensures Flatten(Drained(f).files) == Flatten(f.files) + f.fulls[0]
    ensures Records(Drained(f)) == Records(f)
  {
    var k := |f.files| - 1;
    var data, g := f.fulls[0], Drained(f);
    FlattenOne(data);
    if k >= 0 && Size(f.files[k]) + Size(data) <= IO_FILE_SIZE {
      var some, last := f.files[..k], f.files[k];
      FlattenBoth(some, [last + data]);
      FlattenOne(last + data);
      FlattenBoth(some, [last]);
      FlattenOne(last);
      assert some + [last] == f.files;
      GlueRecords(Flatten(some), last, data);
    } else {
      FlattenBoth(f.files, [data]);
    }
    GlueRecords(Flatten(f.files), data, Flatten(g.fulls));
  }

  lemma DrainKeepsOk(f: Flow, n: nat)
    requires FlowOk(f, n) && f.fulls != []
    ensures var ok := FlowOk(Drained(f), n); ok
  {
    var k := |f.files| - 1;
    var last, data := f.files[k], f.fulls[0];
    SizeBoth(last, data);
    assert RecordsOk(last + data);
  }

  datatype Step = Add(r: Record) | Drain

  /** An add that is not refused, and a read when a buffer is full. */
  predicate Enabled(f: Flow, n: nat, s: Step) {
    match s case Add(r) => RecordOk(r) && Accepts(f, n, r) case Drain => f.fulls != []
  }

  function Apply(f: Flow, n: nat, s: Step): Flow
    requires Enabled(f, n, s)
  {
    match s case Add(r) => Added(f, r) case Drain => Drained(f)
  }

  function Accepted(s: Step): seq<Record> {
    match s case Add(r) => [r] case Drain => []
  }

  lemma StepKeeps(f: Flow, n: nat, s: Step)
    requires FlowOk(f, n) && Enabled(f, n, s)
    ensures var ok := FlowOk(Apply(f, n, s), n); ok
    ensures Records(Apply(f, n, s)) == Records(f) + Accepted(s)
  {
    match s
    case Add(r) => AddKeeps(f, n, r);
    case Drain =>
      DrainKeepsOk(f, n);
      DrainKeepsRecords(f);
      assert Records(f) + [] == Records(f);
  }

  /** A run in which no add is refused. */
  predicate Feasible(f: Flow, n: nat, steps: seq<Step>)
    decreases |steps|
  {
    steps == [] || (Enabled(f, n, steps[0]) && Feasible(Apply(f, n, steps[0]), n, steps[1..]))
  }

  function After(f: Flow, n: nat, steps: seq<Step>): Flow
    requires Feasible(f, n, steps)
    decreases |steps|
  {
    if steps == [] then f else After(Apply(f, n, steps[0]), n, steps[1..])
  }

  function AllAccepted(steps: seq<Step>): seq<Record> {
    if steps == [] then [] else Accepted(steps[0]) + AllAccepted(steps[1..])
  }

  lemma GlueRecords(a: seq<Record>, b: seq<Record>, c: seq<Record>)
    ensures (a + b) + c == a + (b + c)
    ensures [] + c == c
  {
  }

  /** However adds and drains alternate, what is in the files, then in the full buffers,
      then in the writer's buffer are the accepted records in order. */
  lemma {:induction false} RunKeepsOrder(f: Flow, n: nat, steps: seq<Step>)
    requires FlowOk(f, n) && Feasible(f, n, steps)
    ensures var ok := FlowOk(After(f, n, steps), n); ok
    ensures Records(After(f, n, steps)) == Records(f) + AllAccepted(steps)
    decreases |steps|
  {
    if steps == [] {
      assert Records(f) + [] == Records(f);
    } else {
      var s, g := steps[0], Apply(f, n, steps[0]);
      StepKeeps(f, n, s);
      RunKeepsOrder(g, n, steps[1..]);
      GlueRecords(Records(f), Accepted(s), AllAccepted(steps[1..]));
    }
  }

  const Start: Flow := Flow([], [], [[]])

  /** What the drains of a run take, in order. */
  function Taken(f: Flow, n: nat, steps: seq<Step>): seq<Record>
    requires Feasible(f, n, steps)
    decreases |steps|
  {
    if steps == [] then []
    else (if steps[0].Drain? then f.fulls[0] else []) + Taken(Apply(f, n, steps[0]), n, steps[1..])
  }

  lemma {:induction false} DrainsTake(f: Flow, n: nat, steps: seq<Step>)
    requires Feasible(f, n, steps)
    ensures Flatten(After(f, n, steps).files) == Flatten(f.files) + Taken(f, n, steps)
    decreases |steps|
  {
    if steps == [] {
      assert Flatten(f.files) + [] == Flatten(f.files);
    } else {
      var g := Apply(f, n, steps[0]);
      DrainsTake(g, n, steps[1..]);
      if steps[0].Drain? {
        DrainKeepsRecords(f);
        GlueRecords(Flatten(f.files), f.fulls[0], Taken(g, n, steps[1..]));
      } else {
        assert [] + Taken(g, n, steps[1..]) == Taken(g, n, steps[1..]);
      }
    }
  }

  /** From an empty ring and an empty file, the files hold what the drains took; that is
      what was accepted, up to what is still in the buffers. */
  lemma FilesHoldPrefix(n: nat, steps: seq<Step>)
    requires n > 0 && Feasible(Start, n, steps)
    ensures var g := After(Start, n, steps);
            && Flatten(g.files) == Taken(Start, n, steps)
            && AllAccepted(steps) == Taken(Start, n, steps) + Flatten(g.fulls) + g.cur
            && forall i :: 0 <= i < |g.files| ==> RecordsOk(g.files[i]) && |Encode(g.files[i])| <= IO_FILE_SIZE
  {
    var f := Start;
    RunKeepsOrder(f, n, steps);
    DrainsTake(f, n, steps);
    FlattenOne([]);
    var g := After(f, n, steps);
    assert [] + AllAccepted(steps) == AllAccepted(steps) && [] + Taken(f, n, steps) == Taken(f, n, steps);
    forall i | 0 <= i < |g.files|
      ensures |Encode(g.files[i])| <= IO_FILE_SIZE
    {
      EncodeSize(g.files[i]);
    }
  }

  // ------------------------------------------------------------------- what the guard is for

  predicate Inside(offset: nat, size: nat) {
    offset + size <= IO_BUF_SIZE
  }

  /** A record that passes the guard at an offset is written within the buffer. */
  predicate GuardSafe(offset: nat, r: Record) {
    Inside(offset, Guard(r)) ==> Inside(offset, HEADER_SIZE + LogSize(r))
  }

  /** A run of accepted records leaves the writer's buffer open at an offset. */
  ghost predicate OpenAt(n: nat, offset: nat) {
    exists steps :: Feasible(Start, n, steps) && Open(After(Start, n, steps), n, offset)
  }

  predicate Open(f: Flow, n: nat, offset: nat) {
    |f.fulls| < n && Size(f.cur) == offset
  }

  /** Copies of the same suspend record, and their adds. */
  function Wakeup(): (r: Record)
    ensures RecordOk(r) && r.Suspend? && LogSize(r) == 1
  {
    Suspend(seq(8, i => 0), 0)
  }

  function Copies(k: nat): (rs: seq<Record>)
    ensures Size(rs) == 11 * k
  {
    if k == 0 then []
    else
      SizeBoth(Copies(k - 1), [Wakeup()]);
      SizeOne(Wakeup());
      Copies(k - 1) + [Wakeup()]
  }

  function Adds(k: nat): seq<Step> {
    if k == 0 then [] else [Add(Wakeup())] + Adds(k - 1)
  }

  lemma {:induction false} AddsFill(n: nat, j: nat, k: nat)
    requires n > 0 && j + k <= 23815
    ensures Feasible(Flow([], Copies(j), [[]]), n, Adds(k))
    ensures After(Flow([], Copies(j), [[]]), n, Adds(k)) == Flow([], Copies(j + k), [[]])
    decreases k
  {
    if k > 0 {
      var f := Flow([], Copies(j), [[]]);
      assert Copies(j + 1) == Copies(j) + [Wakeup()];
      assert Added(f, Wakeup()) == Flow([], Copies(j + 1), [[]]);
      assert Adds(k)[0] == Add(Wakeup()) && Adds(k)[1..] == Adds(k - 1);
      AddsFill(n, j + 1, k - 1);
    }
  }

  lemma FillsTo(n: nat, k: nat)
    requires n > 0 && k <= 23815
    ensures OpenAt(n, 11 * k)
  {
    AddsFill(n, 0, k);
    assert Open(After(Start, n, Adds(k)), n, 11 * k);
  }

  /** The guard keeps a record within the buffer at every offset that accepted records can
      leave it open at, exactly if its log_size is at most 235: 23815 suspend records lead
      to an offset at which every longer record passes the guard and ends outside. */
  lemma GuardIff(n: nat, r: Record)
    requires n > 0 && Storable(r)
    ensures LogSize(r) <= 235 <==> forall offset: nat :: OpenAt(n, offset) ==> GuardSafe(offset, r)
  {
    if LogSize(r) > 235 {
      FillsTo(n, 23815);
      assert !GuardSafe(11 * 23815, r);
    }
  }
}

/** The ring of buffers (androtrace.c, androtrace_module.c) and the daemon that empties
    it into files (androtrace_daemon.c). */
module TraceRing {
  import opened TraceRecords
  import opened TraceFlow

  /** struct cbuf: the bytes of data up to offset; the others are zero. */
  datatype Cbuf = Cbuf(full: bool, data: seq<byte>)

  /** What the j-th buffer behind the reader's hand holds. */
  function Expected(f: Flow, j: nat): Cbuf
    requires AllOk(f.fulls) && RecordsOk(f.cur)
  {
    if j < |f.fulls| then Cbuf(true, Encode(f.fulls[j]))
    else Cbuf(false, if j == |f.fulls| then Encode(f.cur) else [])
  }

  /** How many steps buffer i of n is behind the reader's hand. */
  function Behind(i: nat, head: nat, n: nat): nat
    requires i < n && head < n
  {
    if i >= head then i - head else i + n - head
  }

  /** From the reader's hand on there are the full buffers, the writer's, and empty ones. */
  ghost predicate Ring(bufs: seq<Cbuf>, hand: nat, head: nat, n: nat, flow: Flow) {
    && |bufs| == n && hand < n && head < n && FlowOk(flow, n)
    && (if |flow.fulls| < n then Behind(hand, head, n) == |flow.fulls| else hand == head)
    && forall i :: 0 <= i < n ==> bufs[i] == Expected(flow, Behind(i, head, n))
  }

  /** The reader's buffer is emptied, and its hand a buffer further. */
  lemma Emptied(before: seq<Cbuf>, hand: nat, head: nat, n: nat, was: Flow, bufs: seq<Cbuf>, next: nat, flow: Flow)
    requires (var ring := Ring(before, hand, head, n, was); ring) && was.fulls != []
    requires bufs == before[head := Cbuf(false, [])] && next == (if head + 1 == n then 0 else head + 1)
    requires flow == was.(fulls := was.fulls[1..])
    ensures before[head].data == Encode(was.fulls[0])
    ensures var ring := Ring(bufs, hand, next, n, flow); ring
  {
    assert before[head] == Expected(was, Behind(head, head, n));
    assert Expected(flow, n - 1) == Cbuf(false, []) by {
      assert |was.fulls| == n ==> Encode(flow.cur) == [];
    }
    forall i | 0 <= i < n && i != head
      ensures before[i] == Expected(flow, Behind(i, next, n))
    {
      assert before[i] == Expected(was, Behind(i, head, n));
      assert Behind(i, head, n) == Behind(i, next, n) + 1;
    }
  }

  /** The log files hold the encodings of these records. */
  predicate FilesAre(closed: seq<seq<byte>>, file: seq<byte>, fileOffset: nat, files: seq<seq<Record>>) {
    && AllOk(files) && |files| == |closed| + 1 && fileOffset == |file|
    && file == Encode(files[|closed|])
    && forall i :: 0 <= i < |closed| ==> closed[i] == Encode(files[i])
  }

  /** More records in the open file. */
  lemma FileGrows(closed: seq<seq<byte>>, file: seq<byte>, files: seq<seq<Record>>, recs: seq<Record>)
    requires FilesAre(closed, file, |file|, files) && RecordsOk(recs)
    ensures var data := file + Encode(recs);
            var are := FilesAre(closed, data, |data|, files[..|closed|] + [files[|closed|] + recs]); are
  {
    EncodeBoth(files[|closed|], recs);
  }

  /** A new file. */
  lemma FileOpened(closed: seq<seq<byte>>, file: seq<byte>, files: seq<seq<Record>>, recs: seq<Record>)
    requires FilesAre(closed, file, |file|, files) && RecordsOk(recs)
    ensures var data := Encode(recs);
            var are := FilesAre(closed + [file], data, |data|, files + [recs]); are
  {
  }

  class Trace {
    const n: nat                  // IO_BUF_COUNT
    var bufs: seq<Cbuf>
    var hand: nat                 // io_buf_hand: where records are added
    var head: nat                 // io_buf_head: what is read next
    var closed: seq<seq<byte>>    // the log files that are complete
    var file: seq<byte>           // the open one
    var fileOffset: nat           // io_f_offset
    ghost var flow: Flow

    /** androtrace_open, and the first file of the daemon. */
    constructor (n: nat)
      requires n > 0
      ensures Valid() && this.n == n && flow == Start
    {
      this.n := n;
      bufs, hand, head := seq(n, i => Cbuf(false, [])), 0, 0;
      closed, file, fileOffset := [], [], 0;
      flow := Start;
    }

    /** buf->next. */
    function Next(i: nat): nat {
      if i + 1 == n then 0 else i + 1
    }

    ghost predicate RingOk()
      reads this`bufs, this`hand, this`head, this`flow
    {
      Ring(bufs, hand, head, n, flow)
    }

    ghost predicate Valid()
      reads this
    {
      RingOk() && FilesAre(closed, file, fileOffset, flow.files)
    }

    predicate AllFull()
      reads this`bufs
    {
      forall i :: 0 <= i < |bufs| ==> bufs[i].full
    }

    /** The hand is steps further than h. */
    predicate Moved(h: nat, steps: nat)
      reads this`hand
    {
      hand == if h + steps < n then h + steps else h + steps - n
    }

    /** The writer's buffer is declared full, and its hand moves on. */
    method MarkFull()
      requires (var ok := RingOk(); ok) && flow.cur != [] && |flow.fulls| < n
      modifies this`bufs, this`hand, this`flow
      ensures var ok := RingOk(); ok && flow == old(flow).(fulls := old(flow).fulls + [old(flow).cur], cur := [])
      ensures bufs == old(bufs)[old(hand) := old(bufs[hand]).(full := true)] && hand == Next(old(hand))
    {
      bufs := bufs[hand := bufs[hand].(full := true)];
      hand := Next(hand);
      flow := flow.(fulls := flow.fulls + [flow.cur], cur := []);
    }

    /** The search, from flow f0, has looked at idx buffers and is at one that is open. */
    ghost predicate Searching(f0: Flow, h0: nat, b0: seq<Cbuf>, r: Record, idx: nat)
      reads this`bufs, this`hand, this`head, this`flow
    {
      && RingOk() && idx < n && idx <= 1
      && (idx == 0 ==> flow == f0 && hand == h0 && bufs == b0)
      && (idx == 1 ==> Closed(f0, r) && |flow.fulls| < n && SameData(b0))
    }

    /** The writer's buffer had no room and was declared full. */
    ghost predicate Closed(f0: Flow, r: Record)
      reads this`flow
    {
      !Room(f0.cur, r) && flow == f0.(fulls := f0.fulls + [f0.cur], cur := [])
    }

    /** All buffers are full; the hand goes round. */
    ghost predicate Stuck(f0: Flow, h0: nat, b0: seq<Cbuf>, r: Record, idx: nat)
      reads this`bufs, this`hand, this`head, this`flow
    {
      && 0 < idx <= n && h0 < n && !Accepts(f0, n, r) && AllFull() && Moved(h0, idx) && SameData(b0)
      && (|f0.fulls| == n ==> (var ok := Ring(bufs, h0, head, n, flow); ok) && flow == f0 && bufs == b0)
    }

    predicate SameData(b0: seq<Cbuf>)
      reads this`bufs
    {
      |bufs| == n == |b0| && forall i :: 0 <= i < n ==> bufs[i].data == b0[i].data
    }

    /** __get_io_buffer_left: a buffer with room for a record. */
    method GetIoBufferLeft(size0: nat, ghost r: Record) returns (found: bool)
      requires (var ok := RingOk(); ok) && RecordOk(r) && Guard(r) == Wrapped(size0 + 20)
      modifies this`bufs, this`hand, this`flow
      ensures found == Accepts(old(flow), n, r)
      ensures found ==> var ok := RingOk(); ok && |flow.fulls| < n && Room(flow.cur, r)
      ensures found ==> flow == if Room(old(flow).cur, r) then old(flow)
                                else old(flow).(fulls := old(flow).fulls + [old(flow).cur], cur := [])
      ensures !found ==> AllFull() && hand == old(hand) && SameData(old(bufs))
      ensures !found && |old(flow).fulls| == n ==> var ok := RingOk(); ok && flow == old(flow) && bufs == old(bufs)
    {
      var size := Wrapped(size0 + 20);
      var idx := 0;
      ghost var f0, h0, b0, stuck := flow, hand, bufs, false;
      while idx < n
        invariant idx <= n
        invariant if stuck then var at := Stuck(f0, h0, b0, r, idx); at else var at := Searching(f0, h0, b0, r, idx); at
      {
        found, stuck := TryBuffer(size, r, f0, h0, b0, idx, stuck);
        if found {
          return;
        }
        idx := idx + 1;
      }
      found := false;
      RoundTheRing(f0, h0, b0, r);
    }

    /** Once round, the hand is where it was. */
    lemma RoundTheRing(f0: Flow, h0: nat, b0: seq<Cbuf>, r: Record)
      requires var at := Stuck(f0, h0, b0, r, n); at
      ensures AllFull() && hand == h0 && SameData(b0) && !Accepts(f0, n, r)
      ensures |f0.fulls| == n ==> var ok := RingOk(); ok && flow == f0 && bufs == b0
    {
    }

    /** Past a full buffer. */
    method StepOver(ghost f0: Flow, ghost h0: nat, ghost b0: seq<Cbuf>, ghost r: Record, ghost idx: nat, ghost stuck: bool)
      requires idx < n && hand < |bufs| && bufs[hand].full
      requires if stuck then var at := Stuck(f0, h0, b0, r, idx); at else var at := Searching(f0, h0, b0, r, idx); at
      modifies this`hand
      ensures var at := Stuck(f0, h0, b0, r, idx + 1); at
    {
      hand := Next(hand);
    }

    /** The open buffer has no room. */
    method CloseBuffer(ghost f0: Flow, ghost h0: nat, ghost b0: seq<Cbuf>, ghost r: Record, ghost idx: nat)
      returns (ghost stuck: bool)
      requires RecordOk(r) && var at := Searching(f0, h0, b0, r, idx); at
      requires |flow.fulls| < n && !Room(flow.cur, r)
      modifies this`bufs, this`hand, this`flow
      ensures if stuck then var at := Stuck(f0, h0, b0, r, idx + 1); at
              else var at := Searching(f0, h0, b0, r, idx + 1); at
    {
      GuardOk(r);
      MarkFull();
      stuck := |flow.fulls| == n;
    }

    /** A turn of the loop: a buffer with room, or on to the next one. */
    method TryBuffer(size: nat, ghost r: Record, ghost f0: Flow, ghost h0: nat, ghost b0: seq<Cbuf>,
                     ghost idx: nat, ghost stuck0: bool) returns (found: bool, ghost stuck: bool)
      requires idx < n && size == Guard(r) && RecordOk(r) && hand < |bufs|
      requires if stuck0 then var at := Stuck(f0, h0, b0, r, idx); at else var at := Searching(f0, h0, b0, r, idx); at
      modifies this`bufs, this`hand, this`flow
      ensures found ==> var ok := RingOk(); ok && |flow.fulls| < n && Room(flow.cur, r) && Accepts(f0, n, r)
      ensures found ==> flow == if Room(f0.cur, r) then f0 else f0.(fulls := f0.fulls + [f0.cur], cur := [])
      ensures !found ==> if stuck then var at := Stuck(f0, h0, b0, r, idx + 1); at
                         else var at := Searching(f0, h0, b0, r, idx + 1); at
    {
      found, stuck := false, stuck0;
      if bufs[hand].full {
        StepOver(f0, h0, b0, r, idx, stuck);
        stuck := true;
        return;
      }
      OpenHere(f0, h0, b0, r, idx, stuck);
      if |bufs[hand].data| + size > IO_BUF_SIZE {
        stuck := CloseBuffer(f0, h0, b0, r, idx);
      } else {
        found := true;
      }
    }

    /** The buffer at the hand is the writer's. */
    lemma OpenHere(f0: Flow, h0: nat, b0: seq<Cbuf>, r: Record, idx: nat, stuck: bool)
      requires hand < |bufs| && !bufs[hand].full
      requires if stuck then var at := Stuck(f0, h0, b0, r, idx); at else var at := Searching(f0, h0, b0, r, idx); at
      ensures !stuck && |flow.fulls| < n && |bufs[hand].data| == Size(flow.cur)
    {
      if !stuck {
        EncodeSize(flow.cur);
      }
    }

    /** __check_io_buffer_left. */
    method CheckIoBufferLeft(size0: nat, ghost r: Record)
      requires RingOk() && |flow.fulls| < n && flow.cur != [] && Check(r) == Wrapped(size0)
      modifies this`bufs, this`hand, this`flow
      ensures RingOk() && flow == Checked(old(flow), r)
    {
      EncodeSize(flow.cur);
      if |bufs[hand].data| + Wrapped(size0) > IO_BUF_SIZE {
        MarkFull();
      }
    }

    /** memcpy to the writer's buffer at its offset; it held d before. */
    method Append(bytes: seq<byte>, ghost before: seq<Cbuf>, ghost d: seq<byte>) returns (ghost d': seq<byte>)
      requires hand < |before| && bufs == before[hand := Cbuf(false, d)]
      modifies this`bufs
      ensures d' == d + bytes && bufs == before[hand := Cbuf(false, d')]
    {
      bufs := bufs[hand := bufs[hand].(data := bufs[hand].data + bytes)];
      d' := d + bytes;
    }

    /** The stores of androtrace_add_io. */
    method StoreIo(r: Record)
      requires RecordOk(r) && r.Io? && hand < |bufs| && !bufs[hand].full
      modifies this`bufs
      ensures bufs == old(bufs)[hand := Cbuf(false, old(bufs[hand]).data + Bytes(r))]
    {
      ghost var before, d0 := bufs, bufs[hand].data;
      var size: byte := LogSize(r);
      ghost var d := Append([TRACE_IO, size] + r.date, before, d0);
      d := Append(r.uio + [|r.pname|], before, d);
      if |r.pname| > 0 {
        d := Append(r.pname, before, d);
      }
      d := Append([|r.fname|], before, d);
      if |r.fname| > 0 {
        d := Append(r.fname, before, d);
      }
      if WsInfo(r.uio) {
        d := Append(r.ws, before, d);
      }
      AllStored(d0, r);
    }

    lemma AllStored(d: seq<byte>, r: Record)
      requires RecordOk(r) && r.Io?
      ensures d + Header(r) + (r.uio + [|r.pname|]) + r.pname + [|r.fname|] + r.fname + r.ws == d + Bytes(r)
      ensures Header(r) == [TRACE_IO, LogSize(r)] + r.date
      ensures forall e: seq<byte> :: e + [] == e
    {
      var a, b := Header(r), r.uio + [|r.pname|];
      Glue(Header(r), r.uio, [|r.pname|]);
      Glue(d, a, b);
      Glue(d, a + b, r.pname);
      Glue(d, a + b + r.pname, [|r.fname|]);
      Glue(d, a + b + r.pname + [|r.fname|], r.fname);
      Glue(d, a + b + r.pname + [|r.fname|] + r.fname, r.ws);
    }

    /** The record is in the buffer that has room for it. */
    lemma Stored(before: seq<Cbuf>, was: Flow, r: Record)
      requires (var ring := Ring(before, hand, head, n, was); ring) && |was.fulls| < n && RecordOk(r) && Room(was.cur, r)
      requires bufs == before[hand := Cbuf(false, before[hand].data + Bytes(r))]
      requires flow == was.(cur := was.cur + [r])
      ensures RingOk() && |bufs[hand].data| <= IO_BUF_SIZE
    {
      EncodeBoth(was.cur, [r]);
      EncodeOne(r);
      EncodeSize(was.cur + [r]);
      EncodeSize(was.cur);
      GuardOk(r);
      SizeBoth(was.cur, [r]);
      SizeOne(r);
      forall i | 0 <= i < n
        ensures bufs[i] == Expected(flow, Behind(i, head, n))
      {
        assert before[i] == Expected(was, Behind(i, head, n));
      }
    }

    /** The end of an add, once the record is in the writer's buffer. */
    method Finish(r: Record, size: nat, ghost before: seq<Cbuf>)
      requires (var ring := Ring(before, hand, head, n, flow); ring) && |flow.fulls| < n
      requires RecordOk(r) && Room(flow.cur, r) && Check(r) == Wrapped(size)
      requires bufs == before[hand := Cbuf(false, before[hand].data + Bytes(r))]
      modifies this`bufs, this`hand, this`flow
      ensures var ok := RingOk(); ok
      ensures flow == Checked(old(flow).(cur := old(flow).cur + [r]), r)
    {
      ghost var was := flow;
      flow := flow.(cur := flow.cur + [r]);
      Stored(before, was, r);
      CheckIoBufferLeft(size, r);
    }

    /** What an add comes to. */
    lemma AddedIs(was: Flow, r: Record)
      ensures Added(was, r) ==
        if Room(was.cur, r) then Checked(was.(cur := was.cur + [r]), r)
        else Checked(was.(fulls := was.fulls + [was.cur], cur := [] + [r]), r)
    {
      assert [] + [r] == [r];
    }

    /** A record is accepted exactly if one of the buffers that are not full has room. */
    lemma AcceptsIff(r: Record)
      requires RingOk() && RecordOk(r)
      ensures Accepts(flow, n, r) <==>
              exists i :: 0 <= i < n && !bufs[i].full &&
                          |bufs[i].data| + (if r.Io? then LogSize(r) + 20 else 31) <= IO_BUF_SIZE
    {
      GuardIs(r);
      EncodeSize(flow.cur);
      if |flow.fulls| < n {
        assert bufs[hand] == Expected(flow, |flow.fulls|);
        var next := Next(hand);
        assert bufs[next] == Expected(flow, Behind(next, head, n));
      }
    }

    /** androtrace_add_io: the record is added, unless no buffer has room for it.  A
        refusal leaves all buffers full and the hand where it was; only when they were
        all full before is that also where the reader is. */
    method AddIo(r: Record) returns (ok: bool)
      requires Valid() && RecordOk(r) && r.Io?
      modifies this`bufs, this`hand, this`flow
      ensures ok == Accepts(old(flow), n, r)
      ensures ok ==> var valid := Valid(); valid && flow == Added(old(flow), r)
      ensures !ok ==> AllFull() && hand == old(hand) && (n > 1 ==> (hand == head <==> |old(flow).fulls| == n))
      ensures !ok && |old(flow).fulls| == n ==> Valid() && flow == old(flow) && bufs == old(bufs)
    {
      AddedIs(flow, r);
      ok := GetIoBufferLeft(LogSize(r), r);
      if !ok {
        return;
      }
      ghost var before := bufs;
      StoreIo(r);
      Finish(r, LogSize(r) + 24, before);
    }

    /** androtrace_add_suspend. */
    method AddSuspend(r: Record) returns (ok: bool)
      requires Valid() && RecordOk(r) && r.Suspend?
      modifies this`bufs, this`hand, this`flow
      ensures ok == Accepts(old(flow), n, r)
      ensures ok ==> var valid := Valid(); valid && flow == Added(old(flow), r)
      ensures !ok ==> AllFull() && hand == old(hand) && (n > 1 ==> (hand == head <==> |old(flow).fulls| == n))
      ensures !ok && |old(flow).fulls| == n ==> Valid() && flow == old(flow) && bufs == old(bufs)
    {
      AddedIs(flow, r);
      ok := GetIoBufferLeft(HEADER_SIZE + 1, r);
      if !ok {
        return;
      }
      ghost var before := bufs;
      StoreSuspend(r);
      Finish(r, HEADER_SIZE + 1, before);
    }

    method StoreSuspend(r: Record)
      requires RecordOk(r) && r.Suspend? && hand < |bufs| && !bufs[hand].full
      modifies this`bufs
      ensures bufs == old(bufs)[hand := Cbuf(false, old(bufs[hand]).data + Bytes(r))]
    {
      ghost var before, d0 := bufs, bufs[hand].data;
      ghost var d := Append([TRACE_SUSPEND, 0] + r.date, before, d0);
      d := Append([r.message], before, d);
      Glue(d0, Header(r), [r.message]);
    }

    /** androtrace_poll. */
    method Poll() returns (ready: bool)
      requires RingOk()
      ensures ready <==> flow.fulls != []
    {
      ready := bufs[head].full;
    }

    /** androtrace_read: the reader's buffer is taken and emptied. */
    method Read() returns (data: seq<byte>)
      requires (var ok := RingOk(); ok) && flow.fulls != []
      modifies this`bufs, this`head, this`flow
      ensures var ok := RingOk(); ok
      ensures flow == old(flow).(fulls := old(flow).fulls[1..])
      ensures data == Encode(old(flow).fulls[0])
      ensures old(head) < |old(bufs)| && data == old(bufs)[old(head)].data
      ensures bufs == old(bufs)[old(head) := Cbuf(false, [])] && head == Next(old(head))
    {
      ghost var before, head0, was := bufs, head, flow;
      data := TakeBuffer();
      flow := flow.(fulls := flow.fulls[1..]);
      Emptied(before, hand, head0, n, was, bufs, head, flow);
    }

    method TakeBuffer() returns (data: seq<byte>)
      requires head < |bufs|
      modifies this`bufs, this`head
      ensures data == old(bufs[head].data) && bufs == old(bufs)[old(head) := Cbuf(false, [])] && head == Next(old(head))
    {
      data := bufs[head].data;
      bufs := bufs[head := Cbuf(false, [])];
      head := Next(head);
    }

    /** What was read goes to the open file, or to a new one. */
    method WriteData(data: seq<byte>)
      modifies this`closed, this`file, this`fileOffset
      ensures if old(fileOffset) + |data| <= IO_FILE_SIZE
              then closed == old(closed) && file == old(file) + data && fileOffset == old(fileOffset) + |data|
              else closed == old(closed) + [old(file)] && file == data && fileOffset == |data|
    {
      if fileOffset + |data| <= IO_FILE_SIZE {
        file := file + data;
        fileOffset := fileOffset + |data|;
      } else {
        closed := closed + [file];
        fileOffset := 0;
        file := data;
        fileOffset := fileOffset + |data|;
      }
    }

    /** The files are those of a drained pipeline. */
    lemma FilesDrained(closed0: seq<seq<byte>>, file0: seq<byte>, was: Flow)
      requires (var files := FilesAre(closed0, file0, |file0|, was.files); files)
      requires was.fulls != [] && RecordsOk(was.fulls[0])
      requires var data := Encode(was.fulls[0]);
               && fileOffset == |file|
               && if |file0| + |data| <= IO_FILE_SIZE then closed == closed0 && file == file0 + data
                  else closed == closed0 + [file0] && file == data
      ensures var files := FilesAre(closed, file, fileOffset, Drained(was).files); files
    {
      var recs := was.fulls[0];
      EncodeSize(was.files[|closed0|]);
      EncodeSize(recs);
      FileGrows(closed0, file0, was.files, recs);
      FileOpened(closed0, file0, was.files, recs);
    }

    /** io_file_write, when the device is ready: a buffer goes to the open file if it
        fits, and otherwise to a new one. */
    method IoFileWrite()
      requires Valid() && flow.fulls != []
      modifies this`bufs, this`head, this`closed, this`file, this`fileOffset, this`flow
      ensures var valid := Valid(); valid
      ensures flow == Drained(old(flow))
      ensures old(head) < |old(bufs)| && head == Next(old(head)) && bufs == old(bufs)[old(head) := Cbuf(false, [])]
      ensures var data := old(bufs)[old(head)].data;
              if old(fileOffset) + |data| <= IO_FILE_SIZE then closed == old(closed) && file == old(file) + data
              else closed == old(closed) + [old(file)] && file == data
    {
      ghost var was, closed0, file0 := flow, closed, file;
      DrainKeepsOk(was, n);
      EncodeSize(was.fulls[0]);
      var data := Read();
      if |data| > 0 {
        WriteData(data);
      }
      FilesDrained(closed0, file0, was);
      WithFiles(Drained(was));
    }

    /** Files do not matter to the ring. */
    ghost method WithFiles(f: Flow)
      requires var ring, flowOk := RingOk(), FlowOk(f, n); ring && flowOk && f.fulls == flow.fulls && f.cur == flow.cur
      requires var files := FilesAre(closed, file, fileOffset, f.files); files
      modifies this`flow
      ensures var valid := Valid(); valid
      ensures flow == f
    {
      flow := f;
    }
  }
}

/** From the records that were added to those that are parsed. */
module TraceLogs {
  import opened TraceRecords
  import opened TraceFlow
  import opened TraceRing

  lemma FittingHead(r: Record, rs: seq<Record>)
    ensures AllFit([r] + rs) <==> Fits(r) && AllFit(rs)
    ensures Fitting([r] + rs) == if Fits(r) then [r] + Fitting(rs) else []
  {
    var all := [r] + rs;
    assert all[0] == r && all[1..] == rs;
    assert forall i :: 0 <= i < |rs| ==> rs[i] == all[i + 1];
  }

  /** A record in front of two lists. */
  lemma FittingStep(r: Record, more: seq<Record>, b: seq<Record>)
    requires Fitting(more + b) == if AllFit(more) then more + Fitting(b) else Fitting(more)
    ensures Fitting([r] + more + b) == if AllFit([r] + more) then [r] + more + Fitting(b) else Fitting([r] + more)
  {
    FittingHead(r, more);
    FittingHead(r, more + b);
    GlueRecords([r], more, b);
    GlueRecords([r], more, Fitting(b));
  }

  lemma {:induction false} FittingBoth(a: seq<Record>, b: seq<Record>)
    ensures Fitting(a + b) == if AllFit(a) then a + Fitting(b) else Fitting(a)
  {
    if a == [] {
      GlueRecords([], [], b);
    } else {
      FittingBoth(a[1..], b);
      FittingStep(a[0], a[1..], b);
      assert [a[0]] + a[1..] == a;
    }
  }

  predicate FilesOf(files: seq<seq<byte>>, rss: seq<seq<Record>>) {
    |files| == |rss| && AllOk(rss) && forall i :: 0 <= i < |files| ==> files[i] == Encode(rss[i])
  }

  /** What is found in the first i files, all of it. */
  predicate FoundIn(rss: seq<seq<Record>>, i: nat, found: seq<Record>) {
    && i <= |rss| && |found| + |Flatten(rss[i..])| == |Flatten(rss)|
    && found + Fitting(Flatten(rss[i..])) == Fitting(Flatten(rss))
  }

  lemma FilesStart(rss: seq<seq<Record>>)
    ensures FoundIn(rss, 0, [])
  {
    assert rss[0..] == rss;
    GlueRecords([], [], Fitting(Flatten(rss)));
  }

  /** What a file adds to what is found, or where it stops. */
  lemma FilesNext(files: seq<seq<byte>>, rss: seq<seq<Record>>, i: nat, found: seq<Record>)
    requires FilesOf(files, rss) && FoundIn(rss, i, found) && i < |rss|
    ensures RecordsOk(rss[i]) && files[i] == Encode(rss[i])
    ensures AllFit(rss[i]) ==> var next := FoundIn(rss, i + 1, found + rss[i]); next
    ensures !AllFit(rss[i]) ==> found + Fitting(rss[i]) == Fitting(Flatten(rss)) && !AllFit(Flatten(rss))
  {
    var more, rest := rss[i], Flatten(rss[i + 1..]);
    assert rss[i..][1..] == rss[i + 1..];
    FittingBoth(more, rest);
    GlueRecords(found, more, Fitting(rest));
  }

  lemma FilesEnd(rss: seq<seq<Record>>, found: seq<Record>)
    requires FoundIn(rss, |rss|, found)
    ensures found == Fitting(Flatten(rss)) && AllFit(Flatten(rss))
  {
    assert rss[|rss|..] == [];
  }

  /** The parser, file by file. */
  method ParseFiles(files: seq<seq<byte>>, ghost rss: seq<seq<Record>>) returns (found: seq<Record>, ok: bool)
    requires var of := FilesOf(files, rss); of
    ensures found == Fitting(Flatten(rss))
    ensures ok <==> AllFit(Flatten(rss))
  {
    found, ok := [], true;
    var i := 0;
    FilesStart(rss);
    while i < |files|
      invariant i <= |files| == |rss| && var so := FoundIn(rss, i, found); so
    {
      FilesNext(files, rss, i, found);
      var more, fit := IoParser(files[i], rss[i]);
      found := found + more;
      if !fit {
        return found, false;
      }
      i := i + 1;
    }
    FilesEnd(rss, found);
  }

  lemma FilesListed(closed: seq<seq<byte>>, file: seq<byte>, fileOffset: nat, files: seq<seq<Record>>)
    requires FilesAre(closed, file, fileOffset, files)
    ensures FilesOf(closed + [file], files)
  {
  }

  /** From the tracer to the parser: however adds and drains alternated, parsing the files
      in the order of their creation gives exactly the records that the drains took, in
      order, if and only if all of their names fit the parser's array. */
  method ParseLogs(t: Trace, ghost steps: seq<Step>) returns (found: seq<Record>, ok: bool)
    requires t.Valid() && Feasible(Start, t.n, steps) && t.flow == After(Start, t.n, steps)
    ensures ok <==> AllFit(Taken(Start, t.n, steps))
    ensures found == Fitting(Taken(Start, t.n, steps))
    ensures ok ==> found == Taken(Start, t.n, steps)
  {
    FilesHoldPrefix(t.n, steps);
    FilesListed(t.closed, t.file, t.fileOffset, t.flow.files);
    found, ok := ParseFiles(t.closed + [t.file], t.flow.files);
  }
}
